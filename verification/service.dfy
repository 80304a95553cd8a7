/** The task service: each operation delegates to the task store and maps
    between entities and DTOs on the way, for the viewer given. The
    store's listing results are mapped element by element; its boolean
    results are passed through unchanged. */
module TaskService {
  import opened Entities
  import Zones
  import M = TaskMapper
  import S = TaskStore

  /** `findAll(user)`: every stored task as the viewer sees it, in creation
      order. The ghost `rows` is the store's answer that was mapped. */
  method FindAll(s: S.Store, viewer: User, rules: Zones.ZoneRules, db: S.Db)
    returns (r: seq<TaskDto>, ghost rows: seq<Task>)
    requires S.Valid(s)
    ensures db.Down? ==> r == []
    ensures db.Up? ==> S.IsListing(s, S.All, rows) && |r| == |s.tasks|
    ensures M.AllOwned(rows) && r == M.ToDtos(rows, viewer, rules)
  {
    var found := S.FindAll(s, db);
    rows := found;
    r := M.ToDtos(found, viewer, rules);
    if db.Up? {
      S.ListingAllLength(s, found);
    }
  }

  /** `findDone(user)`: the done tasks as the viewer sees them, in creation order. */
  method FindDone(s: S.Store, viewer: User, rules: Zones.ZoneRules, db: S.Db)
    returns (r: seq<TaskDto>, ghost rows: seq<Task>)
    requires S.Valid(s)
    ensures db.Down? ==> r == []
    ensures db.Up? ==> S.IsListing(s, S.Done, rows)
    ensures M.AllOwned(rows) && r == M.ToDtos(rows, viewer, rules)
    ensures forall i :: 0 <= i < |r| ==> r[i].done
  {
    var found := S.FindDone(s, db);
    rows := found;
    r := M.ToDtos(found, viewer, rules);
  }

  /** `findNew(user)`: the tasks not yet done as the viewer sees them, in creation order. */
  method FindNew(s: S.Store, viewer: User, rules: Zones.ZoneRules, db: S.Db)
    returns (r: seq<TaskDto>, ghost rows: seq<Task>)
    requires S.Valid(s)
    ensures db.Down? ==> r == []
    ensures db.Up? ==> S.IsListing(s, S.New, rows)
    ensures M.AllOwned(rows) && r == M.ToDtos(rows, viewer, rules)
    ensures forall i :: 0 <= i < |r| ==> !r[i].done
  {
    var found := S.FindNew(s, db);
    rows := found;
    r := M.ToDtos(found, viewer, rules);
  }

  /** Listed by creation time.  */
  ghost predicate LocalOrder(ds: seq<TaskDto>)
  {
    forall i, j :: 0 <= i < j < |ds| ==> ds[i].created <= ds[j].created
  }

  /** A viewer whose zone keeps one offset sees a listing in local-time
      order, because the store orders it by UTC creation time. */
  lemma ListingInLocalOrder(rows: seq<Task>, viewer: User, rules: Zones.ZoneRules)
    requires M.AllOwned(rows) && S.SortedByCreated(rows)
    requires Zones.FixedOffset(Zones.ViewerZone(viewer, rules), rules)
    ensures LocalOrder(M.ToDtos(rows, viewer, rules))
  {
    var ds := M.ToDtos(rows, viewer, rules);
    forall i, j | 0 <= i < j < |ds| ensures ds[i].created <= ds[j].created {
      Zones.FixedOffsetKeepsOrder(Zones.ViewerZone(viewer, rules), rules, rows[i].created, rows[j].created);
    }
  }

  /** `findById(id, user)`: empty exactly when the store finds nothing,
      otherwise the stored task as the viewer sees it. */
  function FindById(s: S.Store, id: int, viewer: User, rules: Zones.ZoneRules, db: S.Db): (r: Option<TaskDto>)
    requires S.Valid(s)
    ensures r.None? <==> S.FindById(s, id, db).None?
    ensures r.Some? ==> r.value.id == id && r.value == M.ToDto(s.tasks[id], viewer, rules)
  {
    match S.FindById(s, id, db)
    case None => None
    case Some(t) => Some(M.ToDto(t, viewer, rules))
  }

  /** `setDoneById`: the store's answer, unchanged. */
  function SetDoneById(s: S.Store, id: int, db: S.Db): (w: S.Status)
    requires S.Valid(s)
    ensures w.ok <==> db.Up? && id in s.tasks
    ensures S.Valid(w.store)
    ensures w.ok ==> S.FindById(w.store, id, S.Up) == Some(s.tasks[id].(done := true))
    ensures w == S.SetDoneById(s, id, db)
  {
    S.SetDoneById(s, id, db)
  }

  /** `deleteById`: the store's answer, unchanged. */
  function DeleteById(s: S.Store, id: int, db: S.Db): (w: S.Status)
    requires S.Valid(s)
    ensures w.ok <==> db.Up? && id in s.tasks
    ensures S.Valid(w.store)
    ensures S.FindById(w.store, id, S.Up).None? <==> w.ok || id !in s.tasks
    ensures w == S.DeleteById(s, id, db)
  {
    S.DeleteById(s, id, db)
  }

  /** `update(dto)`: converts the DTO and passes the store's answer through.
      `None` when building the category index throws. */
  function Update(s: S.Store, dto: TaskDto, catalog: M.Catalog, db: S.Db): (r: Option<S.Status>)
    requires S.Valid(s)
    ensures r.None? <==> !M.DistinctIds(catalog.categories)
    ensures r.Some? ==> S.Valid(r.value.store)
    ensures r.Some? ==> (r.value.ok <==> db.Up? && dto.id in s.tasks && catalog.users(dto.userId).Some?)
    ensures r.Some? && !r.value.ok ==> r.value.store == s
    ensures r.Some? && r.value.ok ==> S.FindById(r.value.store, dto.id, S.Up) == M.ToEntity(dto, catalog)
    ensures r.Some? ==> r.value == S.Update(s, M.ToEntity(dto, catalog).value, db)
  {
    match M.ToEntity(dto, catalog)
    case None => None
    case Some(t) => Some(S.Update(s, t, db))
  }

  /** `save(dto)`: converts the DTO and passes the store's answer through.
      `None` when building the category index throws. */
  function Save(s: S.Store, dto: TaskDto, catalog: M.Catalog, db: S.Db): (r: Option<S.Saved>)
    requires S.Valid(s)
    ensures r.None? <==> !M.DistinctIds(catalog.categories)
    ensures r.Some? ==> S.Valid(r.value.store)
    ensures r.Some? ==> (r.value.ok <==> db.Up? && catalog.users(dto.userId).Some?)
    ensures r.Some? && !r.value.ok ==> r.value.store == s
    ensures r.Some? && r.value.ok ==>
              r.value.id !in s.tasks
              && S.FindById(r.value.store, r.value.id, S.Up)
                 == Some(M.ToEntity(dto, catalog).value.(id := r.value.id))
    ensures r.Some? ==> r.value == S.Save(s, M.ToEntity(dto, catalog).value, db)
  {
    match M.ToEntity(dto, catalog)
    case None => None
    case Some(t) => Some(S.Save(s, t, db))
  }

  /** Saving a DTO whose references resolve as shown and then viewing the
      new task gives the DTO back under its new id, with `created` shifted
      by the viewer's offset (the DTO's time is stored as if it were UTC). */
  lemma SaveThenView(s: S.Store, dto: TaskDto, catalog: M.Catalog, viewer: User, rules: Zones.ZoneRules)
    requires S.Valid(s)
    requires M.ResolvesAsShown(dto, catalog)
    ensures Save(s, dto, catalog, S.Up).Some? && Save(s, dto, catalog, S.Up).value.ok
    ensures var saved := Save(s, dto, catalog, S.Up).value;
            dto.categories == M.CategoryNames(M.ToEntity(dto, catalog).value.categories) ==>
            FindById(saved.store, saved.id, viewer, rules, S.Up)
            == Some(dto.(id := saved.id,
                         created := Zones.ToLocal(dto.created, Zones.ViewerZone(viewer, rules), rules)))
  {
    M.DtoRoundTrip(dto, catalog, viewer, rules);
    var saved := Save(s, dto, catalog, S.Up).value;
    var t := M.ToEntity(dto, catalog).value;
    assert saved.store.tasks[saved.id] == t.(id := saved.id);
    M.DtoRoundTrip(dto.(id := saved.id), catalog, viewer, rules);
    assert M.ToEntity(dto.(id := saved.id), catalog).value == t.(id := saved.id);
  }
}
