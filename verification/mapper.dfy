/** The two directions between a stored task and its display form:
    `taskToTaskDto` (entity to DTO, for one viewer) and `taskDtoToTask`
    (DTO to entity, resolving ids through lookups). */
module TaskMapper {
  import opened Entities
  import Text
  import Zones

  /** Separator between category names in the DTO's name string. */
  const NameSeparator: string := ", "

  /** What resolving a DTO's references consults: the user and priority
      services' `findById`, and the category service's `findAll`. */
  datatype Catalog = Catalog(
    users: int -> Option<User>,
    priorities: int -> Option<Priority>,
    categories: seq<Category>)

  // ---------------------------------------------------------------------
  // Entity to DTO

  /** The ids of the categories, in relation order. */
  function CategoryIds(cats: seq<Category>): (ids: seq<int>)
    ensures |ids| == |cats|
    ensures forall i :: 0 <= i < |cats| ==> ids[i] == cats[i].id
  {
    if |cats| == 0 then [] else [cats[0].id] + CategoryIds(cats[1..])
  }

  /** The names of the categories, in relation order. */
  function Names(cats: seq<Category>): (names: seq<string>)
    ensures |names| == |cats|
    ensures forall i :: 0 <= i < |cats| ==> names[i] == cats[i].name
  {
    if |cats| == 0 then [] else [cats[0].name] + Names(cats[1..])
  }

  /** The category names sorted ascending and joined with ", ". */
  function CategoryNames(cats: seq<Category>): (s: string)
    ensures |cats| == 0 ==> s == ""
  {
    Text.Join(Text.Sort(Names(cats)), NameSeparator)
  }

  /** The name string is the join of THE ascending arrangement of the names:
      any sorted permutation of the names gives the same string. */
  lemma CategoryNamesAreSortedJoin(cats: seq<Category>, sorted: seq<string>)
    requires Text.Sorted(sorted)
    requires multiset(sorted) == multiset(Names(cats))
    ensures CategoryNames(cats) == Text.Join(sorted, NameSeparator)
  {
    Text.SortedUnique(Text.Sort(Names(cats)), sorted);
  }

  /** The name string ignores the order of the categories (and their ids). */
  lemma CategoryNamesIgnoreOrder(a: seq<Category>, b: seq<Category>)
    requires multiset(Names(a)) == multiset(Names(b))
    ensures CategoryNames(a) == CategoryNames(b)
  {
    Text.SortedUnique(Text.Sort(Names(a)), Text.Sort(Names(b)));
  }

  /** The display form of `t` for `viewer`. The owner is dereferenced
      unconditionally, so a task without one cannot be mapped. */
  function ToDto(t: Task, viewer: User, rules: Zones.ZoneRules): (d: TaskDto)
    requires t.user.Some?
    ensures d.id == t.id && d.title == t.title && d.description == t.description && d.done == t.done
    ensures d.userId == t.user.value.id && d.userName == t.user.value.name
    ensures t.priority.None? ==> d.priorityId == 0 && d.priorityName == ""
    ensures t.priority.Some? ==> d.priorityId == t.priority.value.id && d.priorityName == t.priority.value.name
    ensures |d.categoriesId| == |t.categories|
    ensures forall i :: 0 <= i < |t.categories| ==> d.categoriesId[i] == t.categories[i].id
    ensures d.categories == CategoryNames(t.categories)
    ensures d.created - t.created == rules.offsetAt(Zones.ViewerZone(viewer, rules), t.created)
  {
    var zone := Zones.ViewerZone(viewer, rules);
    TaskDto(
      t.id, t.title, t.description,
      Zones.ToLocal(t.created, zone, rules),
      t.done,
      t.user.value.id, t.user.value.name,
      if t.priority.Some? then t.priority.value.id else 0,
      if t.priority.Some? then t.priority.value.name else "",
      CategoryIds(t.categories),
      CategoryNames(t.categories))
  }

  /** A viewer without a zone sees exactly what a viewer in the host's
      default zone sees. */
  lemma NoZoneMeansSystemDefault(t: Task, viewer: User, rules: Zones.ZoneRules)
    requires t.user.Some? && viewer.timezone.None?
    ensures ToDto(t, viewer, rules) == ToDto(t, viewer.(timezone := Some(rules.systemDefault)), rules)
  {
  }

  /** Every task has an owner, so each can be mapped. */
  ghost predicate AllOwned(ts: seq<Task>)
  {
    forall t :: t in ts ==> t.user.Some?
  }

  /** Element-wise mapping of a task list, keeping length and order. */
  function ToDtos(ts: seq<Task>, viewer: User, rules: Zones.ZoneRules): (ds: seq<TaskDto>)
    requires AllOwned(ts)
    ensures |ds| == |ts|
    ensures forall i :: 0 <= i < |ts| ==> ds[i] == ToDto(ts[i], viewer, rules)
  {
    if |ts| == 0 then [] else [ToDto(ts[0], viewer, rules)] + ToDtos(ts[1..], viewer, rules)
  }

  /** The tasks with the given done flag, in order. */
  function TasksWithDone(ts: seq<Task>, done: bool): (r: seq<Task>)
    ensures forall t :: t in r <==> t in ts && t.done == done
  {
    if |ts| == 0 then []
    else (if ts[0].done == done then [ts[0]] else []) + TasksWithDone(ts[1..], done)
  }

  /** The DTOs with the given done flag, in order. */
  function DtosWithDone(ds: seq<TaskDto>, done: bool): (r: seq<TaskDto>)
    ensures forall d :: d in r <==> d in ds && d.done == done
  {
    if |ds| == 0 then []
    else (if ds[0].done == done then [ds[0]] else []) + DtosWithDone(ds[1..], done)
  }

  /** Mapping keeps the done flag, so selecting done (or new) tasks before
      or after mapping gives the same list. */
  lemma {:induction false} MappingCommutesWithDoneFilter(ts: seq<Task>, done: bool, viewer: User, rules: Zones.ZoneRules)
    requires AllOwned(ts)
    ensures AllOwned(TasksWithDone(ts, done))
    ensures ToDtos(TasksWithDone(ts, done), viewer, rules) == DtosWithDone(ToDtos(ts, viewer, rules), done)
    decreases |ts|
  {
    if |ts| > 0 {
      var rest := TasksWithDone(ts[1..], done);
      MappingCommutesWithDoneFilter(ts[1..], done, viewer, rules);
      ToDtosCons(ts, viewer, rules);
      DtosWithDoneCons(ToDtos(ts, viewer, rules), done);
      if ts[0].done == done {
        ToDtosCons([ts[0]] + rest, viewer, rules);
        assert ([ts[0]] + rest)[1..] == rest;
      }
    }
  }

  lemma ToDtosCons(ts: seq<Task>, viewer: User, rules: Zones.ZoneRules)
    requires AllOwned(ts) && |ts| > 0
    ensures ToDtos(ts, viewer, rules) == [ToDto(ts[0], viewer, rules)] + ToDtos(ts[1..], viewer, rules)
  {
  }

  lemma DtosWithDoneCons(ds: seq<TaskDto>, done: bool)
    requires |ds| > 0
    ensures DtosWithDone(ds, done) == (if ds[0].done == done then [ds[0]] else []) + DtosWithDone(ds[1..], done)
  {
  }

  // ---------------------------------------------------------------------
  // DTO to entity

  /** No two categories share an id. */
  ghost predicate DistinctIds(cats: seq<Category>)
  {
    forall i, j :: 0 <= i < j < |cats| ==> cats[i].id != cats[j].id
  }

  /** The index `Collectors.toMap(Category::getId, identity())` builds; it
      throws on a repeated id, which is `None` here. */
  function CategoryIndex(cats: seq<Category>): (r: Option<map<int, Category>>)
    ensures r.Some? <==> DistinctIds(cats)
    ensures r.Some? ==> forall k :: k in r.value ==> r.value[k].id == k && r.value[k] in cats
    ensures r.Some? ==> forall c :: c in cats ==> c.id in r.value && r.value[c.id] == c
  {
    if |cats| == 0 then Some(map[])
    else
      match CategoryIndex(cats[1..])
      case None => None
      case Some(m) =>
        if cats[0].id in m then
          assert m[cats[0].id] in cats[1..];
          None
        else
          assert cats == [cats[0]] + cats[1..];
          Some(m[cats[0].id := cats[0]])
  }

  /** The ids of `ids` that `index` knows, in order. */
  function KnownIds(ids: seq<int>, index: map<int, Category>): (kept: seq<int>)
    ensures |kept| <= |ids|
    ensures forall k :: k in kept ==> k in ids && k in index
  {
    if |ids| == 0 then []
    else (if ids[0] in index then [ids[0]] else []) + KnownIds(ids[1..], index)
  }

  /** The categories of the given ids, skipping ids the index does not know. */
  function Resolve(ids: seq<int>, index: map<int, Category>): (cats: seq<Category>)
    requires forall k :: k in index ==> index[k].id == k
    ensures CategoryIds(cats) == KnownIds(ids, index)
    ensures forall c :: c in cats ==> c.id in index && index[c.id] == c
    ensures |cats| <= |ids|
  {
    if |ids| == 0 then []
    else
      var rest := Resolve(ids[1..], index);
      if ids[0] in index then
        assert CategoryIds([index[ids[0]]] + rest) == [ids[0]] + CategoryIds(rest);
        [index[ids[0]]] + rest
      else rest
  }

  /** When every id is known nothing is dropped. */
  lemma {:induction false} KnownIdsAll(ids: seq<int>, index: map<int, Category>)
    requires forall i :: 0 <= i < |ids| ==> ids[i] in index
    ensures KnownIds(ids, index) == ids
    decreases |ids|
  {
    if |ids| > 0 {
      KnownIdsAll(ids[1..], index);
    }
  }

  /** Ids absent from the index are dropped, and only those. */
  lemma {:induction false} KnownIdsMembership(ids: seq<int>, index: map<int, Category>)
    ensures forall k :: k in KnownIds(ids, index) <==> k in ids && k in index
    decreases |ids|
  {
    if |ids| > 0 {
      KnownIdsMembership(ids[1..], index);
      assert ids == [ids[0]] + ids[1..];
    }
  }

  /** The entity a DTO describes: scalar fields copied verbatim (including
      `created`, which is not converted back), owner and priority looked up
      by id (absent when not found), categories resolved through the index,
      unknown ids dropped. `None` when the category list repeats an id. */
  function ToEntity(dto: TaskDto, catalog: Catalog): (r: Option<Task>)
    ensures r.None? <==> !DistinctIds(catalog.categories)
    ensures r.Some? ==> r.value.id == dto.id && r.value.title == dto.title
                        && r.value.description == dto.description
                        && r.value.created == dto.created && r.value.done == dto.done
    ensures r.Some? ==> r.value.user == catalog.users(dto.userId)
                        && r.value.priority == catalog.priorities(dto.priorityId)
    ensures r.Some? ==> forall c :: c in r.value.categories ==> c in catalog.categories
  {
    match CategoryIndex(catalog.categories)
    case None => None
    case Some(index) =>
      Some(Task(dto.id, dto.title, dto.description, dto.created, dto.done,
                catalog.users(dto.userId),
                catalog.priorities(dto.priorityId),
                Resolve(dto.categoriesId, index)))
  }

  /** Category ids of the entity: exactly the DTO's ids whose category the
      catalog lists, in DTO order. */
  lemma ToEntityKeepsKnownCategories(dto: TaskDto, catalog: Catalog)
    requires DistinctIds(catalog.categories)
    ensures ToEntity(dto, catalog).Some?
    ensures CategoryIds(ToEntity(dto, catalog).value.categories)
            == KnownIds(dto.categoriesId, CategoryIndex(catalog.categories).value)
    ensures forall k :: k in CategoryIds(ToEntity(dto, catalog).value.categories)
                        <==> k in dto.categoriesId && k in CategoryIds(catalog.categories)
  {
    var index := CategoryIndex(catalog.categories).value;
    KnownIdsMembership(dto.categoriesId, index);
    forall k ensures k in index <==> k in CategoryIds(catalog.categories) {
      if k in index {
        var j :| 0 <= j < |catalog.categories| && catalog.categories[j] == index[k];
        assert CategoryIds(catalog.categories)[j] == k;
      }
      if k in CategoryIds(catalog.categories) {
        var j :| 0 <= j < |catalog.categories| && CategoryIds(catalog.categories)[j] == k;
        assert catalog.categories[j] in catalog.categories;
      }
    }
  }

  // ---------------------------------------------------------------------
  // Round trips

  /** The catalog resolves everything `t` refers to back to what `t` holds. */
  ghost predicate CatalogAgrees(t: Task, catalog: Catalog)
    requires t.user.Some?
  {
    && catalog.users(t.user.value.id) == t.user
    && (t.priority.Some? ==> catalog.priorities(t.priority.value.id) == t.priority)
    && (t.priority.None? ==> catalog.priorities(0).None?)
    && DistinctIds(catalog.categories)
    && (forall c :: c in t.categories ==> c in catalog.categories)
  }

  /** Entity to DTO and back gives the entity again, except that `created`
      comes back as the viewer's local time: the reverse direction does not
      undo the zone shift. */
  lemma EntityRoundTrip(t: Task, viewer: User, rules: Zones.ZoneRules, catalog: Catalog)
    requires t.user.Some?
    requires CatalogAgrees(t, catalog)
    ensures ToEntity(ToDto(t, viewer, rules), catalog)
            == Some(t.(created := Zones.ToLocal(t.created, Zones.ViewerZone(viewer, rules), rules)))
  {
    var d := ToDto(t, viewer, rules);
    var index := CategoryIndex(catalog.categories).value;
    assert d.categoriesId == CategoryIds(t.categories);
    ResolveListed(t.categories, index);
  }

  /** Resolving the ids of categories the index holds gives those categories back. */
  lemma {:induction false} ResolveListed(cats: seq<Category>, index: map<int, Category>)
    requires forall k :: k in index ==> index[k].id == k
    requires forall c :: c in cats ==> c.id in index && index[c.id] == c
    ensures Resolve(CategoryIds(cats), index) == cats
    decreases |cats|
  {
    if |cats| > 0 {
      assert cats[0] in cats;
      assert CategoryIds(cats)[1..] == CategoryIds(cats[1..]);
      ResolveListed(cats[1..], index);
    }
  }

  /** The DTO's references resolve to exactly what it shows. */
  ghost predicate ResolvesAsShown(dto: TaskDto, catalog: Catalog)
  {
    && DistinctIds(catalog.categories)
    && catalog.users(dto.userId).Some?
    && catalog.users(dto.userId).value.id == dto.userId
    && catalog.users(dto.userId).value.name == dto.userName
    && (match catalog.priorities(dto.priorityId)
        case Some(p) => p.id == dto.priorityId && p.name == dto.priorityName
        case None => dto.priorityId == 0 && dto.priorityName == "")
    && (forall i :: 0 <= i < |dto.categoriesId| ==> dto.categoriesId[i] in CategoryIds(catalog.categories))
  }

  /** DTO to entity and back gives the DTO again when every reference
      resolves as shown and the name string is the one its categories give;
      `created` is shifted once more by the viewer's offset. */
  lemma DtoRoundTrip(dto: TaskDto, catalog: Catalog, viewer: User, rules: Zones.ZoneRules)
    requires ResolvesAsShown(dto, catalog)
    ensures ToEntity(dto, catalog).Some? && ToEntity(dto, catalog).value.user.Some?
    ensures var t := ToEntity(dto, catalog).value;
            dto.categories == CategoryNames(t.categories) ==>
            ToDto(t, viewer, rules)
            == dto.(created := Zones.ToLocal(dto.created, Zones.ViewerZone(viewer, rules), rules))
  {
    var index := CategoryIndex(catalog.categories).value;
    forall i | 0 <= i < |dto.categoriesId| ensures dto.categoriesId[i] in index {
      var j :| 0 <= j < |catalog.categories| && CategoryIds(catalog.categories)[j] == dto.categoriesId[i];
      assert catalog.categories[j] in catalog.categories;
    }
    KnownIdsAll(dto.categoriesId, index);
  }
}
