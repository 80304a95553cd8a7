/** The task repository, abstracted from its relational storage: the
    `tasks` table is a map from id to task, and the identity column is a
    counter. Every operation catches storage errors; the `Db` argument
    says whether the database call succeeds, and a failing call yields the
    empty list, the empty optional or `false` with the store unchanged. */
module TaskStore {
  import opened Entities

  /** Outcome of the database call behind an operation. */
  datatype Db = Up | Down

  /** The stored tasks by id, and the next value of the identity column. */
  datatype Store = Store(tasks: map<int, Task>, nextId: int)

  /** Result of a mutation: the store afterwards and the reported success. */
  datatype Status = Status(store: Store, ok: bool)

  /** Result of an insert: also the id the identity column assigned. */
  datatype Saved = Saved(store: Store, ok: bool, id: int)

  /** The three listing queries: every task, done tasks, new tasks. */
  datatype Selection = All | Done | New

  /** A fresh database: no tasks, identity column starting at 1. */
  const Empty: Store := Store(map[], 1)

  /** Each row sits under its own id, ids are positive and below the
      identity counter, and every row has an owner. */
  ghost predicate Valid(s: Store)
  {
    && 0 < s.nextId
    && forall id :: id in s.tasks ==>
         s.tasks[id].id == id && 0 < id < s.nextId && s.tasks[id].user.Some?
  }

  lemma EmptyIsValid()
    ensures Valid(Empty)
  {
  }

  /** The `WHERE` clause of each listing query. */
  predicate Selects(sel: Selection, t: Task)
  {
    match sel
    case All => true
    case Done => t.done
    case New => !t.done
  }

  /** `ORDER BY t.created`. */
  ghost predicate SortedByCreated(r: seq<Task>)
  {
    forall i, j :: 0 <= i < j < |r| ==> r[i].created <= r[j].created
  }

  /** `SELECT DISTINCT`: no task is listed twice. */
  ghost predicate DistinctTaskIds(r: seq<Task>)
  {
    forall i, j :: 0 <= i < j < |r| ==> r[i].id != r[j].id
  }

  /** `r` is an answer to the listing query `sel`: ordered by creation
      time, each selected stored task exactly once, and nothing else. */
  ghost predicate IsListing(s: Store, sel: Selection, r: seq<Task>)
  {
    && SortedByCreated(r)
    && DistinctTaskIds(r)
    && (forall t :: t in r ==> t.id in s.tasks && s.tasks[t.id] == t && Selects(sel, t))
    && (forall id :: id in s.tasks && Selects(sel, s.tasks[id]) ==> s.tasks[id] in r)
  }

  /** The ids of the stored tasks the query selects. */
  ghost function SelectedIds(s: Store, sel: Selection): set<int>
  {
    set id | id in s.tasks && Selects(sel, s.tasks[id])
  }

  /** Where `t` goes in a list ordered by creation time: after every task
      created no later than it. */
  function InsertPos(t: Task, r: seq<Task>): (k: nat)
    requires SortedByCreated(r)
    ensures k <= |r|
    ensures forall i :: 0 <= i < k ==> r[i].created <= t.created
    ensures forall i :: k <= i < |r| ==> t.created < r[i].created
  {
    if |r| == 0 || t.created < r[0].created then 0
    else 1 + InsertPos(t, r[1..])
  }

  /** Element `i` of `r` with `t` placed at position `k`. */
  lemma InsertedAt(r: seq<Task>, t: Task, k: nat, i: int)
    requires k <= |r| && 0 <= i <= |r|
    ensures (r[..k] + [t] + r[k..])[i] == if i < k then r[i] else if i == k then t else r[i - 1]
  {
  }

  /** Placing `t` at its insertion position keeps the list ordered and
      duplicate-free, and adds exactly `t`. */
  lemma InsertAtPos(r: seq<Task>, t: Task, k: nat)
    requires SortedByCreated(r) && DistinctTaskIds(r)
    requires k <= |r|
    requires forall i :: 0 <= i < k ==> r[i].created <= t.created
    requires forall i :: k <= i < |r| ==> t.created < r[i].created
    requires forall i :: 0 <= i < |r| ==> r[i].id != t.id
    ensures SortedByCreated(r[..k] + [t] + r[k..])
    ensures DistinctTaskIds(r[..k] + [t] + r[k..])
    ensures forall x :: x in r[..k] + [t] + r[k..] <==> x == t || x in r
  {
    var r' := r[..k] + [t] + r[k..];
    forall i, j | 0 <= i < j < |r'|
      ensures r'[i].created <= r'[j].created && r'[i].id != r'[j].id
    {
      InsertedAt(r, t, k, i);
      InsertedAt(r, t, k, j);
    }
    forall x | x in r ensures x in r' {
      var i :| 0 <= i < |r| && r[i] == x;
      if i < k {
        InsertedAt(r, t, k, i);
      } else {
        InsertedAt(r, t, k, i + 1);
      }
    }
    forall x | x in r' ensures x == t || x in r {
      var i :| 0 <= i < |r'| && r'[i] == x;
      InsertedAt(r, t, k, i);
    }
  }

  /** Some element of a non-empty set of ids (the order rows come back in
      is not specified). */
  method Pick(ids: set<int>) returns (id: int)
    requires ids != {}
    ensures id in ids
  {
    HasMember(ids);
    id :| id in ids;
  }

  /** A non-empty set has a member. The solver does not derive this from
      `ids != {}` on its own; ruling out the empty case explicitly does. */
  lemma HasMember(ids: set<int>)
    requires ids != {}
    ensures exists id :: id in ids
  {
    if forall id :: id !in ids {
      assert false;
    }
  }

  /** Runs a listing query against the stored rows. Rows with equal
      creation times may come back in any order. */
  method Query(s: Store, sel: Selection) returns (r: seq<Task>)
    requires Valid(s)
    ensures IsListing(s, sel, r)
  {
    var remaining := s.tasks.Keys;
    r := [];
    while |remaining| > 0
      invariant forall k :: k in remaining ==> k in s.tasks
      invariant SortedByCreated(r)
      invariant DistinctTaskIds(r)
      invariant forall x :: x in r ==> x.id in s.tasks && x.id !in remaining && s.tasks[x.id] == x && Selects(sel, x)
      invariant forall id :: id in s.tasks && id !in remaining && Selects(sel, s.tasks[id]) ==> s.tasks[id] in r
      decreases |remaining|
    {
      var id := Pick(remaining);
      remaining := remaining - {id};
      var t := s.tasks[id];
      if Selects(sel, t) {
        var k := InsertPos(t, r);
        InsertAtPos(r, t, k);
        r := r[..k] + [t] + r[k..];
      }
    }
  }

  /** `findAll`: every task, ordered by creation time; empty on a database error. */
  method FindAll(s: Store, db: Db) returns (r: seq<Task>)
    requires Valid(s)
    ensures db.Down? ==> r == []
    ensures db.Up? ==> IsListing(s, All, r)
    ensures forall i :: 0 <= i < |r| ==> r[i].user.Some?
  {
    if db.Down? {
      return [];
    }
    r := Query(s, All);
  }

  /** `findDone`: the done tasks, ordered by creation time; empty on a database error. */
  method FindDone(s: Store, db: Db) returns (r: seq<Task>)
    requires Valid(s)
    ensures db.Down? ==> r == []
    ensures db.Up? ==> IsListing(s, Done, r)
    ensures forall i :: 0 <= i < |r| ==> r[i].done && r[i].user.Some?
  {
    if db.Down? {
      return [];
    }
    r := Query(s, Done);
  }

  /** `findNew`: the tasks not yet done, ordered by creation time; empty on a database error. */
  method FindNew(s: Store, db: Db) returns (r: seq<Task>)
    requires Valid(s)
    ensures db.Down? ==> r == []
    ensures db.Up? ==> IsListing(s, New, r)
    ensures forall i :: 0 <= i < |r| ==> !r[i].done && r[i].user.Some?
  {
    if db.Down? {
      return [];
    }
    r := Query(s, New);
  }

  /** The ids listed in `r`. */
  ghost function IdsOf(r: seq<Task>): set<int>
  {
    set i | 0 <= i < |r| :: r[i].id
  }

  lemma {:induction false} DistinctIdsCount(r: seq<Task>)
    requires DistinctTaskIds(r)
    ensures |IdsOf(r)| == |r|
    decreases |r|
  {
    if |r| > 0 {
      DistinctIdsCount(r[1..]);
      assert IdsOf(r) == {r[0].id} + IdsOf(r[1..]);
      assert r[0].id !in IdsOf(r[1..]);
    }
  }

  /** A listing holds exactly as many tasks as the query selects. */
  lemma ListingLength(s: Store, sel: Selection, r: seq<Task>)
    requires Valid(s) && IsListing(s, sel, r)
    ensures |r| == |SelectedIds(s, sel)|
  {
    forall id ensures id in IdsOf(r) <==> id in SelectedIds(s, sel) {
      if id in SelectedIds(s, sel) {
        var i :| 0 <= i < |r| && r[i] == s.tasks[id];
      }
    }
    assert IdsOf(r) == SelectedIds(s, sel);
    DistinctIdsCount(r);
  }

  /** A full listing holds every stored task. */
  lemma ListingAllLength(s: Store, r: seq<Task>)
    requires Valid(s) && IsListing(s, All, r)
    ensures |r| == |s.tasks|
  {
    ListingLength(s, All, r);
    forall id ensures id in SelectedIds(s, All) <==> id in s.tasks.Keys {
      if id in s.tasks {
        assert Selects(All, s.tasks[id]);
      }
    }
    assert SelectedIds(s, All) == s.tasks.Keys;
  }

  /** `findDone` and `findNew` split `findAll`: every listed task is in
      exactly one of them according to its done flag, and the lengths add up. */
  lemma DoneNewPartitionAll(s: Store, listed: seq<Task>, done: seq<Task>, pending: seq<Task>)
    requires Valid(s)
    requires IsListing(s, All, listed) && IsListing(s, Done, done) && IsListing(s, New, pending)
    ensures forall t :: t in listed ==> (t in done <==> t.done) && (t in pending <==> !t.done)
    ensures forall t :: t in done || t in pending ==> t in listed
    ensures |done| + |pending| == |listed|
  {
    forall t | t in listed ensures (t in done <==> t.done) && (t in pending <==> !t.done) {
      assert s.tasks[t.id] == t;
    }
    forall t | t in done || t in pending ensures t in listed {
      assert s.tasks[t.id] == t;
    }
    ListingLength(s, All, listed);
    ListingLength(s, Done, done);
    ListingLength(s, New, pending);
    SelectedSplit(s);
  }

  /** Every stored task is done or new, never both. */
  lemma SelectedSplit(s: Store)
    ensures |SelectedIds(s, All)| == |SelectedIds(s, Done)| + |SelectedIds(s, New)|
  {
    forall id ensures id in SelectedIds(s, All) <==> id in SelectedIds(s, Done) + SelectedIds(s, New) {
      if id in s.tasks {
        assert Selects(All, s.tasks[id]);
        assert Selects(Done, s.tasks[id]) || Selects(New, s.tasks[id]);
      }
    }
    assert SelectedIds(s, All) == SelectedIds(s, Done) + SelectedIds(s, New);
    forall id | id in SelectedIds(s, Done) ensures id !in SelectedIds(s, New) {
      assert s.tasks[id].done;
    }
    assert SelectedIds(s, Done) !! SelectedIds(s, New);
  }

  /** `findById`: the task with that id, or nothing (also on a database error). */
  function FindById(s: Store, id: int, db: Db): (r: Option<Task>)
    requires Valid(s)
    ensures r.Some? <==> db.Up? && id in s.tasks
    ensures r.Some? ==> r.value == s.tasks[id]
    ensures r.Some? ==> r.value.id == id && r.value.user.Some?
  {
    if db.Up? && id in s.tasks then Some(s.tasks[id]) else None
  }

  /** Ids are positive, so looking up id -1 finds nothing. */
  lemma NegativeIdNotFound(s: Store, db: Db)
    requires Valid(s)
    ensures FindById(s, -1, db).None?
  {
  }

  /** `setDoneById`: marks the task done; true exactly when a row with that
      id exists (whether or not it was done already). */
  function SetDoneById(s: Store, id: int, db: Db): (w: Status)
    requires Valid(s)
    ensures Valid(w.store)
    ensures w.ok <==> db.Up? && id in s.tasks
    ensures !w.ok ==> w.store == s
    ensures w.ok ==> w.store.nextId == s.nextId && w.store.tasks.Keys == s.tasks.Keys
    ensures w.ok ==> w.store.tasks[id].done && w.store.tasks[id].(done := s.tasks[id].done) == s.tasks[id]
    ensures forall k :: k in s.tasks && k != id ==> k in w.store.tasks && w.store.tasks[k] == s.tasks[k]
  {
    if db.Up? && id in s.tasks then
      Status(s.(tasks := s.tasks[id := s.tasks[id].(done := true)]), true)
    else
      Status(s, false)
  }

  /** Marking done twice succeeds both times and the second call changes nothing. */
  lemma SetDoneTwice(s: Store, id: int)
    requires Valid(s) && id in s.tasks
    ensures var first := SetDoneById(s, id, Up);
            var second := SetDoneById(first.store, id, Up);
            first.ok && second.ok && second.store == first.store
  {
    var first := SetDoneById(s, id, Up);
    assert first.store.tasks[id := first.store.tasks[id].(done := true)] == first.store.tasks;
  }

  /** After a successful `setDoneById`, `findById` shows the task done and
      otherwise as it was. */
  lemma SetDoneThenFind(s: Store, id: int)
    requires Valid(s) && id in s.tasks
    ensures FindById(SetDoneById(s, id, Up).store, id, Up) == Some(s.tasks[id].(done := true))
  {
  }

  /** `deleteById`: removes the task; true exactly when a row with that id existed. */
  function DeleteById(s: Store, id: int, db: Db): (w: Status)
    requires Valid(s)
    ensures Valid(w.store)
    ensures w.ok <==> db.Up? && id in s.tasks
    ensures !w.ok ==> w.store == s
    ensures w.ok ==> id !in w.store.tasks && |w.store.tasks| == |s.tasks| - 1
    ensures w.store.nextId == s.nextId
    ensures w.store.tasks.Keys == s.tasks.Keys - (if w.ok then {id} else {})
    ensures forall k :: k in s.tasks && k != id ==> w.store.tasks[k] == s.tasks[k]
  {
    if db.Up? && id in s.tasks then
      Status(s.(tasks := s.tasks - {id}), true)
    else
      Status(s, false)
  }

  /** After a successful delete the task is gone and every other task is still found. */
  lemma DeleteThenFind(s: Store, id: int, other: int)
    requires Valid(s) && id in s.tasks && other != id
    ensures FindById(DeleteById(s, id, Up).store, id, Up).None?
    ensures FindById(DeleteById(s, id, Up).store, other, Up) == FindById(s, other, Up)
  {
  }

  /** `update`: replaces every column of the row with the task's id. Fails
      when no row has that id (the stale update is caught), when the task
      has no owner, or on a database error. */
  function Update(s: Store, t: Task, db: Db): (w: Status)
    requires Valid(s)
    ensures Valid(w.store)
    ensures w.ok <==> db.Up? && t.id in s.tasks && t.user.Some?
    ensures !w.ok ==> w.store == s
    ensures w.ok ==> w.store.tasks.Keys == s.tasks.Keys && w.store.tasks[t.id] == t
    ensures w.store.nextId == s.nextId
    ensures forall k :: k in s.tasks && k != t.id ==> w.store.tasks[k] == s.tasks[k]
  {
    if db.Up? && t.id in s.tasks && t.user.Some? then
      Status(s.(tasks := s.tasks[t.id := t]), true)
    else
      Status(s, false)
  }

  /** After an update `findById` returns the new value; an update of an id
      that is not stored leaves it not found. */
  lemma UpdateThenFind(s: Store, t: Task)
    requires Valid(s)
    ensures Update(s, t, Up).ok ==> FindById(Update(s, t, Up).store, t.id, Up) == Some(t)
    ensures t.id !in s.tasks ==> FindById(Update(s, t, Up).store, t.id, Up).None?
  {
  }

  /** `save`: inserts the task under the next identity value and reports
      true; false, with nothing inserted, when the task has no owner or the
      database call fails. */
  function Save(s: Store, t: Task, db: Db): (r: Saved)
    requires Valid(s)
    ensures Valid(r.store)
    ensures r.ok <==> db.Up? && t.user.Some?
    ensures !r.ok ==> r.store == s
    ensures r.ok ==> r.id !in s.tasks && r.store.tasks == s.tasks[r.id := t.(id := r.id)]
    ensures r.ok ==> r.store.nextId > r.id
    ensures r.id == s.nextId
    ensures r.ok ==> r.store.nextId == s.nextId + 1
  {
    if db.Up? && t.user.Some? then
      var id := s.nextId;
      Saved(Store(s.tasks[id := t.(id := id)], id + 1), true, id)
    else
      Saved(s, false, s.nextId)
  }

  /** A saved task is found under its new id; a failed save leaves no row
      under the id it would have received. */
  lemma SaveThenFind(s: Store, t: Task, db: Db)
    requires Valid(s)
    ensures var r := Save(s, t, db);
            (r.ok ==> FindById(r.store, r.id, Up) == Some(t.(id := r.id)))
            && (!r.ok ==> FindById(r.store, s.nextId, Up).None?)
  {
  }

  /** Two successive saves receive different ids. */
  lemma SavesGetDistinctIds(s: Store, t1: Task, t2: Task)
    requires Valid(s)
    requires Save(s, t1, Up).ok
    ensures var first := Save(s, t1, Up);
            var second := Save(first.store, t2, Up);
            second.ok ==> second.id != first.id && first.id in second.store.tasks
  {
  }
}
