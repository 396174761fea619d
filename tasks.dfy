/**
 * The task record and the five ways the store's ordered task list changes
 * (create, update, delete, toggle completion, reorder on drop), each stated
 * as a function from the old list to the new one, with the invariants the
 * changes keep.
 */
module Tasks {
  import opened Util
  import opened Dates

  /** Milliseconds since the epoch, as `new Date().toISOString()` records them. */
  type Timestamp = int

  /**
   * A task as stored under the `tasks` key.  An empty due-date field is
   * `None`; `completedAt` is present exactly while the task is completed
   * (see `CompletionConsistent`).
   */
  datatype Task = Task(
    id: int,
    title: string,
    description: string,
    dueDate: Option<Date>,
    tags: seq<string>,
    completed: bool,
    completedAt: Option<Timestamp>)

  /** The four values the task form submits. */
  datatype Fields = Fields(title: string, description: string, dueDate: Option<Date>, tags: seq<string>)

  /** The ids of the tasks, in store order. */
  function Ids(ts: seq<Task>): (ids: seq<int>)
    ensures |ids| == |ts|
    ensures forall i :: 0 <= i < |ts| ==> ids[i] == ts[i].id
  {
    seq(|ts|, i requires 0 <= i < |ts| => ts[i].id)
  }

  lemma IdsAppend(a: seq<Task>, b: seq<Task>)
    ensures Ids(a + b) == Ids(a) + Ids(b)
  {
  }

  /** Exactly one task per id. */
  ghost predicate UniqueIds(ts: seq<Task>) {
    forall i, j :: 0 <= i < j < |ts| ==> ts[i].id != ts[j].id
  }

  predicate Consistent(t: Task) {
    t.completedAt.Some? <==> t.completed
  }

  /** `completedAt` is present exactly on the completed tasks. */
  ghost predicate CompletionConsistent(ts: seq<Task>) {
    forall i :: 0 <= i < |ts| ==> Consistent(ts[i])
  }

  /** `findIndex(t => t.id === id)`: the first position holding `id`, or -1. */
  function IndexOf(ts: seq<Task>, id: int): (i: int)
    ensures -1 <= i < |ts|
    ensures i == -1 <==> id !in Ids(ts)
    ensures i >= 0 ==> ts[i].id == id && forall j :: 0 <= j < i ==> ts[j].id != id
  {
    if ts == [] then -1
    else if ts[0].id == id then 0
    else
      var k := IndexOf(ts[1..], id);
      IdsTail(ts, id);
      if k == -1 then -1 else k + 1
  }

  lemma IdsTail(ts: seq<Task>, id: int)
    requires ts != [] && ts[0].id != id
    ensures id in Ids(ts) <==> id in Ids(ts[1..])
  {
    var ids, rest := Ids(ts), Ids(ts[1..]);
    if id in ids {
      var j :| 0 <= j < |ids| && ids[j] == id;
      assert rest[j - 1] == id;
    }
    if id in rest {
      var j :| 0 <= j < |rest| && rest[j] == id;
      assert ids[j + 1] == id;
    }
  }

  /** `find(t => t.id === id)`: the first task holding `id`, if any. */
  function Lookup(ts: seq<Task>, id: int): (r: Option<Task>)
    ensures r.None? <==> id !in Ids(ts)
    ensures r.Some? ==> r.value in ts && r.value.id == id
    ensures r.Some? ==> r.value == ts[IndexOf(ts, id)]
  {
    var i := IndexOf(ts, id);
    if i < 0 then None else Some(ts[i])
  }

  /** With one task per id, the lookup finds the task that holds the id. */
  lemma LookupUnique(ts: seq<Task>, t: Task)
    requires UniqueIds(ts) && t in ts
    ensures Lookup(ts, t.id) == Some(t)
  {
    var k :| 0 <= k < |ts| && ts[k] == t;
    assert Ids(ts)[k] == t.id;
    var i := IndexOf(ts, t.id);
    assert i == k;
  }

  // ---------------------------------------------------------------- create

  /** A task as the form creates it: not completed and without a completion time. */
  function NewTask(id: int, f: Fields): (t: Task)
    ensures t.id == id && !t.completed && t.completedAt.None?
    ensures t.title == f.title && t.description == f.description
    ensures t.dueDate == f.dueDate && t.tags == f.tags
  {
    Task(id, f.title, f.description, f.dueDate, f.tags, false, None)
  }

  /** Appending a new task with an id not yet in the store keeps both invariants. */
  lemma {:induction false} CreatePreservesInvariants(ts: seq<Task>, id: int, f: Fields)
    requires id !in Ids(ts)
    requires UniqueIds(ts) && CompletionConsistent(ts)
    ensures UniqueIds(ts + [NewTask(id, f)]) && CompletionConsistent(ts + [NewTask(id, f)])
  {
    var r := ts + [NewTask(id, f)];
    forall i, j | 0 <= i < j < |r|
      ensures r[i].id != r[j].id
    {
      if j == |ts| {
        assert Ids(ts)[i] == ts[i].id;
      }
    }
  }

  // ---------------------------------------------------------------- update

  /** The form's four fields written over a task; id and completion state stay. */
  function WithFields(t: Task, f: Fields): Task {
    t.(title := f.title, description := f.description, dueDate := f.dueDate, tags := f.tags)
  }

  /**
   * The submit handler's edit branch: the first task with the id gets the
   * form's four fields; its id, completion state and position, and every
   * other task, stay as they were.  An unknown id changes nothing.
   */
  function Updated(ts: seq<Task>, id: int, f: Fields): (r: seq<Task>)
    ensures |r| == |ts| && Ids(r) == Ids(ts)
    ensures id !in Ids(ts) ==> r == ts
    ensures forall j :: 0 <= j < |ts| && j != IndexOf(ts, id) ==> r[j] == ts[j]
    ensures id in Ids(ts) ==>
              var i := IndexOf(ts, id);
              && r[i].id == id
              && r[i].title == f.title && r[i].description == f.description
              && r[i].dueDate == f.dueDate && r[i].tags == f.tags
              && r[i].completed == ts[i].completed && r[i].completedAt == ts[i].completedAt
  {
    var i := IndexOf(ts, id);
    if i < 0 then ts else ts[i := WithFields(ts[i], f)]
  }

  lemma {:induction false} UpdatePreservesInvariants(ts: seq<Task>, id: int, f: Fields)
    requires UniqueIds(ts) && CompletionConsistent(ts)
    ensures UniqueIds(Updated(ts, id, f)) && CompletionConsistent(Updated(ts, id, f))
  {
    var r := Updated(ts, id, f);
    forall i, j | 0 <= i < j < |r|
      ensures r[i].id != r[j].id
    {
      assert Ids(r)[i] == Ids(ts)[i] && Ids(r)[j] == Ids(ts)[j];
    }
  }

  // ---------------------------------------------------------------- delete

  /** The delete filter's test, `task => task.id !== id`. */
  function HoldsOtherId(id: int): Task -> bool {
    (t: Task) => t.id != id
  }

  /** `tasks.filter(task => task.id !== id)`. */
  function Deleted(ts: seq<Task>, id: int): (r: seq<Task>)
    ensures forall t :: t in r <==> t in ts && t.id != id
    ensures id !in Ids(r)
  {
    var r := Filter(ts, HoldsOtherId(id));
    assert forall i :: 0 <= i < |r| ==> r[i] in r;
    r
  }

  /**
   * Delete keeps the remaining tasks in store order and as often as they
   * occur: it works element by element, so the list of a concatenation is
   * the concatenation of the lists.
   */
  lemma DeleteKeepsOrder(a: seq<Task>, b: seq<Task>, id: int, t: Task)
    ensures Deleted(a + b, id) == Deleted(a, id) + Deleted(b, id)
    ensures Deleted([t], id) == if t.id != id then [t] else []
  {
    FilterAppend(a, b, HoldsOtherId(id));
    assert [t][..0] == [];
  }

  /** Deleting an id that no task holds leaves the list exactly as it was. */
  lemma DeleteAbsent(ts: seq<Task>, id: int)
    requires id !in Ids(ts)
    ensures Deleted(ts, id) == ts
  {
    forall t | t in ts
      ensures t.id != id
    {
      var k :| 0 <= k < |ts| && ts[k] == t;
      assert Ids(ts)[k] == t.id;
    }
    FilterKeepsAll(ts, HoldsOtherId(id));
  }

  /** Deleting twice is deleting once. */
  lemma DeleteIdempotent(ts: seq<Task>, id: int)
    ensures Deleted(Deleted(ts, id), id) == Deleted(ts, id)
  {
    DeleteAbsent(Deleted(ts, id), id);
  }

  /** Filtering keeps one task per id: it only drops tasks. */
  lemma {:induction false} FilterKeepsUniqueIds(ts: seq<Task>, p: Task -> bool)
    requires UniqueIds(ts)
    ensures UniqueIds(Filter(ts, p))
    decreases |ts|
  {
    if ts != [] {
      var init, last := ts[..|ts| - 1], ts[|ts| - 1];
      FilterKeepsUniqueIds(init, p);
      var r := Filter(init, p);
      if p(last) {
        forall i | 0 <= i < |r|
          ensures r[i].id != last.id
        {
          assert r[i] in r;
          var k :| 0 <= k < |init| && init[k] == r[i];
        }
      }
    }
  }

  lemma {:induction false} DeletePreservesInvariants(ts: seq<Task>, id: int)
    requires UniqueIds(ts) && CompletionConsistent(ts)
    ensures UniqueIds(Deleted(ts, id)) && CompletionConsistent(Deleted(ts, id))
  {
    FilterKeepsUniqueIds(ts, HoldsOtherId(id));
    var r := Deleted(ts, id);
    forall i | 0 <= i < |r|
      ensures Consistent(r[i])
    {
      assert r[i] in r;
    }
  }

  // ---------------------------------------------------------------- toggle

  /** The checkbox handler's change to one task: checking records `now`, unchecking clears the time. */
  function Checked(t: Task, checked: bool, now: Timestamp): Task {
    if checked then t.(completed := true, completedAt := Some(now))
    else t.(completed := false, completedAt := None)
  }

  /**
   * The checkbox handler: the first task with the id is marked completed at
   * `now` (checked) or not completed with no completion time (unchecked).
   * Every other task, and the list for an unknown id, stay as they were.
   */
  function Toggled(ts: seq<Task>, id: int, checked: bool, now: Timestamp): (r: seq<Task>)
    ensures |r| == |ts| && Ids(r) == Ids(ts)
    ensures id !in Ids(ts) ==> r == ts
    ensures forall j :: 0 <= j < |ts| && j != IndexOf(ts, id) ==> r[j] == ts[j]
    ensures id in Ids(ts) ==>
              var i := IndexOf(ts, id);
              && r[i].completed == checked
              && r[i].completedAt == (if checked then Some(now) else None)
              && r[i] == ts[i].(completed := r[i].completed, completedAt := r[i].completedAt)
  {
    var i := IndexOf(ts, id);
    if i < 0 then ts else ts[i := Checked(ts[i], checked, now)]
  }

  lemma {:induction false} TogglePreservesInvariants(ts: seq<Task>, id: int, checked: bool, now: Timestamp)
    requires UniqueIds(ts) && CompletionConsistent(ts)
    ensures UniqueIds(Toggled(ts, id, checked, now)) && CompletionConsistent(Toggled(ts, id, checked, now))
  {
    var r := Toggled(ts, id, checked, now);
    forall i, j | 0 <= i < j < |r|
      ensures r[i].id != r[j].id
    {
      assert Ids(r)[i] == Ids(ts)[i] && Ids(r)[j] == Ids(ts)[j];
    }
  }

  /** Checking an open task and unchecking it again restores the list exactly. */
  lemma {:induction false} CheckThenUncheck(ts: seq<Task>, id: int, now: Timestamp)
    requires CompletionConsistent(ts)
    requires id in Ids(ts) && !ts[IndexOf(ts, id)].completed
    ensures Toggled(Toggled(ts, id, true, now), id, false, now) == ts
  {
    var once := Toggled(ts, id, true, now);
    var i := IndexOf(ts, id);
    assert Consistent(ts[i]);
    assert IndexOf(once, id) == i by {
      assert Ids(once) == Ids(ts);
      assert once[i].id == id;
      forall j | 0 <= j < i ensures once[j].id != id {
        assert once[j] == ts[j];
      }
    }
  }

  // ---------------------------------------------------------------- reorder

  /** The task that the store holds for one dropped list entry, if any. */
  function Found(ts: seq<Task>, id: int): seq<Task> {
    match Lookup(ts, id)
    case Some(t) => [t]
    case None => []
  }

  /**
   * The drop handler: the new list is the store's task for each id of the
   * dropped list, in the list's order; ids the store does not hold are
   * skipped, and tasks whose ids are not in the list are gone.
   */
  function Reordered(ts: seq<Task>, ids: seq<int>): (r: seq<Task>)
    ensures |r| <= |ids|
    ensures forall t :: t in r ==> t in ts && t.id in ids
    decreases |ids|
  {
    if ids == [] then []
    else Reordered(ts, ids[..|ids| - 1]) + Found(ts, ids[|ids| - 1])
  }

  /** An id appears in the new order exactly when it was dropped and the store holds it. */
  lemma {:induction false} ReorderedIds(ts: seq<Task>, ids: seq<int>, id: int)
    ensures id in Ids(Reordered(ts, ids)) <==> id in ids && id in Ids(ts)
    decreases |ids|
  {
    if ids != [] {
      var init, last := ids[..|ids| - 1], ids[|ids| - 1];
      ReorderedIds(ts, init, id);
      var prev, found := Reordered(ts, init), Found(ts, last);
      assert Reordered(ts, ids) == prev + found;
      IdsAppend(prev, found);
      FoundIds(ts, last);
      assert id in Ids(prev + found) <==> id in Ids(prev) || id in Ids(found);
      assert ids == init + [last];
      assert id in ids <==> id in init || id == last;
    }
  }

  lemma FoundIds(ts: seq<Task>, id: int)
    ensures Ids(Found(ts, id)) == if id in Ids(ts) then [id] else []
  {
  }

  /**
   * With one task per id in the store, dropping the ids of any list of store
   * tasks yields exactly that list: the store becomes whatever the dropped
   * list showed.
   */
  lemma {:induction false} ReorderOfShownTasks(ts: seq<Task>, shown: seq<Task>)
    requires UniqueIds(ts)
    requires forall t :: t in shown ==> t in ts
    ensures Reordered(ts, Ids(shown)) == shown
    decreases |shown|
  {
    if shown != [] {
      var init, last := shown[..|shown| - 1], shown[|shown| - 1];
      assert shown == init + [last];
      assert forall t :: t in init ==> t in shown;
      ReorderOfShownTasks(ts, init);
      IdsAppend(init, [last]);
      ReorderedAppendOne(ts, Ids(init), last.id);
      LookupUnique(ts, last);
    }
  }

  lemma ReorderedAppendOne(ts: seq<Task>, ids: seq<int>, id: int)
    ensures Reordered(ts, ids + [id]) == Reordered(ts, ids) + Found(ts, id)
  {
    var s := ids + [id];
    assert s[..|s| - 1] == ids;
  }

  /** Dropping the store's own order, unchanged, leaves the store as it was. */
  lemma ReorderIdentity(ts: seq<Task>)
    requires UniqueIds(ts)
    ensures Reordered(ts, Ids(ts)) == ts
  {
    ReorderOfShownTasks(ts, ts);
  }

  /** Dropping distinct ids keeps one task per id and keeps completion times consistent. */
  lemma ReorderPreservesInvariants(ts: seq<Task>, ids: seq<int>)
    requires CompletionConsistent(ts)
    requires forall i, j :: 0 <= i < j < |ids| ==> ids[i] != ids[j]
    ensures UniqueIds(Reordered(ts, ids)) && CompletionConsistent(Reordered(ts, ids))
  {
    ReorderKeepsUniqueIds(ts, ids);
    var r := Reordered(ts, ids);
    forall i | 0 <= i < |r|
      ensures Consistent(r[i])
    {
      assert r[i] in r;
      var k :| 0 <= k < |ts| && ts[k] == r[i];
    }
  }

  lemma {:induction false} ReorderKeepsUniqueIds(ts: seq<Task>, ids: seq<int>)
    requires forall i, j :: 0 <= i < j < |ids| ==> ids[i] != ids[j]
    ensures UniqueIds(Reordered(ts, ids))
    decreases |ids|
  {
    if ids != [] {
      var init, last := ids[..|ids| - 1], ids[|ids| - 1];
      ReorderKeepsUniqueIds(ts, init);
      var prev, found := Reordered(ts, init), Found(ts, last);
      var r := prev + found;
      assert Reordered(ts, ids) == r;
      forall i, j | 0 <= i < j < |r|
        ensures r[i].id != r[j].id
      {
        if j >= |prev| {
          assert r[j] == found[0] && r[i] == prev[i];
          assert prev[i] in prev;
          assert prev[i].id in init;
        }
      }
    }
  }
}
