/**
 * The read-only views of the store: the main page's active list, the
 * completed page, the tag page, the per-day lists of the calendars, the
 * "future tasks" of the upcoming page with their grouping by day, and the
 * sidebar counters.  Every view is a filter of the store and keeps its order.
 */
module Views {
  import opened Util
  import opened Dates
  import opened Tasks

  predicate IsActive(t: Task) {
    !t.completed
  }

  predicate IsCompleted(t: Task) {
    t.completed
  }

  /** The main page's list, `tasks.filter(task => !task.completed)`. */
  function Active(ts: seq<Task>): (r: seq<Task>)
    ensures forall t :: t in r <==> t in ts && !t.completed
  {
    Filter(ts, IsActive)
  }

  /** The completed page's list, `tasks.filter(task => task.completed)`. */
  function Completed(ts: seq<Task>): (r: seq<Task>)
    ensures forall t :: t in r <==> t in ts && t.completed
  {
    Filter(ts, IsCompleted)
  }

  /** Every task is in exactly one of the two lists, as often as in the store. */
  lemma ActiveCompletedPartition(ts: seq<Task>)
    ensures multiset(Active(ts)) + multiset(Completed(ts)) == multiset(ts)
    ensures |Active(ts)| + |Completed(ts)| == |ts|
  {
    FilterPartition(ts, IsActive, IsCompleted);
  }

  /** Both lists keep store order: the list of a longer store extends the list of its prefix. */
  lemma ViewsKeepStoreOrder(ts: seq<Task>, more: seq<Task>)
    ensures Active(ts + more) == Active(ts) + Active(more)
    ensures Completed(ts + more) == Completed(ts) + Completed(more)
  {
    FilterAppend(ts, more, IsActive);
    FilterAppend(ts, more, IsCompleted);
  }

  // ---------------------------------------------------------------- tags

  /** The tag page's test: an open task whose tags hold `tag` exactly. */
  function HasOpenTag(tag: string): Task -> bool {
    (t: Task) => tag in t.tags && !t.completed
  }

  /**
   * The tag page.  The selected tag is read from storage; a missing or empty
   * value shows "No tag selected" (`None`), any other value lists the open
   * tasks carrying that tag, in store order.
   */
  function TagView(ts: seq<Task>, selected: Option<string>): (r: Option<seq<Task>>)
    ensures r.None? <==> selected.None? || selected.value == []
    ensures r.Some? ==> forall t :: t in r.value <==> t in ts && !t.completed && selected.value in t.tags
  {
    match selected
    case None => None
    case Some(tag) => if tag == [] then None else Some(Filter(ts, HasOpenTag(tag)))
  }

  /** The tag page lists a subset of the main page's list, in the same order. */
  lemma {:induction false} TagViewWithinActive(ts: seq<Task>, tag: string)
    requires tag != []
    ensures TagView(ts, Some(tag)) == Some(Filter(Active(ts), HasOpenTag(tag)))
    decreases |ts|
  {
    if ts != [] {
      var init, last := ts[..|ts| - 1], ts[|ts| - 1];
      TagViewWithinActive(init, tag);
      assert ts == init + [last];
      FilterAppend(Active(init), if IsActive(last) then [last] else [], HasOpenTag(tag));
    }
  }

  // ---------------------------------------------------------------- days

  /** The per-day test: a due date on day `d`; a task without a due date never matches. */
  function DueOn(d: Date): Task -> bool {
    (t: Task) => t.dueDate == Some(d)
  }

  /**
   * The tasks due on day `d`, completed ones included, in store order: the
   * calendar page's `getTasksForDate` and the task page calendar's day filter.
   */
  function TasksOnDay(ts: seq<Task>, d: Date): (r: seq<Task>)
    ensures forall t :: t in r <==> t in ts && t.dueDate == Some(d)
  {
    Filter(ts, DueOn(d))
  }

  /**
   * The day list keeps store order and multiplicity: it is built task by
   * task, so the list of a concatenation is the concatenation of the lists.
   * The grid's "first three tasks of the day" are therefore the first three
   * in the store.
   */
  lemma TasksOnDayKeepsStoreOrder(a: seq<Task>, b: seq<Task>, d: Date, t: Task)
    ensures TasksOnDay(a + b, d) == TasksOnDay(a, d) + TasksOnDay(b, d)
    ensures TasksOnDay([t], d) == if t.dueDate == Some(d) then [t] else []
  {
    FilterAppend(a, b, DueOn(d));
    assert [t][..0] == [];
  }

  // ---------------------------------------------------------------- future

  /**
   * The upcoming page's test: an open task with a due date no earlier than
   * tomorrow, `taskDate >= tomorrow` on days.
   */
  function DueFromTomorrow(today: Date): (p: Task -> bool)
    ensures forall t :: p(t) <==> t.dueDate.Some? && !t.completed && Ordinal(t.dueDate.value) > Ordinal(today)
  {
    (t: Task) => t.dueDate.Some? && !t.completed
                 && Ordinal(t.dueDate.value) >= DayNumber(today.year, today.month, today.day + 1)
  }

  /** `getFutureTasks`: the open tasks due tomorrow or later, in store order. */
  function Future(ts: seq<Task>, today: Date): (r: seq<Task>)
    ensures forall t :: t in r <==> t in ts && DueFromTomorrow(today)(t)
  {
    Filter(ts, DueFromTomorrow(today))
  }

  /**
   * The future tasks are the open tasks due strictly after today: a valid due
   * date is in the list exactly when it comes later than today in calendar
   * order.  So a task due today is left out, one due tomorrow is listed.
   */
  lemma FutureIsAfterToday(ts: seq<Task>, today: Date, t: Task)
    requires IsValid(today)
    requires t.dueDate.Some? && IsValid(t.dueDate.value)
    ensures t in Future(ts, today) <==> t in ts && !t.completed && DayBefore(today, t.dueDate.value)
  {
    DayBeforeIsChronological(today, t.dueDate.value);
  }

  lemma FutureBoundary(ts: seq<Task>, today: Date, t: Task)
    requires IsValid(today) && t in ts && !t.completed
    ensures t.dueDate == Some(today) ==> t !in Future(ts, today)
    ensures t.dueDate == Some(NextDay(today)) ==> t in Future(ts, today)
  {
  }

  // ---------------------------------------------------------------- counters

  /**
   * The sidebar counters: completed and remaining tasks, which together
   * count the whole store.
   */
  function Counts(ts: seq<Task>): (r: (nat, nat))
    ensures r.0 + r.1 == |ts|
    ensures r.0 == 0 <==> forall t :: t in ts ==> !t.completed
    ensures r.1 == 0 <==> forall t :: t in ts ==> t.completed
  {
    ActiveCompletedPartition(ts);
    EmptyFilter(Completed(ts));
    EmptyFilter(Active(ts));
    (|Completed(ts)|, |Active(ts)|)
  }

  lemma EmptyFilter(r: seq<Task>)
    ensures |r| == 0 <==> forall t :: t in r ==> false
  {
    if |r| > 0 {
      assert r[0] in r;
    }
  }

  /** The progress bar's width as a fraction `completed / total` in percent. */
  datatype Fraction = Fraction(numerator: nat, denominator: nat)

  /**
   * The progress value: 0 for an empty store, otherwise the completed share
   * of all tasks (100 percent exactly when every task is completed).
   */
  function Progress(ts: seq<Task>): (r: Fraction)
    ensures r.denominator > 0 && r.numerator <= 100 * r.denominator
    ensures ts == [] ==> r.numerator == 0
    ensures ts != [] ==> r.denominator == |ts| && r.numerator == 100 * Counts(ts).0
    ensures ts != [] ==> (r.numerator == 100 * r.denominator <==> forall t :: t in ts ==> t.completed)
  {
    var (done, open) := Counts(ts);
    var total := done + open;
    if total > 0 then Fraction(100 * done, total) else Fraction(0, 1)
  }
}
