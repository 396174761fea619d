/**
 * The upcoming page: the future tasks grouped by due day.  A `forEach` loop
 * files each task under its day in a dictionary (creating the day's list on
 * first sight), and the days are then listed in `Object.keys(..).sort()`
 * order, which for ISO day strings is calendar order.
 */
module Upcoming {
  import opened Util
  import opened Dates
  import opened Tasks
  import opened Views

  predicate Distinct(s: seq<Date>) {
    forall i, j :: 0 <= i < j < |s| ==> s[i] != s[j]
  }

  /** No day comes before an earlier position: ascending, ties allowed. */
  predicate SortedDays(s: seq<Date>) {
    forall i, j :: 0 <= i < j < |s| ==> !DayBefore(s[j], s[i])
  }

  /** One step of the sort: `x` placed into an already sorted list. */
  function InsertDay(x: Date, s: seq<Date>): (r: seq<Date>)
    requires SortedDays(s)
    ensures SortedDays(r)
    ensures multiset(r) == multiset(s) + multiset{x}
  {
    if s == [] then [x]
    else if DayBefore(s[0], x) then
      var rest := InsertDay(x, s[1..]);
      assert s == [s[0]] + s[1..];
      InsertedAfterFirst(x, s, rest);
      PrependSorted(s[0], rest);
      [s[0]] + rest
    else
      PrependSorted(x, s);
      [x] + s
  }

  /** What is inserted after the first day of a sorted list comes no earlier than that day. */
  lemma InsertedAfterFirst(x: Date, s: seq<Date>, rest: seq<Date>)
    requires SortedDays(s) && s != [] && DayBefore(s[0], x)
    requires multiset(rest) == multiset(s[1..]) + multiset{x}
    ensures forall k :: 0 <= k < |rest| ==> !DayBefore(rest[k], s[0])
  {
    forall k | 0 <= k < |rest|
      ensures !DayBefore(rest[k], s[0])
    {
      assert rest[k] in multiset(rest);
      if rest[k] != x {
        assert rest[k] in multiset(s[1..]);
        var j :| 0 <= j < |s[1..]| && s[1..][j] == rest[k];
        assert s[j + 1] == rest[k];
      }
    }
  }

  lemma PrependSorted(a: Date, s: seq<Date>)
    requires SortedDays(s)
    requires forall k :: 0 <= k < |s| ==> !DayBefore(s[k], a)
    ensures SortedDays([a] + s)
  {
    var r := [a] + s;
    forall i, j | 0 <= i < j < |r|
      ensures !DayBefore(r[j], r[i])
    {
      assert r[j] == s[j - 1];
      if i > 0 {
        assert r[i] == s[i - 1];
      }
    }
  }

  /** `Array.prototype.sort` on the day keys: the same days, in calendar order. */
  function SortDays(s: seq<Date>): (r: seq<Date>)
    ensures SortedDays(r)
    ensures multiset(r) == multiset(s)
    decreases |s|
  {
    if s == [] then []
    else
      var init := s[..|s| - 1];
      assert s == init + [s[|s| - 1]];
      InsertDay(s[|s| - 1], SortDays(init))
  }

  lemma {:induction false} DistinctCount(s: seq<Date>, x: Date)
    requires Distinct(s)
    ensures multiset(s)[x] <= 1
    decreases |s|
  {
    if s != [] {
      var init, last := s[..|s| - 1], s[|s| - 1];
      assert s == init + [last];
      DistinctCount(init, x);
      if x == last {
        assert x !in init;
      }
    }
  }

  lemma RepeatCount(r: seq<Date>, i: int, j: int)
    requires 0 <= i < j < |r| && r[i] == r[j]
    ensures multiset(r)[r[i]] >= 2
  {
    assert r == r[..j] + [r[j]] + r[j + 1..];
    assert r[i] in r[..j];
  }

  /** Sorting distinct days gives a strictly ascending list. */
  lemma SortDistinct(s: seq<Date>)
    requires Distinct(s)
    ensures forall i, j :: 0 <= i < j < |SortDays(s)| ==> DayBefore(SortDays(s)[i], SortDays(s)[j])
  {
    var r := SortDays(s);
    forall i, j | 0 <= i < j < |r|
      ensures DayBefore(r[i], r[j])
    {
      if r[i] == r[j] {
        RepeatCount(r, i, j);
        DistinctCount(s, r[i]);
      }
    }
  }

  lemma TasksOnDayStep(s: seq<Task>, t: Task, d: Date)
    ensures TasksOnDay(s + [t], d) == TasksOnDay(s, d) + (if t.dueDate == Some(d) then [t] else [])
  {
    var u := s + [t];
    assert u[..|u| - 1] == s;
  }

  /**
   * The dictionary after a pass over `s`: one key per due day of `s`, in
   * order of first appearance, and under each day the tasks of `s` due that
   * day, in order.
   */
  ghost predicate Grouped(s: seq<Task>, keys: seq<Date>, groups: map<Date, seq<Task>>) {
    && Distinct(keys)
    && (forall d :: d in keys <==> d in groups)
    && (forall d :: d in groups <==> TasksOnDay(s, d) != [])
    && (forall d :: d in groups ==> groups[d] == TasksOnDay(s, d))
  }

  /** Filing one more task under its day keeps the dictionary in step with the tasks seen. */
  lemma GroupStep(s: seq<Task>, keys: seq<Date>, groups: map<Date, seq<Task>>, t: Task, day: Date)
    requires Grouped(s, keys, groups) && t.dueDate == Some(day)
    ensures var keys' := if day in groups then keys else keys + [day];
            var old' := if day in groups then groups[day] else [];
            Grouped(s + [t], keys', groups[day := old' + [t]])
  {
    forall d
      ensures TasksOnDay(s + [t], d) == TasksOnDay(s, d) + (if t.dueDate == Some(d) then [t] else [])
    {
      TasksOnDayStep(s, t, d);
    }
  }

  /**
   * The grouping loop over tasks that all have a due date: one key per day,
   * in order of first appearance, and under each day the tasks due that
   * day in the order of the input.
   */
  method GroupByDay(future: seq<Task>) returns (keys: seq<Date>, groups: map<Date, seq<Task>>)
    requires forall t :: t in future ==> t.dueDate.Some?
    ensures Distinct(keys)
    ensures forall d :: d in keys <==> d in groups
    ensures forall d :: d in groups <==> TasksOnDay(future, d) != []
    ensures forall d :: d in groups ==> groups[d] == TasksOnDay(future, d)
  {
    keys, groups := [], map[];
    var i := 0;
    while i < |future|
      invariant 0 <= i <= |future|
      invariant Grouped(future[..i], keys, groups)
    {
      var t := future[i];
      assert future[..i + 1] == future[..i] + [t];
      assert t in future;
      var day := t.dueDate.value;
      GroupStep(future[..i], keys, groups, t, day);
      if day !in groups {
        keys := keys + [day];
        groups := groups[day := []];
      }
      groups := groups[day := groups[day] + [t]];
      i := i + 1;
    }
    assert future[..i] == future;
  }

  /**
   * The upcoming page: the days that have future tasks, strictly ascending,
   * and for each day its future tasks in store order.  Every future task is
   * listed under its own due day and under no other.
   */
  method UpcomingByDay(ts: seq<Task>, today: Date) returns (days: seq<Date>, groups: map<Date, seq<Task>>)
    ensures forall i, j :: 0 <= i < j < |days| ==> DayBefore(days[i], days[j])
    ensures forall d :: d in days <==> d in groups
    ensures forall d :: d in groups ==> groups[d] != [] && groups[d] == TasksOnDay(Future(ts, today), d)
    ensures forall t :: t in Future(ts, today) ==>
              t.dueDate.Some? && t.dueDate.value in groups && t in groups[t.dueDate.value]
    ensures forall d, t :: d in groups && t in groups[d] ==> t in Future(ts, today) && t.dueDate == Some(d)
  {
    var future := Future(ts, today);
    var keys;
    keys, groups := GroupByDay(future);
    days := SortDays(keys);
    SortDistinct(keys);
    forall d ensures d in days <==> d in keys {
      assert d in days <==> d in multiset(days);
    }
    forall t | t in future
      ensures t.dueDate.Some? && t.dueDate.value in groups && t in groups[t.dueDate.value]
    {
      assert t in TasksOnDay(future, t.dueDate.value);
    }
  }
}
