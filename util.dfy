/**
 * Small generic pieces shared by the task store and its views: an optional
 * value (a missing `dueDate`, a failed lookup, an absent storage key) and the
 * order-preserving filter that every view of the store is built from
 * (`Array.prototype.filter`).
 */
module Util {

  datatype Option<T> = None | Some(value: T)

  /** The elements of `s` that satisfy `p`, in their original order. */
  function Filter<T(!new)>(s: seq<T>, p: T -> bool): (r: seq<T>)
    ensures |r| <= |s|
    ensures forall x :: x in r <==> x in s && p(x)
    decreases |s|
  {
    if s == [] then []
    else
      var init := s[..|s| - 1];
      var last := s[|s| - 1];
      assert s == init + [last];
      if p(last) then Filter(init, p) + [last] else Filter(init, p)
  }

  /** Filtering distributes over concatenation: the filter keeps store order. */
  lemma {:induction false} FilterAppend<T(!new)>(s: seq<T>, u: seq<T>, p: T -> bool)
    ensures Filter(s + u, p) == Filter(s, p) + Filter(u, p)
    decreases |u|
  {
    if u == [] {
      assert s + u == s;
    } else {
      var init, last := u[..|u| - 1], u[|u| - 1];
      FilterAppend(s, init, p);
      var su := s + u;
      assert su[..|su| - 1] == s + init && su[|su| - 1] == last;
      assert Filter(su, p) == Filter(s + init, p) + (if p(last) then [last] else []);
      assert Filter(u, p) == Filter(init, p) + (if p(last) then [last] else []);
    }
  }

  /** A filter that rejects nothing returns its input unchanged. */
  lemma {:induction false} FilterKeepsAll<T(!new)>(s: seq<T>, p: T -> bool)
    requires forall x :: x in s ==> p(x)
    ensures Filter(s, p) == s
    decreases |s|
  {
    if s != [] {
      var init := s[..|s| - 1];
      assert forall x :: x in init ==> x in s;
      FilterKeepsAll(init, p);
    }
  }

  /**
   * Filtering by a predicate and by its negation splits the input: together
   * the two results hold every element exactly as often as the input does.
   */
  lemma {:induction false} FilterPartition<T(!new)>(s: seq<T>, p: T -> bool, q: T -> bool)
    requires forall x :: q(x) == !p(x)
    ensures multiset(Filter(s, p)) + multiset(Filter(s, q)) == multiset(s)
    ensures |Filter(s, p)| + |Filter(s, q)| == |s|
    decreases |s|
  {
    if s != [] {
      var init, last := s[..|s| - 1], s[|s| - 1];
      FilterPartition(init, p, q);
      assert s == init + [last];
      if p(last) {
        assert Filter(s, p) == Filter(init, p) + [last] && Filter(s, q) == Filter(init, q);
      } else {
        assert Filter(s, p) == Filter(init, p) && Filter(s, q) == Filter(init, q) + [last];
      }
    }
  }
}
