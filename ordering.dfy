/** Sorting rows by an SQL `ORDER BY` key. SQL leaves the relative order of
    rows with equal keys unspecified, so the contracts promise exactly what
    `ORDER BY` does: the result is ordered by the key and is a permutation
    of the input. */
module Ordering {

  /** `le(a, b)`: row `a` may come before row `b`. */
  ghost predicate TotalPreorder<T(!new)>(le: (T, T) -> bool)
  {
    && (forall a, b :: le(a, b) || le(b, a))
    && (forall a, b, c :: le(a, b) && le(b, c) ==> le(a, c))
  }

  ghost predicate SortedBy<T>(s: seq<T>, le: (T, T) -> bool)
  {
    forall i, j :: 0 <= i < j < |s| ==> le(s[i], s[j])
  }

  /** Putting a lower bound in front of a sorted sequence keeps it sorted. */
  lemma PrependSorted<T>(y: T, s: seq<T>, le: (T, T) -> bool)
    requires SortedBy(s, le)
    requires forall k :: 0 <= k < |s| ==> le(y, s[k])
    ensures SortedBy([y] + s, le)
  {
    forall i, j | 0 <= i < j < |[y] + s| ensures le(([y] + s)[i], ([y] + s)[j]) {
      if i > 0 { assert ([y] + s)[i] == s[i - 1]; }
      assert ([y] + s)[j] == s[j - 1];
    }
  }

  /** A bound of `x` and of every element of `s` bounds every element of a
      sequence holding the same multiset as `s` plus `x`. */
  lemma BoundOfMultiset<T>(y: T, x: T, s: seq<T>, r: seq<T>, le: (T, T) -> bool)
    requires multiset(r) == multiset(s) + multiset{x}
    requires le(y, x) && forall k :: 0 <= k < |s| ==> le(y, s[k])
    ensures forall k :: 0 <= k < |r| ==> le(y, r[k])
  {
    forall k | 0 <= k < |r| ensures le(y, r[k]) {
      assert r[k] in multiset(r);
      if r[k] != x {
        assert r[k] in multiset(s);
        var i :| 0 <= i < |s| && s[i] == r[k];
      }
    }
  }

  function Insert<T(!new)>(x: T, s: seq<T>, le: (T, T) -> bool): (r: seq<T>)
    requires TotalPreorder(le) && SortedBy(s, le)
    ensures SortedBy(r, le)
    ensures multiset(r) == multiset(s) + multiset{x}
    ensures |r| == |s| + 1
  {
    if s == [] then [x]
    else if le(x, s[0]) then
      PrependSorted(x, s, le);
      [x] + s
    else
      var rest := s[1..];
      var tail := Insert(x, rest, le);
      assert s == [s[0]] + rest;
      BoundOfMultiset(s[0], x, rest, tail, le);
      PrependSorted(s[0], tail, le);
      [s[0]] + tail
  }

  function Sort<T(!new)>(s: seq<T>, le: (T, T) -> bool): (r: seq<T>)
    requires TotalPreorder(le)
    ensures SortedBy(r, le)
    ensures multiset(r) == multiset(s)
    ensures |r| == |s|
  {
    if s == [] then []
    else
      assert s == [s[0]] + s[1..];
      Insert(s[0], Sort(s[1..], le), le)
  }
}
