/**
 * The ordering step shared by the back end and the front end: the database's
 * `sort({ date: -1 })` and the chart's `Array.prototype.sort` with a
 * descending comparator. Both are modelled by one stable insertion sort
 * parameterised by a "comes no later than" relation.
 */
module Sorting {

  /** `geq` compares any two elements and its comparisons chain. */
  ghost predicate TotalPreorder<T(!new)>(geq: (T, T) -> bool) {
    && (forall a, b :: geq(a, b) || geq(b, a))
    && (forall a, b, c :: geq(a, b) && geq(b, c) ==> geq(a, c))
  }

  /** Every element may come before every later one. */
  predicate SortedBy<T>(s: seq<T>, geq: (T, T) -> bool) {
    forall i, j :: 0 <= i < j < |s| ==> geq(s[i], s[j])
  }

  /** No element occurs twice. */
  predicate Distinct<T(==)>(s: seq<T>) {
    forall i, j :: 0 <= i < j < |s| ==> s[i] != s[j]
  }

  /** Puts `x` in front of the first element it may precede. */
  function Insert<T>(x: T, s: seq<T>, geq: (T, T) -> bool): (r: seq<T>)
    ensures multiset(r) == multiset(s) + multiset{x}
    ensures |r| == |s| + 1
  {
    if s == [] || geq(x, s[0]) then [x] + s
    else
      assert s == [s[0]] + s[1..];
      [s[0]] + Insert(x, s[1..], geq)
  }

  /** Insertion sort: a permutation of `s`, ordered by `geq` (see SortSorted). */
  function Sort<T>(s: seq<T>, geq: (T, T) -> bool): (r: seq<T>)
    ensures multiset(r) == multiset(s)
    ensures |r| == |s|
  {
    if s == [] then []
    else
      assert s == [s[0]] + s[1..];
      Insert(s[0], Sort(s[1..], geq), geq)
  }

  lemma {:induction false} InsertSorted<T(!new)>(x: T, s: seq<T>, geq: (T, T) -> bool)
    requires TotalPreorder(geq)
    requires SortedBy(s, geq)
    ensures SortedBy(Insert(x, s, geq), geq)
  {
    if s == [] || geq(x, s[0]) {
    } else {
      var tail := Insert(x, s[1..], geq);
      InsertSorted(x, s[1..], geq);
      forall j | 0 <= j < |tail|
        ensures geq(s[0], tail[j])
      {
        assert tail[j] in multiset(tail);
        if tail[j] != x {
          assert tail[j] in multiset(s[1..]);
          var k :| 0 <= k < |s[1..]| && s[1..][k] == tail[j];
          assert s[k + 1] == tail[j];
        }
      }
    }
  }

  lemma {:induction false} SortSorted<T(!new)>(s: seq<T>, geq: (T, T) -> bool)
    requires TotalPreorder(geq)
    ensures SortedBy(Sort(s, geq), geq)
  {
    if s != [] {
      SortSorted(s[1..], geq);
      InsertSorted(s[0], Sort(s[1..], geq), geq);
    }
  }

  lemma {:induction false} InsertDistinct<T>(x: T, s: seq<T>, geq: (T, T) -> bool)
    requires Distinct(s) && x !in s
    ensures Distinct(Insert(x, s, geq))
  {
    if s == [] || geq(x, s[0]) {
    } else {
      var tail := Insert(x, s[1..], geq);
      InsertDistinct(x, s[1..], geq);
      forall j | 0 <= j < |tail|
        ensures s[0] != tail[j]
      {
        assert tail[j] in multiset(tail);
        if tail[j] != x {
          assert tail[j] in multiset(s[1..]);
          var k :| 0 <= k < |s[1..]| && s[1..][k] == tail[j];
          assert s[k + 1] == tail[j];
        }
      }
    }
  }

  /** Sorting never creates a duplicate. */
  lemma {:induction false} SortDistinct<T>(s: seq<T>, geq: (T, T) -> bool)
    requires Distinct(s)
    ensures Distinct(Sort(s, geq))
  {
    if s != [] {
      SortDistinct(s[1..], geq);
      var sorted := Sort(s[1..], geq);
      assert s[0] !in s[1..];
      assert s[0] !in multiset(sorted);
      InsertDistinct(s[0], sorted, geq);
    }
  }
}
