/**
 * Stable insertion sort over a caller-supplied "may come before" relation; it
 * stands for SQLite's `ORDER BY`, with rows that compare equal kept in
 * table order.
 */
module Sorting {

  ghost predicate TotalPreorder<T(!new)>(le: (T, T) -> bool)
  {
    && (forall a, b :: le(a, b) || le(b, a))
    && (forall a, b, c :: le(a, b) && le(b, c) ==> le(a, c))
  }

  ghost predicate SortedBy<T>(xs: seq<T>, le: (T, T) -> bool)
  {
    forall i, j :: 0 <= i < j < |xs| ==> le(xs[i], xs[j])
  }

  /** Puts `x` in front of the first element it may precede. */
  function Insert<T>(x: T, xs: seq<T>, le: (T, T) -> bool): (r: seq<T>)
    ensures multiset(r) == multiset(xs) + multiset{x}
    ensures |r| == |xs| + 1
  {
    if |xs| == 0 || le(x, xs[0]) then [x] + xs
    else
      assert xs == [xs[0]] + xs[1..];
      [xs[0]] + Insert(x, xs[1..], le)
  }

  function Sort<T>(xs: seq<T>, le: (T, T) -> bool): (r: seq<T>)
    ensures multiset(r) == multiset(xs)
    ensures |r| == |xs|
  {
    if |xs| == 0 then []
    else
      assert xs == [xs[0]] + xs[1..];
      Insert(xs[0], Sort(xs[1..], le), le)
  }

  lemma {:induction false} InsertSorted<T(!new)>(x: T, xs: seq<T>, le: (T, T) -> bool)
    requires TotalPreorder(le) && SortedBy(xs, le)
    ensures SortedBy(Insert(x, xs, le), le)
  {
    if |xs| > 0 && !le(x, xs[0]) {
      var tail := Insert(x, xs[1..], le);
      InsertSorted(x, xs[1..], le);
      assert forall y :: y in multiset(tail) ==> y == x || y in xs[1..];
      forall j | 0 <= j < |tail|
        ensures le(xs[0], tail[j])
      {
        assert tail[j] in multiset(tail);
        if tail[j] != x {
          var k :| 0 <= k < |xs[1..]| && xs[1..][k] == tail[j];
          assert xs[1..][k] == xs[k + 1];
        }
      }
    }
  }

  /** The result of `Sort` is ordered by `le` and is a permutation of the input. */
  lemma {:induction false} SortSorted<T(!new)>(xs: seq<T>, le: (T, T) -> bool)
    requires TotalPreorder(le)
    ensures SortedBy(Sort(xs, le), le)
  {
    if |xs| > 0 {
      SortSorted(xs[1..], le);
      InsertSorted(xs[0], Sort(xs[1..], le), le);
    }
  }

  /** Sorting what is already in order changes nothing (stability). */
  lemma {:induction false} SortOfSorted<T>(xs: seq<T>, le: (T, T) -> bool)
    requires SortedBy(xs, le)
    ensures Sort(xs, le) == xs
  {
    if |xs| > 0 {
      assert SortedBy(xs[1..], le) by {
        forall i, j | 0 <= i < j < |xs[1..]| ensures le(xs[1..][i], xs[1..][j]) {
          assert xs[1..][i] == xs[i + 1] && xs[1..][j] == xs[j + 1];
        }
      }
      SortOfSorted(xs[1..], le);
      assert xs == [xs[0]] + xs[1..];
    }
  }

  /** `f` applied to every element, in order. */
  function Map<T, U>(f: T -> U, xs: seq<T>): (r: seq<U>)
    ensures |r| == |xs|
  {
    if |xs| == 0 then [] else [f(xs[0])] + Map(f, xs[1..])
  }

  lemma {:induction false} MapAt<T, U>(f: T -> U, xs: seq<T>)
    ensures forall i :: 0 <= i < |xs| ==> Map(f, xs)[i] == f(xs[i])
  {
    if |xs| > 0 {
      MapAt(f, xs[1..]);
    }
  }

  /** Inserting `x` adds `f(x)` to the mapped elements. */
  lemma {:induction false} MapInsert<T, U>(f: T -> U, x: T, xs: seq<T>, le: (T, T) -> bool)
    ensures multiset(Map(f, Insert(x, xs, le))) == multiset(Map(f, xs)) + multiset{f(x)}
  {
    if |xs| > 0 && !le(x, xs[0]) {
      MapInsert(f, x, xs[1..], le);
    }
  }

  /** Sorting, then mapping, gives the mapped elements in some order. */
  lemma {:induction false} MapSort<T, U>(f: T -> U, xs: seq<T>, le: (T, T) -> bool)
    ensures multiset(Map(f, Sort(xs, le))) == multiset(Map(f, xs))
  {
    if |xs| > 0 {
      MapSort(f, xs[1..], le);
      MapInsert(f, xs[0], Sort(xs[1..], le), le);
    }
  }
}
