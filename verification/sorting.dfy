/**
 * Stable sorting by an integer key. Array.prototype.sort is stable, so for a
 * comparator `(a, b) => key(a) - key(b)` its result is the unique stable
 * ordering, which is what `SortBy` computes. Descending sorts use the negated key.
 */
module Sorting {

  ghost predicate SortedBy<T>(xs: seq<T>, key: T -> int) {
    forall i, j :: 0 <= i < j < |xs| ==> key(xs[i]) <= key(xs[j])
  }

  /** Places `x` before the first element whose key is not smaller than its own. */
  function Insert<T>(x: T, xs: seq<T>, key: T -> int): (r: seq<T>)
    requires SortedBy(xs, key)
    ensures SortedBy(r, key)
    ensures multiset(r) == multiset(xs) + multiset{x}
    ensures |r| == |xs| + 1
    ensures r[0] == x || (|xs| > 0 && r[0] == xs[0])
  {
    if xs == [] || key(x) <= key(xs[0]) then [x] + xs
    else
      var rest := Insert(x, xs[1..], key);
      assert xs == [xs[0]] + xs[1..];
      [xs[0]] + rest
  }

  function SortBy<T>(xs: seq<T>, key: T -> int): (r: seq<T>)
    ensures SortedBy(r, key)
    ensures multiset(r) == multiset(xs)
    ensures |r| == |xs|
  {
    if xs == [] then []
    else
      assert xs == [xs[0]] + xs[1..];
      Insert(xs[0], SortBy(xs[1..], key), key)
  }

  /** Index of the first element of `xs` whose key is smallest. */
  function FirstMin<T>(xs: seq<T>, key: T -> int): (i: nat)
    requires |xs| > 0
    ensures i < |xs|
    ensures forall j :: 0 <= j < |xs| ==> key(xs[i]) <= key(xs[j])
    ensures forall j :: 0 <= j < i ==> key(xs[i]) < key(xs[j])
  {
    if |xs| == 1 then 0
    else
      var k := FirstMin(xs[1..], key);
      if key(xs[0]) <= key(xs[1..][k]) then 0 else k + 1
  }

  /** Stability at the head: the first element of the sorted list is the earliest of the smallest. */
  lemma {:induction false} SortHeadIsFirstMin<T>(xs: seq<T>, key: T -> int)
    requires |xs| > 0
    ensures SortBy(xs, key)[0] == xs[FirstMin(xs, key)]
  {
    if |xs| > 1 {
      SortHeadIsFirstMin(xs[1..], key);
    }
  }
}
