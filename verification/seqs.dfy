/** Mapping and filtering sequences, permutations and order-preserving subsequences. */
module Seqs {

  function Map<A, B>(s: seq<A>, f: A -> B): (r: seq<B>)
    ensures |r| == |s|
  {
    if s == [] then [] else [f(s[0])] + Map(s[1..], f)
  }

  lemma MapConcat<A, B>(a: seq<A>, b: seq<A>, f: A -> B)
    ensures Map(a + b, f) == Map(a, f) + Map(b, f)
  {
    if a != [] {
      assert (a + b)[1..] == a[1..] + b;
      MapConcat(a[1..], b, f);
      calc {
        Map(a + b, f);
        [f(a[0])] + Map(a[1..] + b, f);
        [f(a[0])] + (Map(a[1..], f) + Map(b, f));
        ([f(a[0])] + Map(a[1..], f)) + Map(b, f);
      }
    } else {
      assert a + b == b;
    }
  }

  lemma MapAt<A, B>(s: seq<A>, f: A -> B, i: nat)
    requires i < |s|
    ensures Map(s, f)[i] == f(s[i])
  {
    if i > 0 {
      MapAt(s[1..], f, i - 1);
    }
  }

  lemma MapRemoveAt<A, B>(s: seq<A>, k: nat, f: A -> B)
    requires k < |s|
    ensures multiset(Map(s, f)) == multiset(Map(s[..k] + s[k + 1..], f)) + multiset{f(s[k])}
  {
    var lo, hi := s[..k], s[k + 1..];
    assert s == lo + ([s[k]] + hi);
    assert Map([s[k]], f) == [f(s[k])];
    MapConcat(lo, [s[k]] + hi, f);
    MapConcat([s[k]], hi, f);
    MapConcat(lo, hi, f);
    assert Map(s, f) == Map(lo, f) + ([f(s[k])] + Map(hi, f));
    assert multiset(Map(s, f)) == multiset(Map(lo, f)) + multiset{f(s[k])} + multiset(Map(hi, f));
  }

  lemma RemoveAt<A>(s: seq<A>, k: nat)
    requires k < |s|
    ensures multiset(s) == multiset(s[..k] + s[k + 1..]) + multiset{s[k]}
  {
    assert s == s[..k] + [s[k]] + s[k + 1..];
  }

  /** The first element of `a` occurs in any permutation `b`, and removing it from both leaves permutations. */
  lemma PickFirst<A>(a: seq<A>, b: seq<A>) returns (k: nat)
    requires a != [] && multiset(a) == multiset(b)
    ensures k < |b| && b[k] == a[0]
    ensures multiset(a[1..]) == multiset(b[..k] + b[k + 1..])
  {
    var x := a[0];
    assert x in b by {
      assert x in multiset(a);
    }
    k :| 0 <= k < |b| && b[k] == x;
    RemoveAt(a, 0);
    RemoveAt(b, k);
    assert a[..0] + a[1..] == a[1..];
    assert multiset(a[1..]) == multiset(a) - multiset{x};
    assert multiset(b[..k] + b[k + 1..]) == multiset(b) - multiset{x};
  }

  lemma MapPut<A, B>(a: seq<A>, b: seq<A>, k: nat, f: A -> B)
    requires a != [] && k < |b| && b[k] == a[0]
    requires multiset(Map(a[1..], f)) == multiset(Map(b[..k] + b[k + 1..], f))
    ensures multiset(Map(a, f)) == multiset(Map(b, f))
  {
    MapRemoveAt(a, 0, f);
    assert a[..0] + a[1..] == a[1..];
    MapRemoveAt(b, k, f);
  }

  /** Permuted inputs give permuted outputs. */
  lemma {:induction false} MapPermutation<A, B>(a: seq<A>, b: seq<A>, f: A -> B)
    requires multiset(a) == multiset(b)
    ensures multiset(Map(a, f)) == multiset(Map(b, f))
    decreases |a|
  {
    if a != [] {
      var k := PickFirst(a, b);
      MapPermutation(a[1..], b[..k] + b[k + 1..], f);
      MapPut(a, b, k, f);
    }
  }

  /** The elements of `s` that satisfy `p`, in order. */
  function Filter<A>(s: seq<A>, p: A -> bool): (r: seq<A>)
    ensures |r| <= |s|
    ensures forall i :: 0 <= i < |r| ==> r[i] in s && p(r[i])
    ensures forall i :: 0 <= i < |s| && p(s[i]) ==> s[i] in r
    ensures multiset(r) <= multiset(s)
  {
    if s == [] then []
    else
      assert s == [s[0]] + s[1..];
      var rest := Filter(s[1..], p);
      if p(s[0]) then [s[0]] + rest else rest
  }

  /** Filtering keeps the order: the result is a subsequence of the input. */
  lemma {:induction false} FilterSubsequence<A>(s: seq<A>, p: A -> bool)
    ensures Subsequence(Filter(s, p), s)
  {
    if s != [] {
      var rest := Filter(s[1..], p);
      FilterSubsequence(s[1..], p);
      if p(s[0]) {
        SubsequenceCons(s[0], rest, s[1..]);
        assert [s[0]] + s[1..] == s;
      } else {
        assert rest != [] ==> p(rest[0]);
        SubsequenceSkip(s[0], rest, s[1..]);
        assert [s[0]] + s[1..] == s;
      }
    }
  }

  /** The same first element can be put in front of both sequences. */
  lemma SubsequenceCons<A>(x: A, a: seq<A>, b: seq<A>)
    requires Subsequence(a, b)
    ensures Subsequence([x] + a, [x] + b)
  {
    assert ([x] + a)[1..] == a && ([x] + b)[1..] == b;
  }

  /** An element that does not start `a` can be put in front of `b`. */
  lemma SubsequenceSkip<A>(x: A, a: seq<A>, b: seq<A>)
    requires Subsequence(a, b) && (a != [] ==> a[0] != x)
    ensures Subsequence(a, [x] + b)
  {
    assert ([x] + b)[1..] == b;
  }

  /** `s.findIndex(p)`: the position of the first element satisfying `p`, or -1 when none does. */
  function FirstIndex<A>(s: seq<A>, p: A -> bool): (i: int)
    ensures -1 <= i < |s|
    ensures i >= 0 ==> p(s[i])
    ensures forall j :: 0 <= j < |s| && (i < 0 || j < i) ==> !p(s[j])
  {
    if s == [] then -1
    else if p(s[0]) then 0
    else
      var k := FirstIndex(s[1..], p);
      if k < 0 then -1 else k + 1
  }

  /** `a` is `b` with some elements left out, the rest kept in their order (matched greedily from the left). */
  predicate Subsequence<A(==)>(a: seq<A>, b: seq<A>)
    decreases |b|
  {
    if a == [] then true
    else if b == [] then false
    else if a[0] == b[0] then Subsequence(a[1..], b[1..])
    else Subsequence(a, b[1..])
  }

  lemma {:induction false} SubsequenceRefl<A>(xs: seq<A>)
    ensures Subsequence(xs, xs)
    decreases |xs|
  {
    if xs != [] {
      SubsequenceRefl(xs[1..]);
    }
  }

  /** A prefix of a subsequence is a subsequence. */
  lemma {:induction false} SubsequencePrefix<A>(a: seq<A>, c: seq<A>, b: seq<A>)
    requires Subsequence(a, b) && c <= a
    ensures Subsequence(c, b)
    decreases |b|
  {
    if c != [] {
      if a[0] == b[0] {
        assert c[1..] <= a[1..];
        SubsequencePrefix(a[1..], c[1..], b[1..]);
      } else {
        SubsequencePrefix(a, c, b[1..]);
      }
    }
  }

  /** A subsequence holds only elements of the sequence and is no longer. */
  lemma {:induction false} SubsequenceMembers<A>(a: seq<A>, b: seq<A>)
    requires Subsequence(a, b)
    ensures |a| <= |b|
    ensures forall x :: x in a ==> x in b
    decreases |b|
  {
    if a != [] {
      if a[0] == b[0] {
        SubsequenceMembers(a[1..], b[1..]);
        assert a == [a[0]] + a[1..];
      } else {
        SubsequenceMembers(a, b[1..]);
      }
    }
  }
}
