/**
 * Permutations of 0..n-1 and an enumeration of all of them.
 *
 * The enumeration stands in for the library call that lists every distinct
 * ordering of the dimensions: PermAt(n, i) is the i-th permutation of an
 * order chosen here, and Rank is its inverse, so the list AllPermutations(n)
 * has exactly n! entries, all distinct, and contains every permutation.
 */
module Permutations {
  import opened PermutationIds

  /** p lists each of 0..n-1 exactly once. */
  predicate IsPermutation(p: seq<int>, n: int)
  {
    && |p| == n
    && (forall k :: 0 <= k < |p| ==> 0 <= p[k] < n)
    && (forall k, l :: 0 <= k < l < |p| ==> p[k] != p[l])
  }

  function Factorial(n: nat): (r: nat)
    ensures r >= 1
  {
    if n == 0 then 1 else n * Factorial(n - 1)
  }

  /** p with x inserted so that it sits at position k. */
  function Insert(p: seq<int>, k: int, x: int): seq<int>
    requires 0 <= k <= |p|
  {
    p[..k] + [x] + p[k..]
  }

  /** p with the entry at position k taken out. */
  function Remove(p: seq<int>, k: int): seq<int>
    requires 0 <= k < |p|
  {
    p[..k] + p[k + 1..]
  }

  /** The position of the first occurrence of x in s. */
  function IndexOf(s: seq<int>, x: int): (k: int)
    requires x in s
    ensures 0 <= k < |s| && s[k] == x
  {
    if s[0] == x then 0 else IndexOf(s[1..], x) + 1
  }

  lemma RemoveInsert(p: seq<int>, k: int, x: int)
    requires 0 <= k <= |p|
    ensures Remove(Insert(p, k, x), k) == p
  {
    assert Insert(p, k, x)[..k] == p[..k];
    assert Insert(p, k, x)[k + 1..] == p[k..];
    assert p[..k] + p[k..] == p;
  }

  lemma InsertRemove(p: seq<int>, k: int)
    requires 0 <= k < |p|
    ensures Insert(Remove(p, k), k, p[k]) == p
  {
    var q := Remove(p, k);
    assert q[..k] == p[..k];
    assert q[k..] == p[k + 1..];
    assert p[..k] + [p[k]] + p[k + 1..] == p;
  }

  /** A duplicate-free sequence of numbers below m has at most m entries. */
  lemma {:induction false} DistinctBelowIsShort(s: seq<int>, m: nat)
    requires forall k :: 0 <= k < |s| ==> 0 <= s[k] < m
    requires forall k, l :: 0 <= k < l < |s| ==> s[k] != s[l]
    ensures |s| <= m
    decreases m
  {
    if |s| > 0 {
      assert 0 <= s[0] < m;
      if m - 1 in s {
        var i := IndexOf(s, m - 1);
        var t := Remove(s, i);
        assert forall k :: 0 <= k < |t| ==> t[k] == if k < i then s[k] else s[k + 1];
        DistinctBelowIsShort(t, m - 1);
      } else {
        DistinctBelowIsShort(s, m - 1);
      }
    }
  }

  /** A permutation of 0..n-1 contains every number below n (pigeonhole). */
  lemma PermutationContainsAll(p: seq<int>, n: int)
    requires IsPermutation(p, n)
    ensures forall v :: 0 <= v < n ==> v in p
  {
    forall v | 0 <= v < n
      ensures v in p
    {
      if v !in p {
        var squeezed := seq(|p|, k requires 0 <= k < |p| => if p[k] > v then p[k] - 1 else p[k]);
        DistinctBelowIsShort(squeezed, n - 1);
      }
    }
  }

  lemma InsertLargest(p: seq<int>, k: int, n: nat)
    requires n >= 1 && IsPermutation(p, n - 1) && 0 <= k <= n - 1
    ensures IsPermutation(Insert(p, k, n - 1), n)
  {
    var r := Insert(p, k, n - 1);
    assert forall j :: 0 <= j < |r| ==> r[j] == if j < k then p[j] else if j == k then n - 1 else p[j - 1];
  }

  lemma RemoveLargest(r: seq<int>, k: int)
    requires IsPermutation(r, |r|) && 0 <= k < |r| && r[k] == |r| - 1
    ensures IsPermutation(Remove(r, k), |r| - 1)
  {
    var q := Remove(r, k);
    assert forall j :: 0 <= j < |q| ==> q[j] == if j < k then r[j] else r[j + 1];
  }

  /** The i-th permutation of 0..n-1: the (i / n)-th one of 0..n-2 with n-1 inserted at i % n. */
  function PermAt(n: nat, i: int): (p: seq<int>)
    requires 0 <= i < Factorial(n)
    ensures |p| == n
    decreases n
  {
    if n == 0 then []
    else
      DivBelow(i, n, Factorial(n - 1));
      Insert(PermAt(n - 1, i / n), i % n, n - 1)
  }

  /** The position of permutation r in the enumeration; the inverse of PermAt. */
  function Rank(r: seq<int>): (i: int)
    requires IsPermutation(r, |r|)
    ensures 0 <= i < Factorial(|r|)
    decreases |r|
  {
    if r == [] then 0
    else
      var n := |r|;
      PermutationContainsAll(r, n);
      var k := IndexOf(r, n - 1);
      RemoveLargest(r, k);
      var j := Rank(Remove(r, k));
      HornerBelow(j, n, k, Factorial(n - 1));
      j * n + k
  }

  lemma {:induction false} PermAtIsPermutation(n: nat, i: int)
    requires 0 <= i < Factorial(n)
    ensures IsPermutation(PermAt(n, i), n)
    decreases n
  {
    if n > 0 {
      DivBelow(i, n, Factorial(n - 1));
      PermAtIsPermutation(n - 1, i / n);
      InsertLargest(PermAt(n - 1, i / n), i % n, n);
    }
  }

  /** Rank in terms of the position k of the largest entry n-1. */
  lemma RankUnfold(r: seq<int>, k: int)
    requires IsPermutation(r, |r|) && 0 <= k < |r| && r[k] == |r| - 1
    ensures IsPermutation(Remove(r, k), |r| - 1)
    ensures Rank(r) == Rank(Remove(r, k)) * |r| + k
  {
    PermutationContainsAll(r, |r|);
    assert IndexOf(r, |r| - 1) == k;
    RemoveLargest(r, k);
  }

  /** PermAt in terms of its quotient and remainder by n. */
  lemma PermAtUnfold(n: nat, i: int)
    requires n >= 1 && 0 <= i < Factorial(n)
    ensures 0 <= i / n < Factorial(n - 1) && 0 <= i % n < n
    ensures PermAt(n, i) == Insert(PermAt(n - 1, i / n), i % n, n - 1)
  {
    DivBelow(i, n, Factorial(n - 1));
  }

  /** PermAt at a position written as j * n + k. */
  lemma PermAtOfHorner(n: nat, j: int, k: int)
    requires n >= 1 && 0 <= j < Factorial(n - 1) && 0 <= k < n
    ensures 0 <= j * n + k < Factorial(n)
    ensures PermAt(n, j * n + k) == Insert(PermAt(n - 1, j), k, n - 1)
  {
    HornerBelow(j, n, k, Factorial(n - 1));
    DivModOfHorner(j, n, k);
    PermAtUnfold(n, j * n + k);
  }

  /** Rank of a permutation of 0..n-2 with n-1 inserted at position m. */
  lemma RankOfInsert(q: seq<int>, m: int)
    requires IsPermutation(q, |q|) && 0 <= m <= |q|
    ensures IsPermutation(Insert(q, m, |q|), |q| + 1)
    ensures Rank(Insert(q, m, |q|)) == Rank(q) * (|q| + 1) + m
  {
    var r := Insert(q, m, |q|);
    InsertLargest(q, m, |q| + 1);
    assert r[m] == |q|;
    RankUnfold(r, m);
    RemoveInsert(q, m, |q|);
  }

  /** Rank undoes PermAt. */
  lemma {:induction false} RankOfPermAt(n: nat, i: int)
    requires 0 <= i < Factorial(n)
    ensures IsPermutation(PermAt(n, i), n) && Rank(PermAt(n, i)) == i
    decreases n
  {
    if n > 0 {
      PermAtUnfold(n, i);
      var q, m := PermAt(n - 1, i / n), i % n;
      RankOfPermAt(n - 1, i / n);
      RankOfInsert(q, m);
      HornerOfDivMod(i, n, Rank(q), m);
    }
  }

  /** PermAt undoes Rank: every permutation occurs in the enumeration. */
  lemma {:induction false} PermAtOfRank(r: seq<int>)
    requires IsPermutation(r, |r|)
    ensures PermAt(|r|, Rank(r)) == r
    decreases |r|
  {
    if r != [] {
      var n := |r|;
      PermutationContainsAll(r, n);
      var k := IndexOf(r, n - 1);
      RankUnfold(r, k);
      var q := Remove(r, k);
      PermAtOfHorner(n, Rank(q), k);
      PermAtOfRank(q);
      InsertRemove(r, k);
    }
  }

  /** Every permutation of 0..n-1, each once, in enumeration order. */
  function AllPermutations(n: nat): seq<seq<int>>
  {
    seq(Factorial(n), i requires 0 <= i < Factorial(n) => PermAt(n, i))
  }

  /** perms lists exactly the n! distinct permutations of 0..n-1. */
  ghost predicate IsEnumeration(perms: seq<seq<int>>, n: nat)
  {
    && |perms| == Factorial(n)
    && (forall r :: 0 <= r < |perms| ==> IsPermutation(perms[r], n))
    && (forall r, s :: 0 <= r < s < |perms| ==> perms[r] != perms[s])
    && (forall p :: IsPermutation(p, n) ==> p in perms)
  }

  lemma AllPermutationsEnumerates(n: nat)
    ensures IsEnumeration(AllPermutations(n), n)
  {
    var perms := AllPermutations(n);
    forall r | 0 <= r < |perms|
      ensures IsPermutation(perms[r], n)
    {
      PermAtIsPermutation(n, r);
    }
    forall r, s | 0 <= r < s < |perms|
      ensures perms[r] != perms[s]
    {
      RankOfPermAt(n, r);
      RankOfPermAt(n, s);
    }
    forall p | IsPermutation(p, n)
      ensures p in perms
    {
      PermAtOfRank(p);
      assert perms[Rank(p)] == p;
    }
  }
}
