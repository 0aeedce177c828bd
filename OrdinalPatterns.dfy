/**
 * Ordinal patterns: the order of the d values observed at one time step,
 * written as the sequence of dimension indices sorted by value, with ties
 * kept in ascending dimension order.
 */
module OrdinalPatterns {
  import opened Permutations

  /**
   * One row of the d-by-2 table built per time step: the observed value and,
   * stored as a floating-point number like the value, its dimension index.
   */
  datatype ValueAndIndex = ValueAndIndex(value: real, varNum: real)

  /**
   * Dimension x comes before dimension y in the ordinal pattern of row:
   * a smaller value, or an equal value and a smaller index.
   */
  predicate KeyLess(row: seq<real>, x: int, y: int)
  {
    && 0 <= x < |row| && 0 <= y < |row|
    && (row[x] < row[y] || (row[x] == row[y] && x < y))
  }

  /** p is the ordinal pattern of row: a permutation of its indices in ascending key order. */
  predicate IsOrdinalPattern(p: seq<int>, row: seq<real>)
  {
    && IsPermutation(p, |row|)
    && forall k, l :: 0 <= k < l < |p| ==> KeyLess(row, p[k], p[l])
  }

  /** Two patterns of the same row are equal from position k on when they agree before k. */
  lemma {:induction false} PatternsAgreeFrom(p: seq<int>, q: seq<int>, row: seq<real>, k: nat)
    requires IsOrdinalPattern(p, row) && IsOrdinalPattern(q, row)
    requires k <= |p| && p[..k] == q[..k]
    ensures p == q
    decreases |p| - k
  {
    if k < |p| {
      PermutationContainsAll(p, |row|);
      PermutationContainsAll(q, |row|);
      var m := IndexOf(q, p[k]);
      var m' := IndexOf(p, q[k]);
      assert forall j :: 0 <= j < k ==> q[j] == p[j] && p[j] != p[k] && q[j] != q[k];
      assert k <= m && k <= m';
      assert p[k] == q[k];
      assert p[..k + 1] == q[..k + 1] by {
        assert p[..k + 1] == p[..k] + [p[k]];
        assert q[..k + 1] == q[..k] + [q[k]];
      }
      PatternsAgreeFrom(p, q, row, k + 1);
    } else {
      assert p == p[..k];
      assert q == q[..k];
    }
  }

  /** A row has at most one ordinal pattern. */
  lemma OrdinalPatternUnique(p: seq<int>, q: seq<int>, row: seq<real>)
    requires IsOrdinalPattern(p, row) && IsOrdinalPattern(q, row)
    ensures p == q
  {
    PatternsAgreeFrom(p, q, row, 0);
  }

  /** Entry x from position ox of the input belongs before entry y from position oy. */
  predicate InOrder(x: ValueAndIndex, ox: int, y: ValueAndIndex, oy: int)
  {
    x.value < y.value || (x.value == y.value && ox < oy)
  }

  /** s exchanged at positions i and j. */
  function Swap<T>(s: seq<T>, i: int, j: int): seq<T>
    requires 0 <= i < |s| && 0 <= j < |s|
  {
    s[i := s[j]][j := s[i]]
  }

  /** Entry k of s is entry o[k] of the input a0, and o is a permutation. */
  ghost predicate Tracks(s: seq<ValueAndIndex>, o: seq<int>, a0: seq<ValueAndIndex>)
  {
    && |s| == |a0|
    && IsPermutation(o, |s|)
    && forall k :: 0 <= k < |s| ==> s[k] == a0[o[k]]
  }

  /** The first i entries are in order and came from the first i input positions; the rest are untouched. */
  ghost predicate PrefixSorted(s: seq<ValueAndIndex>, o: seq<int>, i: int)
  {
    && 0 <= i <= |s| == |o|
    && (forall k :: i <= k < |s| ==> o[k] == k)
    && (forall k :: 0 <= k < i ==> o[k] < i)
    && (forall k, l :: 0 <= k < l < i ==> InOrder(s[k], o[k], s[l], o[l]))
  }

  /** Input entry i sits at j on its way left; the others of the first i + 1 are in order. */
  ghost predicate Inserting(s: seq<ValueAndIndex>, o: seq<int>, i: int, j: int)
  {
    && 0 <= j <= i < |s| == |o|
    && (forall k :: i < k < |s| ==> o[k] == k)
    && o[j] == i
    && (forall k :: 0 <= k <= i && k != j ==> o[k] < i)
    && (forall k, l :: 0 <= k < l <= i && k != j && l != j ==> InOrder(s[k], o[k], s[l], o[l]))
    && (forall l :: j < l <= i ==> s[j].value < s[l].value)
  }

  lemma StartInserting(s: seq<ValueAndIndex>, o: seq<int>, i: int)
    requires PrefixSorted(s, o, i) && i < |s|
    ensures Inserting(s, o, i, i)
  {
  }

  lemma SwapTracks(s: seq<ValueAndIndex>, o: seq<int>, a0: seq<ValueAndIndex>, i: int, j: int)
    requires Tracks(s, o, a0) && 0 < j < |s|
    ensures Tracks(Swap(s, j - 1, j), Swap(o, j - 1, j), a0)
  {
    var o' := Swap(o, j - 1, j);
    assert forall k :: 0 <= k < |o| ==> o'[k] == if k == j - 1 then o[j] else if k == j then o[j - 1] else o[k];
  }

  lemma SwapInserting(s: seq<ValueAndIndex>, o: seq<int>, i: int, j: int)
    requires Inserting(s, o, i, j)
    requires j > 0 && s[j - 1].value > s[j].value
    ensures Inserting(Swap(s, j - 1, j), Swap(o, j - 1, j), i, j - 1)
  {
    var s', o' := Swap(s, j - 1, j), Swap(o, j - 1, j);
    assert forall k :: 0 <= k < |o| ==> o'[k] == if k == j - 1 then o[j] else if k == j then o[j - 1] else o[k];
    assert forall k :: 0 <= k < |s| ==> s'[k] == if k == j - 1 then s[j] else if k == j then s[j - 1] else s[k];
  }

  lemma StopInserting(s: seq<ValueAndIndex>, o: seq<int>, i: int, j: int)
    requires Inserting(s, o, i, j)
    requires j == 0 || s[j - 1].value <= s[j].value
    ensures PrefixSorted(s, o, i + 1)
  {
    if j > 0 {
      assert forall k :: 0 <= k < j - 1 ==> InOrder(s[k], o[k], s[j - 1], o[j - 1]);
    }
  }

  lemma SortedByValueAndStable(s: seq<ValueAndIndex>, o: seq<int>)
    requires PrefixSorted(s, o, |s|)
    ensures forall k, l :: 0 <= k < l < |s| ==> s[k].value <= s[l].value
    ensures forall k, l :: 0 <= k < l < |s| && s[k].value == s[l].value ==> o[k] < o[l]
  {
  }

  /**
   * One outer step of an insertion sort: the first i entries are in order,
   * and entry i is moved left past every entry with a larger value.
   */
  method InsertIntoSorted(a: array<ValueAndIndex>, i: int, ghost a0: seq<ValueAndIndex>, ghost origin: seq<int>)
    returns (ghost origin': seq<int>)
    requires i < a.Length
    requires Tracks(a[..], origin, a0) && PrefixSorted(a[..], origin, i)
    modifies a
    ensures Tracks(a[..], origin', a0) && PrefixSorted(a[..], origin', i + 1)
  {
    origin' := origin;
    StartInserting(a[..], origin', i);
    var j := i;
    while j > 0 && a[j - 1].value > a[j].value
      invariant Tracks(a[..], origin', a0) && Inserting(a[..], origin', i, j)
    {
      SwapTracks(a[..], origin', a0, i, j);
      SwapInserting(a[..], origin', i, j);
      ghost var s := a[..];
      a[j - 1], a[j] := a[j], a[j - 1];
      assert a[..] == Swap(s, j - 1, j);
      origin' := Swap(origin', j - 1, j);
      j := j - 1;
    }
    StopInserting(a[..], origin', i, j);
  }

  /**
   * Sorts a in place by value, keeping equal values in their original
   * relative order (a stable sort). The ghost origin says where each entry
   * came from.
   */
  method StableSortByValue(a: array<ValueAndIndex>) returns (ghost origin: seq<int>)
    modifies a
    ensures IsPermutation(origin, a.Length)
    ensures forall k :: 0 <= k < a.Length ==> a[k] == old(a[..])[origin[k]]
    ensures forall k, l :: 0 <= k < l < a.Length ==> a[k].value <= a[l].value
    ensures forall k, l :: 0 <= k < l < a.Length && a[k].value == a[l].value ==> origin[k] < origin[l]
  {
    ghost var a0 := a[..];
    origin := seq(a.Length, k => k);
    var i := 0;
    while i < a.Length
      invariant 0 <= i <= a.Length
      invariant Tracks(a[..], origin, a0) && PrefixSorted(a[..], origin, i)
    {
      origin := InsertIntoSorted(a, i, a0, origin);
      i := i + 1;
    }
    SortedByValueAndStable(a[..], origin);
  }
}
