/**
 * Positional base-d encoding of a digit sequence, most significant digit
 * first. A permutation of 0..d-1 is read this way as its permutation id,
 * which lies in [0, d^d).
 */
module PermutationIds {

  /** b raised to the power n (the table size is Pow(d, d)). */
  function Pow(b: int, n: nat): int
  {
    if n == 0 then 1 else b * Pow(b, n - 1)
  }

  lemma {:induction false} PowPositive(b: int, n: nat)
    requires b >= 1
    ensures Pow(b, n) >= 1
  {
    if n > 0 {
      PowPositive(b, n - 1);
    }
  }

  /** Every digit of s lies in [0, b). */
  predicate DigitsInRange(s: seq<int>, b: int)
  {
    forall k :: 0 <= k < |s| ==> 0 <= s[k] < b
  }

  /**
   * The value of s read as a base-b numeral, most significant digit first:
   * the accumulator `id = id * b + digit` run from left to right.
   */
  function BaseValue(s: seq<int>, b: int): int
  {
    if s == [] then 0 else BaseValue(s[..|s| - 1], b) * b + s[|s| - 1]
  }

  /** The n base-b digits of v, most significant first: the decoder of BaseValue. */
  function Digits(v: int, b: int, n: nat): (r: seq<int>)
    requires b >= 1
    ensures |r| == n
    decreases n
  {
    if n == 0 then [] else Digits(v / b, b, n - 1) + [v % b]
  }

  lemma DivModOfHorner(q: int, b: int, r: int)
    requires b >= 1 && 0 <= r < b
    ensures (q * b + r) / b == q && (q * b + r) % b == r
  {
    var x := q * b + r;
    var e := x / b - q;
    assert e * b == r - x % b;
    assert e == 0;
  }

  lemma DivModIdentity(v: int, b: int)
    requires b >= 1
    ensures (v / b) * b + v % b == v && 0 <= v % b < b
  {
  }

  lemma HornerOfDivMod(v: int, b: int, q: int, r: int)
    requires b >= 1 && q == v / b && r == v % b
    ensures q * b + r == v
  {
    DivModIdentity(v, b);
  }

  /** One Horner step with a digit below b stays below b * p when the prefix is below p. */
  lemma HornerBelow(q: int, b: int, r: int, p: int)
    requires 0 <= q < p && 0 <= r < b
    ensures 0 <= q * b + r < b * p
  {
    assert q * b <= (p - 1) * b;
  }

  /** Appending a digit is one Horner step. */
  lemma BaseValueSnoc(s: seq<int>, x: int, b: int)
    ensures BaseValue(s + [x], b) == BaseValue(s, b) * b + x
  {
    assert (s + [x])[..|s|] == s;
  }

  /** A numeral whose digits are in range denotes a value in [0, b^|s|). */
  lemma {:induction false} BaseValueBounds(s: seq<int>, b: int)
    requires b >= 1 && DigitsInRange(s, b)
    ensures 0 <= BaseValue(s, b) < Pow(b, |s|)
  {
    if s != [] {
      var init := s[..|s| - 1];
      BaseValueBounds(init, b);
      HornerBelow(BaseValue(init, b), b, s[|s| - 1], Pow(b, |s| - 1));
    }
  }

  /** Decoding the value of a numeral gives back its digits. */
  lemma {:induction false} DigitsOfBaseValue(s: seq<int>, b: int)
    requires b >= 1 && DigitsInRange(s, b)
    ensures Digits(BaseValue(s, b), b, |s|) == s
  {
    if s != [] {
      var init := s[..|s| - 1];
      DigitsOfBaseValue(init, b);
      DivModOfHorner(BaseValue(init, b), b, s[|s| - 1]);
      assert s == init + [s[|s| - 1]];
    }
  }

  lemma DivBelow(v: int, b: int, p: int)
    requires b >= 1 && 0 <= v < b * p
    ensures 0 <= v / b < p
  {
    var q := v / b;
    assert q * b <= v;
  }

  /** Encoding the digits of a value in [0, b^n) gives back the value. */
  lemma {:induction false} BaseValueOfDigits(v: int, b: int, n: nat)
    requires b >= 1 && 0 <= v < Pow(b, n)
    ensures DigitsInRange(Digits(v, b, n), b)
    ensures BaseValue(Digits(v, b, n), b) == v
    decreases n
  {
    if n > 0 {
      var q, r := v / b, v % b;
      DivModIdentity(v, b);
      DivBelow(v, b, Pow(b, n - 1));
      BaseValueOfDigits(q, b, n - 1);
      BaseValueSnoc(Digits(q, b, n - 1), r, b);
    }
  }

  /** The encoding is injective on numerals of equal length with digits in range. */
  lemma BaseValueInjective(s: seq<int>, t: seq<int>, b: int)
    requires b >= 1 && |s| == |t|
    requires DigitsInRange(s, b) && DigitsInRange(t, b)
    requires BaseValue(s, b) == BaseValue(t, b)
    ensures s == t
  {
    DigitsOfBaseValue(s, b);
    DigitsOfBaseValue(t, b);
  }
}
