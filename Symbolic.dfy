/**
 * The symbolic mutual-information calculator between a d-dimensional
 * continuous series and a discrete series. Each time step of the continuous
 * series is replaced by the index of its ordinal pattern among the d!
 * permutations of the dimensions, and the resulting symbol series is handed,
 * with the discrete series, to a discrete mutual-information estimator.
 */
module Symbolic {
  import opened PermutationIds
  import opened Permutations
  import opened OrdinalPatterns
  import opened DiscreteMutualInformation

  /** The name of the property that switches normalisation on or off. */
  const PropNormalise: string := "NORMALISE"

  /**
   * The largest number of dimensions whose id table, of d^d entries, can be
   * indexed by a 32-bit signed integer (9^9 = 387420489, 10^10 does not fit).
   */
  const MaxDimensions: int := 9

  datatype Error =
    | RowTooShort(row: int)
    | ObservationLengthMismatch
    | LocalNotImplemented

  datatype Outcome = Pass | Fail(error: Error)

  datatype Result<T> = Success(value: T) | Failure(error: Error)

  /** The larger of a and b. */
  function Max(a: int, b: int): (m: int)
    ensures m >= a && m >= b
    ensures m == a || m == b
  {
    if a >= b then a else b
  }

  /** The conversion of a floating-point number to an integer: truncation toward zero. */
  function TruncateToInt(x: real): (n: int)
    ensures 0.0 <= x ==> n as real <= x < n as real + 1.0
    ensures x < 0.0 ==> n as real - 1.0 < x <= n as real
  {
    if x >= 0.0 then x.Floor else -((-x).Floor)
  }

  /** Every entry of s, converted to an integer. */
  function Truncated(s: seq<real>): (r: seq<int>)
    ensures |r| == |s|
    ensures forall k :: 0 <= k < |s| ==> r[k] == TruncateToInt(s[k])
  {
    seq(|s|, k requires 0 <= k < |s| => TruncateToInt(s[k]))
  }

  /** Whole numbers held as floating-point values convert back to themselves. */
  lemma TruncatedOfWhole(s: seq<real>, o: seq<int>)
    requires |s| == |o| && forall k :: 0 <= k < |s| ==> s[k] == o[k] as real
    ensures Truncated(s) == o
  {
    forall k | 0 <= k < |s|
      ensures TruncateToInt(s[k]) == o[k]
    {
      var n := TruncateToInt(s[k]);
      if o[k] >= 0 {
        assert n as real <= o[k] as real < n as real + 1.0;
      } else {
        assert n as real - 1.0 < o[k] as real <= n as real;
      }
    }
  }

  /** c, folded to lower case when it is an ASCII capital letter. */
  function LowerAscii(c: char): (l: char)
    ensures 'A' <= c <= 'Z' ==> l as int == c as int + 32
    ensures !('A' <= c <= 'Z') ==> l == c
  {
    if 'A' <= c <= 'Z' then (c as int + 32) as char else c
  }

  /** s and t are equal up to the case of ASCII letters. */
  predicate EqualsIgnoreCase(s: string, t: string)
  {
    |s| == |t| && forall k :: 0 <= k < |s| ==> LowerAscii(s[k]) == LowerAscii(t[k])
  }

  /** The boolean a string denotes: true exactly for "true" in any letter case. */
  predicate ParseBoolean(s: string)
  {
    EqualsIgnoreCase(s, "true")
  }

  /** A string parses as true exactly when it spells t, r, u, e, each letter in either case. */
  lemma ParseBooleanIff(s: string)
    ensures ParseBoolean(s) <==>
              && |s| == 4
              && (s[0] == 't' || s[0] == 'T') && (s[1] == 'r' || s[1] == 'R')
              && (s[2] == 'u' || s[2] == 'U') && (s[3] == 'e' || s[3] == 'E')
  {
    if |s| == 4 {
      LowerAsciiIs(s[0], 't', 'T');
      LowerAsciiIs(s[1], 'r', 'R');
      LowerAsciiIs(s[2], 'u', 'U');
      LowerAsciiIs(s[3], 'e', 'E');
      assert "true"[0] == 't' && "true"[1] == 'r' && "true"[2] == 'u' && "true"[3] == 'e';
    }
  }

  /** A lower-case letter is the folding of itself and of its capital, and of nothing else. */
  lemma LowerAsciiIs(c: char, lower: char, upper: char)
    requires 'a' <= lower <= 'z' && upper as int == lower as int - 32
    ensures LowerAscii(c) == lower <==> c == lower || c == upper
    ensures LowerAscii(lower) == lower
  {
  }

  lemma ParseBooleanCases()
    ensures ParseBoolean("true") && ParseBoolean("TRUE") && ParseBoolean("True")
    ensures !ParseBoolean("false") && !ParseBoolean("") && !ParseBoolean("yes") && !ParseBoolean("true ")
  {
    assert LowerAscii('T') == 't' && LowerAscii('R') == 'r' && LowerAscii('U') == 'u' && LowerAscii('E') == 'e';
    assert LowerAscii('y') != LowerAscii('t');
  }

  /** The permutation id of each enumerated permutation, in enumeration order. */
  function Ids(perms: seq<seq<int>>, d: int): (ids: seq<int>)
    ensures |ids| == |perms|
    ensures forall r :: 0 <= r < |perms| ==> ids[r] == BaseValue(perms[r], d)
  {
    seq(|perms|, r requires 0 <= r < |perms| => BaseValue(perms[r], d))
  }

  /**
   * table maps each id in ids back to its position, and every other entry
   * is the sentinel -1.
   */
  predicate InverseTable(ids: seq<int>, table: seq<int>)
  {
    && (forall r :: 0 <= r < |ids| ==> 0 <= ids[r] < |table| && table[ids[r]] == r)
    && (forall id :: 0 <= id < |table| ==> table[id] == -1 || (0 <= table[id] < |ids| && ids[table[id]] == id))
  }

  /** The id of a permutation of 0..d-1 lies in [0, d^d). */
  lemma PermutationIdInRange(p: seq<int>, d: int)
    requires d >= 1 && IsPermutation(p, d)
    ensures 0 <= BaseValue(p, d) < Pow(d, d)
  {
    BaseValueBounds(p, d);
  }

  /** Distinct permutations have distinct ids, and every id indexes the table. */
  lemma IdsDistinct(perms: seq<seq<int>>, d: int)
    requires d >= 1 && IsEnumeration(perms, d)
    ensures forall r :: 0 <= r < |perms| ==> 0 <= Ids(perms, d)[r] < Pow(d, d)
    ensures forall r, s :: 0 <= r < s < |perms| ==> Ids(perms, d)[r] != Ids(perms, d)[s]
  {
    var ids := Ids(perms, d);
    forall r | 0 <= r < |perms|
      ensures 0 <= ids[r] < Pow(d, d)
    {
      PermutationIdInRange(perms[r], d);
    }
    forall r, s | 0 <= r < s < |perms|
      ensures ids[r] != ids[s]
    {
      if ids[r] == ids[s] {
        BaseValueInjective(perms[r], perms[s], d);
      }
    }
  }

  /** Looking up the id of any permutation yields its position in the enumeration, never -1. */
  lemma LookupOfPermutation(perms: seq<seq<int>>, d: int, table: seq<int>, p: seq<int>)
    requires d >= 1 && IsEnumeration(perms, d) && |table| == Pow(d, d)
    requires InverseTable(Ids(perms, d), table)
    requires IsPermutation(p, d)
    ensures 0 <= BaseValue(p, d) < |table|
    ensures 0 <= table[BaseValue(p, d)] < |perms| && perms[table[BaseValue(p, d)]] == p
  {
    var r :| 0 <= r < |perms| && perms[r] == p;
    assert Ids(perms, d)[r] == BaseValue(p, d);
  }

  /** An entry of the table is valid exactly when the id it stands for decodes to a permutation. */
  lemma SentinelIffNotPermutation(perms: seq<seq<int>>, d: int, table: seq<int>, id: int)
    requires d >= 1 && IsEnumeration(perms, d) && |table| == Pow(d, d)
    requires InverseTable(Ids(perms, d), table)
    requires 0 <= id < |table|
    ensures table[id] == -1 <==> !IsPermutation(Digits(id, d, d), d)
    ensures table[id] != -1 ==> perms[table[id]] == Digits(id, d, d)
  {
    var ids := Ids(perms, d);
    if table[id] != -1 {
      var r := table[id];
      assert ids[r] == id;
      DigitsOfBaseValue(perms[r], d);
    } else if IsPermutation(Digits(id, d, d), d) {
      BaseValueOfDigits(id, d, d);
      LookupOfPermutation(perms, d, table, Digits(id, d, d));
    }
  }

  /** Decoding the id stored for a permutation gives the permutation back. */
  lemma IdRoundTrip(perms: seq<seq<int>>, d: int, r: int)
    requires d >= 1 && IsEnumeration(perms, d) && 0 <= r < |perms|
    ensures Digits(Ids(perms, d)[r], d, d) == perms[r]
  {
    DigitsOfBaseValue(perms[r], d);
  }

  /** The set of values of a duplicate-free sequence has as many elements as the sequence. */
  lemma {:induction false} DistinctImageCard(s: seq<int>)
    requires forall k, l :: 0 <= k < l < |s| ==> s[k] != s[l]
    ensures |set r | 0 <= r < |s| :: s[r]| == |s|
  {
    if s != [] {
      var n := |s| - 1;
      var init := s[..n];
      DistinctImageCard(init);
      var image := set r | 0 <= r < |init| :: init[r];
      assert (set r | 0 <= r < |s| :: s[r]) == image + {s[n]};
      assert s[n] !in image;
    }
  }

  /** Every entry of a table is either the sentinel or not, so the two sets of ids add up to its length. */
  lemma SentinelPartition(table: seq<int>)
    ensures |set id | 0 <= id < |table| && table[id] != -1| + |set id | 0 <= id < |table| && table[id] == -1| == |table|
  {
    var valid := set id | 0 <= id < |table| && table[id] != -1;
    var sentinel := set id | 0 <= id < |table| && table[id] == -1;
    var indices := seq(|table|, k requires 0 <= k < |table| => k);
    var all := set k | 0 <= k < |indices| :: indices[k];
    DistinctImageCard(indices);
    assert all == valid + sentinel by {
      forall id | id in all
        ensures id in valid + sentinel
      {
        var k :| 0 <= k < |indices| && indices[k] == id;
      }
      forall id | id in valid + sentinel
        ensures id in all
      {
        assert indices[id] == id;
      }
    }
    assert valid * sentinel == {};
  }

  /** The valid entries of an inverse table are exactly the ids it inverts, one per id. */
  lemma ValidEntriesAreIds(ids: seq<int>, table: seq<int>)
    requires InverseTable(ids, table)
    ensures |set id | 0 <= id < |table| && table[id] != -1| == |ids|
  {
    assert (set id | 0 <= id < |table| && table[id] != -1) == set r | 0 <= r < |ids| :: ids[r];
    forall r, s | 0 <= r < s < |ids|
      ensures ids[r] != ids[s]
    {
      assert table[ids[r]] == r && table[ids[s]] == s;
    }
    DistinctImageCard(ids);
  }

  /** Exactly d! entries of the table are valid; the other d^d - d! are the sentinel. */
  lemma EntryCounts(perms: seq<seq<int>>, d: int, table: seq<int>)
    requires d >= 1 && IsEnumeration(perms, d) && |table| == Pow(d, d)
    requires InverseTable(Ids(perms, d), table)
    ensures |set id | 0 <= id < |table| && table[id] != -1| == Factorial(d)
    ensures |set id | 0 <= id < |table| && table[id] == -1| == Pow(d, d) - Factorial(d)
  {
    ValidEntriesAreIds(Ids(perms, d), table);
    SentinelPartition(table);
  }

  /** The table of d^d entries fits the index range of a 32-bit signed integer. */
  lemma TableSizeFitsInt(d: int)
    requires 1 <= d <= MaxDimensions
    ensures Pow(d, d) <= 0x7fff_ffff
  {
    assert Pow(9, 9) == 387420489;
    if d == 1 {
    } else if d == 2 {
      assert Pow(2, 2) == 4;
    } else if d == 3 {
      assert Pow(3, 3) == 27;
    } else if d == 4 {
      assert Pow(4, 4) == 256;
    } else if d == 5 {
      assert Pow(5, 5) == 3125;
    } else if d == 6 {
      assert Pow(6, 6) == 46656;
    } else if d == 7 {
      assert Pow(7, 7) == 823543;
    } else if d == 8 {
      assert Pow(8, 8) == 16777216;
    }
  }

  /**
   * symbols holds, for each row, the position in perms of that row's
   * ordinal pattern over its first d values.
   */
  predicate Symbolises(perms: seq<seq<int>>, symbols: seq<int>, rows: seq<seq<real>>, d: nat)
  {
    && |symbols| == |rows|
    && forall t :: 0 <= t < |rows| ==>
         && |rows[t]| >= d
         && 0 <= symbols[t] < |perms|
         && IsOrdinalPattern(perms[symbols[t]], rows[t][..d])
  }

  /** The symbol of a time step depends only on the first d values of that time step. */
  lemma SymbolDeterminedByRow(perms: seq<seq<int>>, d: nat, symbols: seq<int>, rows: seq<seq<real>>,
                              symbols': seq<int>, rows': seq<seq<real>>, t: int, t': int)
    requires IsEnumeration(perms, d)
    requires Symbolises(perms, symbols, rows, d) && Symbolises(perms, symbols', rows', d)
    requires 0 <= t < |rows| && 0 <= t' < |rows'| && rows[t][..d] == rows'[t'][..d]
    ensures symbols[t] == symbols'[t']
  {
    OrdinalPatternUnique(perms[symbols[t]], perms[symbols'[t']], rows[t][..d]);
  }

  /** The id-to-index table: the sentinel -1 everywhere, then each id's position in ids. */
  method BuildIdTable(ids: array<int>, size: int) returns (table: array<int>)
    requires size >= 0
    requires forall r :: 0 <= r < ids.Length ==> 0 <= ids[r] < size
    requires forall r, s :: 0 <= r < s < ids.Length ==> ids[r] != ids[s]
    ensures fresh(table) && table.Length == size
    ensures InverseTable(ids[..], table[..])
  {
    table := new int[size];
    for i := 0 to table.Length
      invariant forall k :: 0 <= k < i ==> table[k] == -1
    {
      table[i] := -1;
    }
    for idIndex := 0 to ids.Length
      invariant forall r :: 0 <= r < idIndex ==> table[ids[r]] == r
      invariant forall id :: 0 <= id < table.Length ==>
                  table[id] == -1 || (0 <= table[id] < idIndex && ids[table[id]] == id)
    {
      table[ids[idIndex]] := idIndex;
    }
  }

  /** The dimension-index column of the sorted pairs. */
  function VarNumColumn(s: seq<ValueAndIndex>): (c: seq<real>)
    ensures |c| == |s|
    ensures forall k :: 0 <= k < |s| ==> c[k] == s[k].varNum
  {
    seq(|s|, k requires 0 <= k < |s| => s[k].varNum)
  }

  /**
   * After a stable sort by value of the pairs (row[k], k), the index column,
   * converted to integers, is the ordinal pattern of row.
   */
  lemma SortedPairsGivePattern(row: seq<real>, before: seq<ValueAndIndex>, after: seq<ValueAndIndex>, origin: seq<int>)
    requires |before| == |row| && forall k :: 0 <= k < |row| ==> before[k] == ValueAndIndex(row[k], k as real)
    requires IsPermutation(origin, |row|) && |after| == |row|
    requires forall k :: 0 <= k < |after| ==> after[k] == before[origin[k]]
    requires forall k, l :: 0 <= k < l < |after| ==> after[k].value <= after[l].value
    requires forall k, l :: 0 <= k < l < |after| && after[k].value == after[l].value ==> origin[k] < origin[l]
    ensures Truncated(VarNumColumn(after)) == origin
    ensures IsOrdinalPattern(origin, row)
  {
    assert forall k :: 0 <= k < |after| ==> after[k] == ValueAndIndex(row[origin[k]], origin[k] as real);
    TruncatedOfWhole(VarNumColumn(after), origin);
  }

  class MutualInfoCalculatorMultiVariateWithDiscreteSymbolic {
    /** The discrete estimator that does the counting. */
    var miCalc: MutualInformationCalculator?
    var dimensions: nat
    /** Every ordering of the dimensions, in enumeration order. */
    var permutations: seq<seq<int>>
    /** For each permutation index, the id of that permutation. */
    var permutationIds: array?<int>
    /** For each possible id, the index of its permutation, or -1. */
    var idToPermutationIndex: array?<int>
    var normalise: bool

    /**
     * The tables of an initialised calculator: exactly d! entries are valid
     * and the rest are -1, an entry is -1 exactly when its index does not
     * decode to a permutation, and each stored id decodes to its permutation.
     */
    lemma TableFacts()
      requires Valid()
      ensures |set id | 0 <= id < idToPermutationIndex.Length && idToPermutationIndex[id] != -1| == Factorial(dimensions)
      ensures |set id | 0 <= id < idToPermutationIndex.Length && idToPermutationIndex[id] == -1|
                == Pow(dimensions, dimensions) - Factorial(dimensions)
      ensures forall id :: 0 <= id < idToPermutationIndex.Length ==>
                (idToPermutationIndex[id] == -1 <==> !IsPermutation(Digits(id, dimensions, dimensions), dimensions))
      ensures forall r :: 0 <= r < permutationIds.Length ==>
                Digits(permutationIds[r], dimensions, dimensions) == permutations[r]
    {
      var d, table := dimensions, idToPermutationIndex[..];
      EntryCounts(permutations, d, table);
      assert (set id | 0 <= id < idToPermutationIndex.Length && idToPermutationIndex[id] != -1)
          == (set id | 0 <= id < |table| && table[id] != -1);
      assert (set id | 0 <= id < idToPermutationIndex.Length && idToPermutationIndex[id] == -1)
          == (set id | 0 <= id < |table| && table[id] == -1);
      forall id | 0 <= id < idToPermutationIndex.Length
        ensures idToPermutationIndex[id] == -1 <==> !IsPermutation(Digits(id, d, d), d)
      {
        SentinelIffNotPermutation(permutations, d, table, id);
      }
      forall r | 0 <= r < permutationIds.Length
        ensures Digits(permutationIds[r], d, d) == permutations[r]
      {
        IdRoundTrip(permutations, d, r);
      }
    }

    /** The calculator has been initialised: the tables are built and consistent. */
    ghost predicate Valid()
      reads this, permutationIds, idToPermutationIndex
    {
      && 1 <= dimensions <= MaxDimensions
      && IsEnumeration(permutations, dimensions)
      && permutationIds != null && idToPermutationIndex != null && miCalc != null
      && permutationIds[..] == Ids(permutations, dimensions)
      && idToPermutationIndex.Length == Pow(dimensions, dimensions)
      && InverseTable(permutationIds[..], idToPermutationIndex[..])
      && miCalc.base >= |permutations|
    }

    constructor ()
      ensures normalise
      ensures miCalc == null && permutationIds == null && idToPermutationIndex == null
      ensures dimensions == 0 && permutations == []
    {
      miCalc := null;
      dimensions := 0;
      permutations := [];
      permutationIds := null;
      idToPermutationIndex := null;
      normalise := true;
    }

    /**
     * Builds the permutation list, the id of each permutation and the
     * id-to-index table, and creates the estimator with an alphabet large
     * enough for both the symbols and the discrete values.
     */
    method Initialise(d: int, base: int)
      requires 1 <= d <= MaxDimensions
      modifies this
      ensures Valid()
      ensures dimensions == d && permutations == AllPermutations(d)
      ensures fresh(permutationIds) && fresh(idToPermutationIndex) && fresh(miCalc)
      ensures permutationIds[..] == Ids(permutations, d)
      ensures idToPermutationIndex.Length == Pow(d, d)
      ensures forall r :: 0 <= r < permutationIds.Length ==> idToPermutationIndex[permutationIds[r]] == r
      ensures miCalc.base == Max(|permutations|, base) && miCalc.timeDiff == 0
      ensures miCalc.var1Observations == [] && miCalc.var2Observations == []
      ensures normalise == old(normalise)
    {
      dimensions := d;
      permutations := AllPermutations(d);
      AllPermutationsEnumerates(d);
      var ids := GeneratePermutationIds(permutations);
      permutationIds := ids;
      IdsDistinct(permutations, d);
      PowPositive(d, d);
      var table := BuildIdTable(ids, Pow(d, d));
      idToPermutationIndex := table;
      var baseToUse := Max(ids.Length, base);
      miCalc := new MutualInformationCalculator(baseToUse, 0);
      miCalc.Initialise();
    }

    /** The id of each permutation in perms, in order. */
    method GeneratePermutationIds(perms: seq<seq<int>>) returns (ids: array<int>)
      requires forall r :: 0 <= r < |perms| ==> |perms[r]| == dimensions
      ensures fresh(ids)
      ensures ids[..] == Ids(perms, dimensions)
    {
      ids := new int[|perms|];
      for r := 0 to ids.Length
        invariant forall k :: 0 <= k < r ==> ids[k] == BaseValue(perms[k], dimensions)
      {
        assert perms[r][..dimensions] == perms[r];
        ids[r] := GeneratePermutationId(perms[r]);
      }
    }

    /** The id of a permutation: its first d entries read as a base-d numeral. */
    method GeneratePermutationId(data: seq<int>) returns (permutationId: int)
      requires |data| >= dimensions
      ensures permutationId == BaseValue(data[..dimensions], dimensions)
      ensures dimensions >= 1 && DigitsInRange(data[..dimensions], dimensions) ==>
                0 <= permutationId < Pow(dimensions, dimensions)
    {
      permutationId := 0;
      for c := 0 to dimensions
        invariant permutationId == BaseValue(data[..c], dimensions)
      {
        BaseValueSnoc(data[..c], data[c], dimensions);
        assert data[..c + 1] == data[..c] + [data[c]];
        permutationId := permutationId * dimensions;
        permutationId := permutationId + data[c];
      }
      if dimensions >= 1 && DigitsInRange(data[..dimensions], dimensions) {
        BaseValueBounds(data[..dimensions], dimensions);
      }
    }

    /** The id of a permutation held as floating-point numbers, each converted to an integer first. */
    method GeneratePermutationIdOfReals(data: seq<real>) returns (permutationId: int)
      requires |data| >= dimensions
      ensures permutationId == BaseValue(Truncated(data[..dimensions]), dimensions)
    {
      permutationId := 0;
      for c := 0 to dimensions
        invariant permutationId == BaseValue(Truncated(data[..c]), dimensions)
      {
        BaseValueSnoc(Truncated(data[..c]), TruncateToInt(data[c]), dimensions);
        assert Truncated(data[..c + 1]) == Truncated(data[..c]) + [TruncateToInt(data[c])];
        permutationId := permutationId * dimensions;
        permutationId := permutationId + TruncateToInt(data[c]);
      }
    }

    /** Sets the normalisation switch when the property is NORMALISE and ignores every other name. */
    method SetProperty(propertyName: string, propertyValue: string)
      modifies this`normalise
      ensures propertyName == PropNormalise ==> normalise == ParseBoolean(propertyValue)
      ensures propertyName != PropNormalise ==> normalise == old(normalise)
      ensures old(Valid()) ==> Valid()
    {
      if propertyName == PropNormalise {
        normalise := ParseBoolean(propertyValue);
      }
    }

    /**
     * The symbol of one time step: pair each of the first d values with its
     * dimension index, sort the pairs stably by value, read the index column
     * as a numeral and look it up.
     */
    method RowSymbol(row: seq<real>) returns (symbol: int)
      requires Valid() && |row| >= dimensions
      ensures 0 <= symbol < |permutations|
      ensures IsOrdinalPattern(permutations[symbol], row[..dimensions])
    {
      var d := dimensions;
      var variablesAndIndices := new ValueAndIndex[d];
      for v := 0 to d
        invariant forall k :: 0 <= k < v ==> variablesAndIndices[k] == ValueAndIndex(row[k], k as real)
      {
        variablesAndIndices[v] := ValueAndIndex(row[v], v as real);
      }
      ghost var before := variablesAndIndices[..];
      ghost var origin := StableSortByValue(variablesAndIndices);
      SortedPairsGivePattern(row[..d], before, variablesAndIndices[..], origin);
      var permutation := VarNumColumn(variablesAndIndices[..]);
      var permutationId := GeneratePermutationIdOfReals(permutation);
      assert permutation[..d] == permutation;
      LookupOfPermutation(permutations, d, idToPermutationIndex[..], origin);
      symbol := idToPermutationIndex[permutationId];
    }

    /** The symbol of every time step, in order; a row with fewer than d values is an error. */
    method MapToSymbols(rows: seq<seq<real>>) returns (r: Result<seq<int>>)
      requires Valid()
      ensures r.Success? ==> Symbolises(permutations, r.value, rows, dimensions)
      ensures r.Failure? ==>
                && r.error.RowTooShort?
                && 0 <= r.error.row < |rows| && |rows[r.error.row]| < dimensions
                && forall u :: 0 <= u < r.error.row ==> |rows[u]| >= dimensions
    {
      var mappedPermutationIds := new int[|rows|];
      var t := 0;
      while t < |rows|
        invariant 0 <= t <= |rows|
        invariant forall u :: 0 <= u < t ==>
                    && |rows[u]| >= dimensions
                    && 0 <= mappedPermutationIds[u] < |permutations|
                    && IsOrdinalPattern(permutations[mappedPermutationIds[u]], rows[u][..dimensions])
      {
        if |rows[t]| < dimensions {
          return Failure(RowTooShort(t));
        }
        var symbol := RowSymbol(rows[t]);
        mappedPermutationIds[t] := symbol;
        t := t + 1;
      }
      return Success(mappedPermutationIds[..]);
    }

    /**
     * Symbolises the continuous rows and hands the symbols, with the
     * discrete series, to the estimator. A short row or series of
     * different lengths leaves the estimator's observations as they were.
     */
    method SetObservations(continuousObservations: seq<seq<real>>, discreteObservations: seq<int>)
      returns (outcome: Outcome)
      requires Valid()
      modifies miCalc
      ensures Valid()
      ensures outcome.Pass? <==>
                (forall t :: 0 <= t < |continuousObservations| ==> |continuousObservations[t]| >= dimensions)
                && |discreteObservations| == |continuousObservations|
      ensures outcome.Pass? ==>
                && miCalc.var2Observations == old(miCalc.var2Observations) + discreteObservations
                && |miCalc.var1Observations| == |old(miCalc.var1Observations)| + |continuousObservations|
                && miCalc.var1Observations[..|old(miCalc.var1Observations)|] == old(miCalc.var1Observations)
                && Symbolises(permutations, miCalc.var1Observations[|old(miCalc.var1Observations)|..],
                              continuousObservations, dimensions)
                && forall t :: |old(miCalc.var1Observations)| <= t < |miCalc.var1Observations| ==>
                     0 <= miCalc.var1Observations[t] < miCalc.base
      ensures outcome.Fail? ==>
                && miCalc.var1Observations == old(miCalc.var1Observations)
                && miCalc.var2Observations == old(miCalc.var2Observations)
    {
      var mapped := MapToSymbols(continuousObservations);
      if mapped.Failure? {
        return Fail(mapped.error);
      }
      ghost var prior := miCalc.var1Observations;
      var ok := miCalc.AddObservations(mapped.value, discreteObservations);
      if !ok {
        return Fail(ObservationLengthMismatch);
      }
      assert miCalc.var1Observations[..|prior|] == prior;
      assert miCalc.var1Observations[|prior|..] == mapped.value;
      outcome := Pass;
    }

    /** The per-observation variant is not supported and always fails. */
    method ComputeLocalUsingPreviousObservations(contStates: seq<seq<real>>, discreteStates: seq<int>)
      returns (r: Result<seq<real>>)
      ensures r == Failure(LocalNotImplemented)
    {
      r := Failure(LocalNotImplemented);
    }
  }
}
