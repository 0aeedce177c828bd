# Symbolic mutual information between a multivariate continuous series and a discrete series

This project models the symbolic mutual-information calculator of JIDT.
The calculator takes a d-dimensional continuous series and a discrete series of the same length.
It replaces each time step of the continuous series by a discrete symbol, its *ordinal pattern*.
The ordinal pattern is the order in which the d dimensions appear when their values at that step are sorted.
Ties keep the dimensions in ascending index order.
The symbols and the discrete series then go to a discrete mutual-information estimator.

The model has five modules.

- `PermutationIds`: the *permutation id*, which reads a sequence of d digits as a base-d numeral, most significant digit first. Its decoder `Digits` inverts it. The module also holds the bounds, injectivity and round-trip lemmas.
- `Permutations`: permutations of 0..d-1 and an enumeration `AllPermutations(d)` of all d! of them. The enumeration is built from an explicit position-to-permutation map `PermAt` and its inverse `Rank`.
- `OrdinalPatterns`: the ordering key, the predicate "p is the ordinal pattern of this row", uniqueness of that pattern, and a stable in-place sort of the (value, dimension index) pairs of one time step.
- `DiscreteMutualInformation`: the discrete estimator, reduced to its alphabet size and the observation pairs it has received.
- `Symbolic`: the calculator class, with the permutation list, the id array, the id-to-index table and its `-1` sentinels, the alphabet size `max(d!, base)`, symbolisation, property setting, and the unsupported local method.

The class `Symbolic.MutualInfoCalculatorMultiVariateWithDiscreteSymbolic` keeps the source's fields.
The id and index tables are `array?<int>` fields, null until `Initialise` fills them by loops.
The per-time-step pair table is an array sorted in place.

The invariant `Valid()` holds after `Initialise` and is kept by every other method. It states:

- the permutation list enumerates every permutation exactly once;
- the id array holds each permutation's id;
- the table has d^d entries and inverts the id array;
- every other entry of the table is `-1`.

The main results are:

- the symbol of every time step lies in `[0, d!)`, so a lookup never hits `-1`;
- that symbol indexes the ordinal pattern of the row (`RowSymbol`);
- as rows reach symbolisation (after any normalisation), the symbol depends only on the row's first d values (`SymbolDeterminedByRow`).

Where the code and its documentation differ, the model follows the code:

- A row with more than d values is accepted, and only its first d values are used.
- Only a row with fewer than d values fails. The code fails there because it indexes past the end of the row.

## Model

| member | source | states |
|---|---|---|
| PermutationIds.BaseValueBounds | java/source/infodynamics/measures/continuous/symbolic/MutualInfoCalculatorMultiVariateWithDiscreteSymbolic.java:77-84 | a numeral of n digits, each in [0, b), has a value in [0, b^n); for a permutation of 0..d-1 the id lies in [0, d^d) |
| PermutationIds.DigitsOfBaseValue | java/source/infodynamics/measures/continuous/symbolic/MutualInfoCalculatorMultiVariateWithDiscreteSymbolic.java:77-84 | decoding the value of a numeral whose digits are in range gives back its digits |
| PermutationIds.BaseValueOfDigits | java/source/infodynamics/measures/continuous/symbolic/MutualInfoCalculatorMultiVariateWithDiscreteSymbolic.java:47-49 | for every table index v in [0, b^n), the decoded digits are in range and encode back to v |
| PermutationIds.BaseValueInjective | java/source/infodynamics/measures/continuous/symbolic/MutualInfoCalculatorMultiVariateWithDiscreteSymbolic.java:20-21 | two numerals of equal length with digits in range and equal values are equal, so each permutation id is unique |
| PermutationIds.PowPositive | java/source/infodynamics/measures/continuous/symbolic/MutualInfoCalculatorMultiVariateWithDiscreteSymbolic.java:49 | d^d is positive, so the table can be allocated |
| Permutations.PermAtIsPermutation | java/source/infodynamics/measures/continuous/symbolic/MutualInfoCalculatorMultiVariateWithDiscreteSymbolic.java:40-41 | every position of the enumeration holds a permutation of 0..n-1 |
| Permutations.RankOfPermAt | java/source/infodynamics/measures/continuous/symbolic/MutualInfoCalculatorMultiVariateWithDiscreteSymbolic.java:40-41 | Rank inverts PermAt, so different positions hold different permutations |
| Permutations.PermAtOfRank | java/source/infodynamics/measures/continuous/symbolic/MutualInfoCalculatorMultiVariateWithDiscreteSymbolic.java:40-41 | PermAt inverts Rank, so every permutation occurs in the enumeration |
| Permutations.AllPermutationsEnumerates | java/source/infodynamics/measures/continuous/symbolic/MutualInfoCalculatorMultiVariateWithDiscreteSymbolic.java:40-41 | the list of all permutations has n! entries, each a permutation, pairwise distinct, and it contains every permutation of 0..n-1 |
| Permutations.PermutationContainsAll | java/source/infodynamics/measures/continuous/symbolic/MutualInfoCalculatorMultiVariateWithDiscreteSymbolic.java:40-41 | a duplicate-free sequence of n numbers in [0, n) contains every one of them (pigeonhole) |
| OrdinalPatterns.OrdinalPatternUnique | java/source/infodynamics/measures/continuous/symbolic/MutualInfoCalculatorMultiVariateWithDiscreteSymbolic.java:123-125 | a row has at most one ordering of its indices by ascending value with ties in ascending index order |
| OrdinalPatterns.InsertIntoSorted | java/source/infodynamics/measures/continuous/symbolic/MutualInfoCalculatorMultiVariateWithDiscreteSymbolic.java:123 | one insertion step extends the sorted, stable prefix by one entry while the array stays a rearrangement of the input |
| OrdinalPatterns.StableSortByValue | java/source/infodynamics/measures/continuous/symbolic/MutualInfoCalculatorMultiVariateWithDiscreteSymbolic.java:123 | the pairs end up as a permutation of the input, ascending by value, with equal values in their original relative order |
| DiscreteMutualInformation.MutualInformationCalculator.constructor | java/source/infodynamics/measures/continuous/symbolic/MutualInfoCalculatorMultiVariateWithDiscreteSymbolic.java:67 | the estimator is created with the given alphabet size and time lag and no observations |
| DiscreteMutualInformation.MutualInformationCalculator.Initialise | java/source/infodynamics/measures/continuous/symbolic/MutualInfoCalculatorMultiVariateWithDiscreteSymbolic.java:68 | initialising discards all observations |
| DiscreteMutualInformation.MutualInformationCalculator.AddObservations | java/source/infodynamics/measures/continuous/symbolic/MutualInfoCalculatorMultiVariateWithDiscreteSymbolic.java:130 | paired series are appended exactly when their lengths agree; otherwise nothing changes |
| Symbolic.Max | java/source/infodynamics/measures/continuous/symbolic/MutualInfoCalculatorMultiVariateWithDiscreteSymbolic.java:63 | the alphabet size is at least the number of permutations and at least the discrete base, and is one of the two |
| Symbolic.TruncateToInt | java/source/infodynamics/measures/continuous/symbolic/MutualInfoCalculatorMultiVariateWithDiscreteSymbolic.java:97 | the conversion to int rounds toward zero: it is the integer within distance 1 of x on the side of zero |
| Symbolic.TruncatedOfWhole | java/source/infodynamics/measures/continuous/symbolic/MutualInfoCalculatorMultiVariateWithDiscreteSymbolic.java:97 | converting dimension indices held as floating-point numbers back to integers gives exactly those indices |
| Symbolic.ParseBooleanIff | java/source/infodynamics/measures/continuous/symbolic/MutualInfoCalculatorMultiVariateWithDiscreteSymbolic.java:104 | for every string, the parsed value is true exactly when the string has four letters t, r, u, e, each in either case |
| Symbolic.ParseBooleanCases | java/source/infodynamics/measures/continuous/symbolic/MutualInfoCalculatorMultiVariateWithDiscreteSymbolic.java:104 | checks sample spellings: "true", "TRUE" and "True" parse as true; "false", the empty string, "yes" and "true " parse as false |
| Symbolic.PermutationIdInRange | java/source/infodynamics/measures/continuous/symbolic/MutualInfoCalculatorMultiVariateWithDiscreteSymbolic.java:47 | the id of a permutation of 0..d-1 lies in [0, d^d) |
| Symbolic.IdsDistinct | java/source/infodynamics/measures/continuous/symbolic/MutualInfoCalculatorMultiVariateWithDiscreteSymbolic.java:43-47 | the ids of the enumerated permutations are in [0, d^d) and pairwise distinct |
| Symbolic.IdRoundTrip | java/source/infodynamics/measures/continuous/symbolic/MutualInfoCalculatorMultiVariateWithDiscreteSymbolic.java:43-46 | decoding the stored id of each permutation gives that permutation back |
| Symbolic.LookupOfPermutation | java/source/infodynamics/measures/continuous/symbolic/MutualInfoCalculatorMultiVariateWithDiscreteSymbolic.java:126-127 | looking up the id of any permutation gives an index in [0, d!), never -1, and the permutation at that index is the one looked up |
| Symbolic.SentinelIffNotPermutation | java/source/infodynamics/measures/continuous/symbolic/MutualInfoCalculatorMultiVariateWithDiscreteSymbolic.java:49-57 | a table entry is -1 exactly when its index does not decode to a permutation; otherwise it is the index of that permutation |
| Symbolic.ValidEntriesAreIds | java/source/infodynamics/measures/continuous/symbolic/MutualInfoCalculatorMultiVariateWithDiscreteSymbolic.java:55-57 | an inverse table has exactly one non-sentinel entry per id |
| Symbolic.SentinelPartition | java/source/infodynamics/measures/continuous/symbolic/MutualInfoCalculatorMultiVariateWithDiscreteSymbolic.java:52-57 | the sentinel entries and the other entries together account for the whole table |
| Symbolic.EntryCounts | java/source/infodynamics/measures/continuous/symbolic/MutualInfoCalculatorMultiVariateWithDiscreteSymbolic.java:49-57 | exactly d! entries of the table are valid, and the other d^d - d! are the sentinel |
| Symbolic.TableSizeFitsInt | java/source/infodynamics/measures/continuous/symbolic/MutualInfoCalculatorMultiVariateWithDiscreteSymbolic.java:49 | for 1 <= d <= 9 the table size d^d fits in a 32-bit signed integer |
| Symbolic.SymbolDeterminedByRow | java/source/infodynamics/measures/continuous/symbolic/MutualInfoCalculatorMultiVariateWithDiscreteSymbolic.java:116-128 | two rows with the same first d values, as they reach the symbolisation loop, get the same symbol |
| Symbolic.BuildIdTable | java/source/infodynamics/measures/continuous/symbolic/MutualInfoCalculatorMultiVariateWithDiscreteSymbolic.java:49-57 | the new table of the given size maps each id back to its position and holds -1 everywhere else |
| Symbolic.SortedPairsGivePattern | java/source/infodynamics/measures/continuous/symbolic/MutualInfoCalculatorMultiVariateWithDiscreteSymbolic.java:118-126 | after the stable sort of the (value, index) pairs, the index column converted to integers is the row's ordinal pattern |
| Symbolic.MutualInfoCalculatorMultiVariateWithDiscreteSymbolic.constructor | java/source/infodynamics/measures/continuous/symbolic/MutualInfoCalculatorMultiVariateWithDiscreteSymbolic.java:30-34 | a new calculator normalises by default and has no tables and no estimator yet |
| Symbolic.MutualInfoCalculatorMultiVariateWithDiscreteSymbolic.Initialise | java/source/infodynamics/measures/continuous/symbolic/MutualInfoCalculatorMultiVariateWithDiscreteSymbolic.java:36-69 | afterwards the tables are consistent, the table inverts the id array, and a fresh estimator has alphabet max(d!, base) and lag 0 and no observations; the normalisation flag is kept |
| Symbolic.MutualInfoCalculatorMultiVariateWithDiscreteSymbolic.GeneratePermutationIds | java/source/infodynamics/measures/continuous/symbolic/MutualInfoCalculatorMultiVariateWithDiscreteSymbolic.java:43-46 | a fresh array holds the id of each permutation, in order |
| Symbolic.MutualInfoCalculatorMultiVariateWithDiscreteSymbolic.GeneratePermutationId | java/source/infodynamics/measures/continuous/symbolic/MutualInfoCalculatorMultiVariateWithDiscreteSymbolic.java:77-84 | the accumulated id is the base-d value of the first d entries, and lies in [0, d^d) when those entries are digits |
| Symbolic.MutualInfoCalculatorMultiVariateWithDiscreteSymbolic.GeneratePermutationIdOfReals | java/source/infodynamics/measures/continuous/symbolic/MutualInfoCalculatorMultiVariateWithDiscreteSymbolic.java:93-100 | the id is the base-d value of the first d entries, each converted to an integer first |
| Symbolic.MutualInfoCalculatorMultiVariateWithDiscreteSymbolic.SetProperty | java/source/infodynamics/measures/continuous/symbolic/MutualInfoCalculatorMultiVariateWithDiscreteSymbolic.java:102-106 | only the flag changes, and only for the exact name NORMALISE, where it becomes the parsed boolean value; the invariant is kept |
| Symbolic.MutualInfoCalculatorMultiVariateWithDiscreteSymbolic.RowSymbol | java/source/infodynamics/measures/continuous/symbolic/MutualInfoCalculatorMultiVariateWithDiscreteSymbolic.java:117-127 | the symbol of one time step lies in [0, d!), so never -1, and indexes the ordinal pattern of the row's first d values |
| Symbolic.MutualInfoCalculatorMultiVariateWithDiscreteSymbolic.MapToSymbols | java/source/infodynamics/measures/continuous/symbolic/MutualInfoCalculatorMultiVariateWithDiscreteSymbolic.java:115-128 | on success there is one symbol per row and each is the index of that row's ordinal pattern; a failure names the first row with fewer than d values |
| Symbolic.MutualInfoCalculatorMultiVariateWithDiscreteSymbolic.SetObservations | java/source/infodynamics/measures/continuous/symbolic/MutualInfoCalculatorMultiVariateWithDiscreteSymbolic.java:108-131 | passes exactly when every row has d values and the two series have equal length; then the estimator's discrete series grows by the given values, and its symbol series grows by the rows' pattern indices, each below the estimator's alphabet size, with the earlier symbols kept; on failure nothing is added |
| Symbolic.MutualInfoCalculatorMultiVariateWithDiscreteSymbolic.TableFacts | java/source/infodynamics/measures/continuous/symbolic/MutualInfoCalculatorMultiVariateWithDiscreteSymbolic.java:43-57 | in an initialised calculator, exactly d! table entries are valid and d^d - d! are -1, an entry is -1 exactly when its index does not decode to a permutation, and each stored id decodes to its permutation |
| Symbolic.MutualInfoCalculatorMultiVariateWithDiscreteSymbolic.ComputeLocalUsingPreviousObservations | java/source/infodynamics/measures/continuous/symbolic/MutualInfoCalculatorMultiVariateWithDiscreteSymbolic.java:137-140 | the local method always fails as not implemented |

## Left out

- Normalisation: when `normalise` is set, the source standardises each column before symbolisation (lines 110-113). The matrix utilities are not part of this model. `SetObservations` therefore takes the rows as they reach symbolisation, already normalised when the flag is set. With normalisation on, the symbol of a raw row depends on the whole batch it arrives in, because each column is standardised over that batch; the statements about symbols hold for the normalised rows.
- The estimator's histograms, `computeAverageLocalOfObservations`, both `computeSignificance` overloads, `getLastAverage` and `getNumObservations` all delegate to the discrete estimator. Its source is not part of this model.
- `setDebug` does nothing in the source, so it is not modelled.
- The library call that lists all distinct orderings is not part of this model. `AllPermutations` replaces it with its contract: every permutation of 0..d-1 exactly once. The enumeration order, and with it the numbering of symbols, is the model's own.
- The standard library sort with a comparator on the first column is replaced by an in-place stable insertion sort. The sort has the same contract: ascending by value, equal values in their original order, and a rearrangement of the input.
- Values are modelled as real numbers. Floating-point rounding, NaN, infinities and signed zero are not represented.
- Symbolic.MutualInfoCalculatorMultiVariateWithDiscreteSymbolic.Initialise: requires 1 <= d <= 9.
  - For d >= 10, d^d and the accumulated ids overflow a 32-bit int.
  - For d <= 0, the source builds degenerate or negative-size arrays.
  - Wrap-around arithmetic is therefore not modelled.
- Symbolic.TruncateToInt: does not model the saturation of the conversion at the int range or NaN becoming 0. The model only converts dimension indices 0..d-1.
- DiscreteMutualInformation.MutualInformationCalculator.AddObservations: its rejection of series of different lengths is an assumption about the estimator, whose source is not part of this model. Values outside the estimator's alphabet are not checked.
- Symbolic.ParseBooleanIff: case folding covers ASCII letters only. The standard library also folds other Unicode letters.
- Null arguments are not modelled, and neither is calling `setObservations` before `initialise`: both fail with a null dereference in the source. `SetObservations` requires an initialised calculator.
- Exceptions become `Outcome` and `Result` values:
  - a too-short row gives `RowTooShort`;
  - a length mismatch in the estimator gives `ObservationLengthMismatch`;
  - the local method gives `LocalNotImplemented`.
- The predictive-information test is not part of this model.
