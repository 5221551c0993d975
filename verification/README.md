# Ordered statistics decoding over GF(2), in Dafny

This project models the decoder of the `osd` repository: soft-decision decoding of a
binary linear code by ordered statistics. A received word of real samples is split into
hard decisions (`alpha`, the sign) and reliabilities (`beta`, the magnitude). The
positions are sorted by reliability and the generator matrix is permuted accordingly.
Gaussian elimination brings the permuted matrix into systematic form. Then every flip
pattern of weight at most `w_max` on the information set is re-encoded, and the
candidate codeword with the smallest metric is kept. The result is mapped back to the
original order.

The model follows the source file by file:

| file | module | source |
|---|---|---|
| `common.dfy` | `Common` | shared `Result`/`Option`, increasing sequences, `Iota` |
| `linalg.dfy` | `Linalg` | `vec2::operator+=`, `operator+`, `vec2::from_string`, `mul`; row spaces and rank |
| `permutation.dfy` | `Permutations` | `make_permutation`, `invert_permutation`, `shuffle_cols` |
| `gauss.dfy` | `Elimination` | `gauss` |
| `combination.dfy` | `Combinations` | `combination::combination`, `get`, `next` |
| `reliability.dfy` | `Reliability` | `decompose`, `calc_metric`, the reliability sort |
| `patterns.dfy` | `FlipPatterns` | the flip loops of `osd` and the list of patterns its two loops visit |
| `osd.dfy` | `Decoder` | `osd` as a function, and its correctness theorems |
| `decode.dfy` | `Decoding` | `osd` loop by loop, with the weight loop stopped at the number of rows, proved equal to `Decoder.Osd` |

Bit vectors are `seq<bool>` and matrices are sequences of rows. Every loop of the source
is a method. Each such method's contract equates it with a functional definition, with
one exception: the reliability sort is only required to produce a most-reliable-first
order (see "Left out"). The properties are stated and proved about the functions.
The decoder's main theorems are the following:

- the result is a codeword;
- on the information set, it differs from the hard decisions in at most `w_max` places;
- no codeword within that reach has a smaller metric;
- a larger `w_max` never gives a worse metric;
- a hard decision that already is a codeword is returned unchanged;
- with `w_max` at least the number of rows, the result is a codeword of least metric.

## Model

| member | source | states |
|---|---|---|
| Linalg.Add | src/linalg.cpp:14-18 | the sum has the operands' length and bit `i` is set exactly when the operands differ at `i` (XOR) |
| Linalg.AddAssign | src/linalg.cpp:6-12 | the in-place XOR loop leaves the same word as `+` |
| Linalg.AddCancel | src/linalg.cpp:6-12 | adding the same word twice restores the original, which is what makes row additions reversible |
| Linalg.FromString | src/linalg.cpp:20-30 | parsing succeeds exactly when every character is `0` or `1`; it then yields one bit per character, set exactly for `1`; otherwise it is the error the source throws |
| Linalg.ParsePrinted | src/linalg.cpp:20-30 | parsing the printed form of any vector gives the vector back |
| Linalg.PrintParsed | src/linalg.cpp:20-30 | printing a parsed string gives the string back |
| Linalg.ParseBits | src/linalg.cpp:20-30 | the character loop, which stops with the error at the first character other than `0` or `1`, gives the same result as `FromString` |
| Linalg.MulAccumulate | src/linalg.cpp:32-43 | the loop that adds the rows selected by `v`, from a zero word of the row width, computes the linear combination of the rows with coefficients `v` |
| Linalg.Mul | src/linalg.cpp:32-43 | the encoding has the row width; the zero message encodes to the zero word and the unit message `e_q` to row `q` (with `LinCombAdd`, this fixes `mul` as the linear map given by the rows) |
| Linalg.LinCombAdd | src/linalg.cpp:32-43 | encoding is linear: the encoding of a sum of coefficient vectors is the sum of their encodings |
| Linalg.LinCombUnit | src/linalg.cpp:32-43 | encoding the unit vector `e_r` yields row `r` |
| Linalg.RowOpPreserves | src/linalg.cpp:59-61 | adding one row into another keeps the set of codewords and keeps full rank |
| Permutations.Apply | src/permutation.h:6-13 | the scattered word has the input's length and holds `v[i]` at position `perm[i]` for every `i` |
| Permutations.MakePermutation | src/permutation.h:6-13 | the scatter loop puts `v[i]` at position `perm[i]` for every `i`, which makes its result the scattered word |
| Permutations.ApplyUnique | src/permutation.h:6-13 | a sequence that has `v[i]` at `perm[i]` for every `i` is the scattered sequence, so the scatter is determined by that property |
| Permutations.ApplyMultiset | src/permutation.h:6-13 | scattering rearranges the input: the result has the same elements with the same multiplicities |
| Permutations.Invert | src/permutation.cpp:3-9 | the inverse maps `perm[i]` back to `i` and is itself a permutation |
| Permutations.InvertPermutation | src/permutation.cpp:3-9 | the loop that writes `i` at position `perm[i]` of a zero-filled vector computes the inverse permutation |
| Permutations.InvertInvolutive | src/permutation.cpp:3-9 | inverting twice gives the permutation back |
| Permutations.ApplyRoundTrip | src/permutation.cpp:3-9 | scattering by `perm` and then by its inverse restores the input |
| Permutations.ApplyRoundTripInverse | src/permutation.cpp:3-9 | scattering by the inverse and then by `perm` restores the input, which is how `osd` returns its result to the original order |
| Permutations.ShuffleCols | src/permutation.cpp:11-20 | every row of the result is that row scattered by `perm`; an empty matrix needs no permutation and stays empty |
| Permutations.ShuffleColumns | src/permutation.cpp:11-20 | the row loop, with its early return on an empty matrix, computes the column-shuffled matrix |
| Permutations.ShuffleColsMul | src/permutation.cpp:11-20 | encoding with the shuffled matrix is encoding with the original and then shuffling the codeword |
| Permutations.ShuffleColsFullRank | src/permutation.cpp:11-20 | shuffling the columns keeps full row rank |
| Permutations.ShuffleColsRowSpace | src/permutation.cpp:11-20 | a codeword of the shuffled matrix, unshuffled, is a codeword of the original |
| Permutations.RowSpaceShuffleCols | src/permutation.cpp:11-20 | a codeword of the original, shuffled, is a codeword of the shuffled matrix |
| Elimination.FindPivotRow | src/linalg.cpp:49-58 | the row search returns `-1` exactly when no row from the current pivot count on has a one in column `j`; otherwise it returns the first such row |
| Elimination.Gauss | src/linalg.cpp:45-74 | the pivots are strictly increasing columns, at most one per row; pivot column `q` is one in row `q` and zero elsewhere; row `q` is zero before its pivot and the rows without a pivot are zero (reduced row-echelon form); the codewords are unchanged; a full-rank matrix gets one pivot per row, the fact the final assert relies on |
| Elimination.EliminateColumnStep | src/linalg.cpp:48-71 | one column step keeps the elimination invariant: pivot columns are unit columns, each pivot is the leading entry of its row, rows below the pivots are zero in the columns passed, the row space is unchanged, full rank is kept |
| Elimination.ClearColumnInPlace | src/linalg.cpp:63-69 | the clearing loop adds pivot row `p` to exactly the other rows that have a one in column `j`, and leaves every other row as it was |
| Elimination.EliminateColumnInPlace | src/linalg.cpp:48-71 | one turn of the column loop (search, add-instead-of-swap, clear, record the pivot) computes the step whose effect `EliminateColumnStep` shows to keep the elimination invariant |
| Elimination.GaussInPlace | src/linalg.cpp:45-74 | the in-place loops compute the same matrix and pivot list as the functional elimination |
| Elimination.PivotsAreLeftmost | src/linalg.cpp:47-58 | every column before pivot `q` is zero from row `q` down, so it depends on the earlier pivot columns, while pivot `q` is one in row `q`: each pivot is the leftmost column independent of the columns before it |
| Elimination.GaussExample | src/linalg.cpp:45-74 | `[[1,1,0],[1,1,1]]` reduces to `[[1,1,0],[0,0,1]]` with pivots `[0,2]` |
| Elimination.SystematicEncoding | src/linalg.cpp:62-70 | encoding a message with the reduced matrix copies message bit `p` onto pivot column `p` |
| Combinations.Init | src/combination.cpp:3-9 | the constructor's view is `0, 1, ..., k-1` with the sentinel `n` behind it, and it is a valid combination whenever `k <= n` |
| Combinations.Construct | src/combination.cpp:3-9 | the constructor's loop pushes `0 .. k-1` and then the sentinel `n`, which is the state `Init(k, n)` |
| Combinations.Combination.Get | src/combination.cpp:11-13 | the view has `k` entries; for a valid state they are strictly increasing and below `n` |
| Combinations.ValidIsCombination | src/combination.cpp:11-13 | the view `get()` of a well-formed state is a strictly increasing list of `k` positions below `n` exactly when the state is valid |
| Combinations.Next | src/combination.cpp:15-28 | `next()` returns false exactly at the last combination and then leaves the state unchanged; otherwise the new state is valid and lexicographically larger |
| Combinations.Advance | src/combination.cpp:15-28 | `next()` keeps `k` and the sentinel, and whenever it returns false the state is unchanged |
| Combinations.FindGap | src/combination.cpp:16-19 | the scan returns the rightmost index whose successor is not its value plus one, or -1 when every entry is one below the next |
| Combinations.RefillInPlace | src/combination.cpp:23-26 | the refill loop increments entry `t` and makes each later entry before the sentinel one more than its predecessor; the entries before `t` and the sentinel are unchanged |
| Combinations.AdvanceIsImmediate | src/combination.cpp:15-28 | no combination lies strictly between a combination and its successor, so `next()` skips nothing |
| Combinations.AdvanceProgress | src/combination.cpp:15-28 | each successful `next()` decreases a natural-number measure, so the `do ... while` loop ends |
| Combinations.EnumerateAll | src/combination.cpp:3-28 | construction followed by `next()` until it fails visits exactly the `k`-subsets of `0..n-1`, in strictly increasing lexicographic order |
| Combinations.EnumerateTwoOfFour | src/combination.cpp:3-28 | the combinations of 2 out of 4 are visited as `01, 02, 03, 12, 13, 23` |
| Combinations.WideNeverStops | src/combination.cpp:15-28 | `combination(2, 1)` is not a valid state, and every call of `next()` on it succeeds: after `j` calls the view is `[0, j+1]` with the sentinel still 1 |
| Reliability.Decompose | src/osd.cpp:32-36 | `alpha[i]` is set exactly for a negative sample, and `beta[i]` is the sample's absolute value, hence non-negative |
| Reliability.DecomposeRoundTrip | src/osd.cpp:32-36 | sign and magnitude together recover every sample |
| Reliability.CalcMetric | src/osd.cpp:38-47 | the loop sums the reliabilities of the positions where `x` disagrees with `alpha`; the sum is non-negative when the reliabilities are |
| Reliability.Metric | src/osd.cpp:38-47 | the metric is non-negative whenever every reliability is |
| Reliability.MetricZero | src/osd.cpp:38-47 | the metric is zero exactly when every disagreement sits on a zero reliability; with positive reliabilities, exactly when `x == alpha` |
| Reliability.MetricApply | src/osd.cpp:68-70 | permuting hard decisions, reliabilities and candidate alike leaves the metric unchanged |
| Reliability.Indices | src/osd.cpp:52-56 | the indices paired with the reliabilities before sorting are `0 .. n-1`, which is a permutation |
| Reliability.SortByReliability | src/osd.cpp:52-64 | the returned order is a permutation listing the positions from most to least reliable |
| Reliability.ReliabilityOrderSorts | src/osd.cpp:64-69 | moving the reliabilities by the inverse of such an order leaves them in non-increasing order |
| FlipPatterns.Flip | src/osd.cpp:88-90 | toggling listed positions keeps the word's length; which bits change is stated by `FlipMembers` |
| FlipPatterns.FlipMembers | src/osd.cpp:88-90 | for distinct positions, in any order, a bit changes exactly when its position is listed |
| FlipPatterns.FlipEach | src/osd.cpp:88-90 | the flip loop computes `Flip`, and when the listed positions are distinct, in any order, it toggles exactly those positions |
| FlipPatterns.FlipTwice | src/osd.cpp:98-100 | the second flip loop restores `inf_set`, for any list of positions |
| FlipPatterns.DifferencesOfFlip | src/osd.cpp:88-90 | the positions a flip changes are exactly the flip pattern |
| FlipPatterns.FlipDifferences | src/osd.cpp:88-90 | flipping the positions where two words differ turns one into the other, so every word on the information set is reachable by some pattern |
| FlipPatterns.WeightAll | src/osd.cpp:84-101 | the inner loop for weight `w`, run until `next()` fails, visits exactly the `w`-subsets of the information positions |
| FlipPatterns.PatternsAll | src/osd.cpp:83-102 | the two loops together visit exactly the increasing lists of at most `w_max` information positions |
| FlipPatterns.PatternsFirst | src/osd.cpp:83-86 | the first pattern visited is the empty one, the hard decision itself |
| Decoder.Prepare | src/osd.cpp:50-78 | after sorting, permuting and eliminating, the matrix is systematic on one pivot per row and `inf_set` holds the hard decisions on the pivots |
| Decoder.CodewordFromInfo | src/osd.cpp:91 | in systematic form, every codeword is the encoding of its own pivot bits |
| Decoder.CandidateInfo | src/osd.cpp:88-91 | each candidate is a codeword that carries the flipped `inf_set` on the pivots |
| Decoder.SearchIsFirstBest | src/osd.cpp:80-102 | the update with strict `<`, started from `DBL_MAX`, keeps the first candidate of least metric in visiting order |
| Decoder.BestIsOptimal | src/osd.cpp:83-102 | in sorted coordinates, no codeword within `w_max` flips of `inf_set` has a smaller metric than the kept one |
| Decoder.Osd | src/osd.cpp:49-105 | for every `w_max`, the output has the message's length and is a codeword of `g` (the weight loop stops at the number of rows) |
| Decoder.OsdWithinReach | src/osd.cpp:83-104 | the output differs from the hard decisions in at most `w_max` positions of the information set |
| Decoder.OsdIsBestWithinReach | src/osd.cpp:49-105 | every codeword of `g` within `w_max` differences of the hard decisions on the information set has a metric at least the output's |
| Decoder.OsdMonotone | src/osd.cpp:83 | a larger `w_max` never gives an output of larger metric |
| Decoder.OsdKeepsCodeword | src/osd.cpp:80-104 | when the hard decisions already form a codeword, the decoder returns them |
| Decoder.OsdIsMaximumLikelihood | src/osd.cpp:83-102 | with `w_max` at least the number of rows, no codeword of `g` has a smaller metric than the output |
| Decoder.FrameMetric | src/osd.cpp:103-104 | measuring in sorted coordinates and measuring the unpermuted word in the original coordinates give the same metric |
| Decoder.DecodeExample | src/osd.cpp:49-105 | the generator `[1,1,0]` with samples `[-0.9,-0.8,0.1]` and `w_max = 0` decodes to `[1,1,0]` |
| Decoder.DecodeWideExample | src/osd.cpp:83-84 | with one row and `w_max = 2` the search stops at weight one and still returns the codeword `[1,1,0]` |
| Decoding.TryFlips | src/osd.cpp:86-100 | one trial (flip, encode, measure, update, flip back) leaves `inf_set` as it was and updates the incumbent by the strict-`<` rule |
| Decoding.SearchWeight | src/osd.cpp:84-101 | the inner loop runs the update over every pattern of weight `w`, in enumeration order |
| Decoding.SearchUpTo | src/osd.cpp:83-102 | after the weight loop over `0 .. wmax` the incumbent is what the update holds after every pattern of weight at most `wmax`, in visiting order |
| Decoding.SearchAll | src/osd.cpp:80-102 | both search loops together yield the candidate the functional decoder keeps |
| Decoding.ReadInfoSet | src/osd.cpp:75-78 | `inf_set` reads the permuted hard decisions at the pivot columns |
| Decoding.PrepareFrame | src/osd.cpp:64-78 | the permutations, the elimination and the information-set read compute the systematic frame |
| Decoding.OsdDecode | src/osd.cpp:49-105 | the whole procedure returns an order that sorts by reliability and the corresponding decoder output, which is a codeword |

## Left out

- `src/main.cpp`, `src/simulation_utils.h` and `graph.py` are outside the model. They generate random messages and noise, run the simulation and plot it.
- The `to` helper of `osd.cpp` copies a range into a container. The model works on sequences directly.
- Doubles are exact reals. Rounding, infinities and NaN are not modelled, so the metric is an exact sum rather than a floating-point sum in loop order.
- `std::ranges::sort` is not stable, and its order among equal reliabilities is unspecified. `Decoder.Osd` therefore takes the order as a parameter and accepts any order that sorts the reliabilities non-increasingly. `Reliability.SortByReliability` is one such sort (an insertion sort), and `Decoding.OsdDecode` uses it.
- The source's `assert`s on lengths and non-emptiness are preconditions of the model.
- The final assert of `gauss` and the assert in `osd` (one pivot per row) become the full-rank requirement of `Decoder.Admissible`. The model does not describe what happens when that assert fails.
- For `w_max` larger than the number of rows the source does not terminate (see "Findings"). The model's decoder stops the weight loop at the number of rows instead.
- `size_t` indices are unbounded naturals. The source's `-1` markers (`ein_index`, `increment_index`) are `Option` values or the integer `-1`; no wrap-around is modelled.
- Permutations.Apply: defined only for permutations. The source's scatter would overwrite or index out of range with any other index list, but it is only ever called with permutations.
- Decoder.SearchIsFirstBest: the initial `DBL_MAX` is modelled as the absence of an incumbent, so the first candidate is always kept. The source keeps a candidate only when its metric is strictly below `DBL_MAX`. In floating point a metric can equal `DBL_MAX`, overflow to infinity, or be NaN. If no candidate is kept, `best_code` stays empty and `make_permutation` returns an empty word. The model uses exact reals and does not describe that outcome.

## Findings

| source | as written | input that shows it | evidently intended | confidence | as-written member | corrected member |
|---|---|---|---|---|---|---|
| src/osd.cpp:83-101 | the weight loop runs `w` up to `w_max` and builds `combination(w, k)` even when `w` exceeds the `k` rows. On such a state `next()` never returns false, so the inner `do ... while` never ends, and its flip indices already point past `inf_set` | a generator matrix with one row and `w_max = 2` (the default of `src/main.cpp`): `combination(2, 1)` visits `[0,1]`, `[0,2]`, `[0,3]`, ... | the weight loop stops at `min(w_max, k)`, since no flip pattern has more than `k` positions | not executed; high | Combinations.WideNeverStops | Decoder.Osd, Decoder.OsdIsMaximumLikelihood |
