# SparrowMonolith masks, dictionary raveling, string affixes and statistics in Dafny

This project models the core of SparrowMonolith, a Python astronomy utility
library:

- **Masks** (`mask/`). Boolean arrays the same shape as a data image, where
  True marks a pixel to reject. There are three kinds of generator:
  - geometric (single pixels, rectangles, sub-arrays, whole rows and columns,
    nothing, everything);
  - value-based (above a maximum, below a minimum, close to an exact value,
    the top and bottom counts or percentages of the sorted data, iterative
    sigma clipping);
  - invalid-value (infinities, NaN).

  Two combinators fold any number of masks with OR or AND.
- **`ravel_dictionary`** (`object/dict/common.py`). It flattens nested
  dictionaries into one. Keys are visited in ascending order, and a repeated
  key is settled by a conflict rule: `raise`, `superior` or `inferior`.
- **String affixes** (`string/common.py`). These add or delete a prefix or
  suffix, and delete every occurrence of a list of substrings.
- **Statistics** (`math/statistics.py`). The arithmetic mean, the median,
  and the standard deviation up to its final square root.

The Dafny modules follow the source files:

| module | file |
|---|---|
| `GeometricMasks` | `geometric.dfy` |
| `MaskCombine` | `combine.dfy` |
| `ValueMasks` | `value.dfy` |
| `InvalidMasks` | `invalid.dfy` |
| `DictRavel` | `ravel.dfy` |
| `StringAffix` | `strings.dfy` |
| `Statistics` | `statistics.dfy` |

Two modules are shared:

- `Outcomes` is the failure kinds and the `Result`/`Option` types. A raised
  exception becomes `Err(kind)`.
- `Sorting` is an insertion sort on reals (standing for `np.sort` and
  `sorted`), counting by a predicate, and permutation facts.

How each part is modelled:

- The geometric generators are imperative. Each one allocates a fresh
  `array2<bool>` and sets cells in place.
- The value and invalid masks are functions over the data flattened to a
  sequence.
- The combinators are methods with loops over a sequence of shaped masks.
- Numbers are exact reals. Python's `Decimal` and numpy's floats are not
  modelled bit for bit. Where mixing them raises, the failure is modelled
  for the mean (`Statistics.MeanAsWritten`); the other such failures are
  listed under Left out.

## Model

| member | source | states |
|---|---|---|
| GeometricMasks.MaskNothing | sparrowmonolith/mask/geometric.py:220-241 | a fresh mask of the data's shape with every cell False |
| GeometricMasks.MaskEverything | sparrowmonolith/mask/geometric.py:243-264 | a fresh mask of the data's shape with every cell True |
| GeometricMasks.MaskSinglePixels | sparrowmonolith/mask/geometric.py:11-59 | index lists of different lengths fail with InputError; otherwise cell `[i, j]` is True exactly when some pair k has `column_indexes[k] == i` and `row_indexes[k] == j` (the column list indexes the first axis, as written) |
| GeometricMasks.MaskSinglePixelsRowMajor | sparrowmonolith/mask/geometric.py:11-59 | the corrected generator: same failure, and cell `[row, column]` is True exactly for the listed pairs |
| GeometricMasks.MaskRectangle | sparrowmonolith/mask/geometric.py:61-111 | an empty range fails with IndexError; otherwise a cell is True exactly when its row lies between the first and last row bounds and its column between the first and last column bounds, inclusive |
| GeometricMasks.MaskSubarray | sparrowmonolith/mask/geometric.py:113-150 | the same failure; otherwise each cell is the negation of the rectangle mask's cell |
| GeometricMasks.MaskColumns | sparrowmonolith/mask/geometric.py:152-184 | a cell is True exactly when its column is in the list |
| GeometricMasks.MaskRows | sparrowmonolith/mask/geometric.py:186-218 | a cell is True exactly when its row is in the list |
| GeometricMasks.SinglePixelsTestTransposed | sparrowmonolith/_test/test_mask/test_mask_geometric.py:12-42 | the test expects cell (row 3, column 1) set; the generator as written leaves it False and sets (1, 3) instead |
| GeometricMasks.SinglePixelsTestRowMajor | sparrowmonolith/_test/test_mask/test_mask_geometric.py:12-42 | with the axes in numpy's order, the listed pairs give exactly the test's expected 6x6 mask |
| GeometricMasks.SinglePixelsTranspose | sparrowmonolith/mask/geometric.py:54-55 | the as-written and corrected single-pixel masks are transposes of each other |
| MaskCombine.CombineMasksLor | sparrowmonolith/mask/common.py:11-83 | no masks give None; one mask fails (AttributeError); for two or more, the result succeeds iff every shape equals mask 0's; on failure it names the first mismatching index; on success it has mask 0's shape and a cell is set iff some mask sets it |
| MaskCombine.CombineMasksLand | sparrowmonolith/mask/common.py:85-157 | the same outcomes, with a cell set iff every mask sets it |
| MaskCombine.CombineOrderIrrelevant | sparrowmonolith/mask/common.py:57-76 | a combined cell depends only on which masks take part, not on their order or repetition |
| MaskCombine.CombineIdentities | sparrowmonolith/mask/common.py:54-78 | adding an all-False mask to an OR, or an all-True mask to an AND, changes no cell |
| InvalidMasks.MaskInvalidAll | sparrowmonolith/mask/invalid.py:12-29 | the stub returns None for every input |
| InvalidMasks.MaskInvalidInfinity | sparrowmonolith/mask/invalid.py:32-50 | an entry is masked exactly when it is +inf or -inf |
| InvalidMasks.MaskInvalidNan | sparrowmonolith/mask/invalid.py:52-71 | an entry is masked exactly when it is NaN |
| InvalidMasks.InvalidMasksPartition | sparrowmonolith/mask/invalid.py:32-71 | no entry is in both masks; finite entries are in neither; the union is exactly the non-finite entries |
| InvalidMasks.InvalidAllIsNotUnion | sparrowmonolith/mask/invalid.py:12-29 | the stub never returns the union of the infinity and NaN masks |
| InvalidMasks.InfinityScenario | sparrowmonolith/_test/mask/test_mask_invalid.py:11-46 | on the test's 6x6 array the infinity mask is the expected one, and the NaN mask is all False |
| ValueMasks.MaskMaximumValue | sparrowmonolith/mask/value.py:207-230 | an entry is masked exactly when it is strictly above the maximum |
| ValueMasks.MaskMinimumValue | sparrowmonolith/mask/value.py:232-254 | an entry is masked exactly when it is strictly below the minimum |
| ValueMasks.ThresholdsPartition | sparrowmonolith/mask/value.py:207-254 | at one bound no entry is in both masks, and their union is exactly the entries different from the bound; raising the bound shrinks the maximum mask and grows the minimum mask |
| ValueMasks.MaskExactValue | sparrowmonolith/mask/value.py:256-283 | an entry is masked exactly when `np.isclose(entry, exact)` holds (rtol 1e-5, atol 1e-8, tolerance scaled by the exact value) |
| ValueMasks.ExactValueTolerance | sparrowmonolith/mask/value.py:277-280 | an equal entry is masked, and so is one within atol; a masked entry lies within atol + rtol*abs(exact) of the exact value |
| ValueMasks.IsCloseAsymmetric | sparrowmonolith/mask/value.py:277-280 | the closeness test is not symmetric in its two arguments |
| ValueMasks.ExactValueScenario | sparrowmonolith/_test/test_mask/test_mask_value.py:235-254 | on the test's integers with exact value 7, exactly entries 0, 6 and 12 are masked |
| ValueMasks.Cut | sparrowmonolith/mask/value.py:197-203 | the OR of the minimum and maximum masks: an entry is masked exactly when it is below the lower cut or above the upper cut |
| ValueMasks.MaskPixelTruncation | sparrowmonolith/mask/value.py:156-205 | fails with IndexError exactly when the top count is 0 or either count reaches N; otherwise an entry is masked exactly when it is above `sorted[N - top - 1]` or below `sorted[bottom]` |
| ValueMasks.MaskPixelTruncationFixed | sparrowmonolith/mask/value.py:156-205 | the corrected truncation: fails only when a count reaches N, with the same cuts |
| ValueMasks.PixelTruncationFixedAgrees | sparrowmonolith/mask/value.py:193-194 | for every positive top count the two truncations agree |
| ValueMasks.PixelTruncationZeroTop | sparrowmonolith/mask/value.py:193 | on [1, 2, 3] with top 0 and bottom 1, the code as written fails while the corrected version masks only the minimum |
| ValueMasks.PixelTruncationTies | sparrowmonolith/mask/value.py:193-203 | equal entries always receive the same verdict |
| ValueMasks.PixelTruncationCount | sparrowmonolith/mask/value.py:156-205 | at most top + bottom entries are masked, and exactly that many when the entries are distinct and top + bottom <= N |
| ValueMasks.PixelTruncationTieScenario | sparrowmonolith/mask/value.py:193-203 | on [1, 2, 3, 3] with one from each end, only the minimum is masked: ties with the upper cut are kept |
| ValueMasks.PercentCount | sparrowmonolith/mask/value.py:128-130 | the count is `floor(N * percent)`, a non-negative integer k with k <= N*percent < k + 1 |
| ValueMasks.MaskPercentTruncation | sparrowmonolith/mask/value.py:91-154 | failures are IndexError, and a success has one verdict per entry |
| ValueMasks.PercentCountReachesAll | sparrowmonolith/mask/value.py:128-130 | for N > 0 the floored count reaches N iff the fraction is at least 1 |
| ValueMasks.PercentTruncationFails | sparrowmonolith/mask/value.py:128-135 | the percent truncation fails exactly when N * top_percent < 1, or either fraction is at least 1 |
| ValueMasks.PercentTruncationBound | sparrowmonolith/mask/value.py:128-135 | a successful percent truncation masks at most N * (top + bottom) entries |
| ValueMasks.PrecisionDiagnostic | sparrowmonolith/mask/value.py:141-152 | as written, the error is never reported; the warning is given exactly when log10(N) > -log10(resolution) - 5 |
| ValueMasks.PrecisionDiagnosticFixed | sparrowmonolith/mask/value.py:141-152 | the corrected check: error iff log10(N) > -log10(resolution); warning iff it lies within 5 below that; quiet otherwise |
| ValueMasks.PrecisionDiagnosticAgrees | sparrowmonolith/mask/value.py:141-152 | the two checks agree exactly when log10(N) <= -log10(resolution) |
| ValueMasks.PrecisionDiagnosticScenario | sparrowmonolith/mask/value.py:141-152 | with resolution 1e-18 and 1e19 pixels, the code as written warns where the corrected check errs |
| ValueMasks.SigmaBounds | sparrowmonolith/mask/value.py:48-63 | one number gives equal bottom and top multiples; a list gives its first and last entries (equal for a single entry); an empty list fails with IndexError |
| ValueMasks.Compress | sparrowmonolith/mask/value.py:70-73 | `data[~mask]` holds N minus the masked count of entries, each taken from the data |
| ValueMasks.Kept | sparrowmonolith/mask/value.py:70-73 | the positions a mask leaves unrejected: N minus the masked count of them, each a position of the mask |
| ValueMasks.KeptUnmasked | sparrowmonolith/mask/value.py:70-73 | every listed position is unmasked |
| ValueMasks.KeptIncreasing | sparrowmonolith/mask/value.py:70-73 | the listed positions are strictly increasing |
| ValueMasks.KeptComplete | sparrowmonolith/mask/value.py:70-73 | every unmasked position is listed |
| ValueMasks.CompressKept | sparrowmonolith/mask/value.py:70-73 | the compressed data is exactly the data at the unmasked positions, in increasing order: entry j is the data at the j-th unmasked position |
| ValueMasks.CompressNothing | sparrowmonolith/mask/value.py:66-73 | compressing by an all-False mask returns the data unchanged |
| ValueMasks.SigmaStep | sparrowmonolith/mask/value.py:69-87 | one round keeps every entry already masked and returns one verdict per entry |
| ValueMasks.SigmaClip | sparrowmonolith/mask/value.py:66-89 | zero rounds mask nothing; after one or more rounds every entry outside mean - bottom*std .. mean + top*std of the whole data is masked |
| ValueMasks.SigmaRounds | sparrowmonolith/mask/value.py:66-89 | the loop from the all-False mask gives the mask after the requested number of rounds |
| ValueMasks.MaskSigmaValue | sparrowmonolith/mask/value.py:14-89 | fewer than one iteration fails with InputError; an empty multiple list fails with IndexError; otherwise the result is the mask after the requested rounds |
| ValueMasks.SigmaClipGrows | sparrowmonolith/mask/value.py:66-87 | an entry masked after m rounds stays masked after any n >= m rounds |
| ValueMasks.SigmaClipWidens | sparrowmonolith/mask/value.py:86-87 | each round only adds entries to the mask |
| ValueMasks.SigmaClipCountGrows | sparrowmonolith/mask/value.py:66-87 | the number of masked entries never decreases from round to round |
| ValueMasks.SigmaClipOnce | sparrowmonolith/mask/value.py:69-87 | after one round, an entry is masked exactly when it lies outside mean - bottom*std .. mean + top*std of the whole data |
| Sorting.Sort | sparrowmonolith/mask/value.py:188 | the sorted data is ascending and a permutation of the input |
| DictRavel.Lower | sparrowmonolith/object/dict/common.py:44 | lower-casing keeps the length and maps each character through ASCII lower-casing |
| DictRavel.LowerIdempotent | sparrowmonolith/object/dict/common.py:44 | lower-casing twice is lower-casing once |
| DictRavel.ParseConflict | sparrowmonolith/object/dict/common.py:44-47 | the lower-cased argument selects raise, superior or inferior; anything else fails with InputError |
| DictRavel.ParseConflictCaseless | sparrowmonolith/object/dict/common.py:44 | the parse ignores letter case |
| DictRavel.SortItems | sparrowmonolith/object/dict/common.py:53 | the items are a permutation of the dictionary's items, in ascending key order |
| DictRavel.Merge | sparrowmonolith/object/dict/common.py:65-91 | a shared key fails with DataError under `raise`; otherwise the keys are the union, collected values win on shared keys under `superior`, and produced values win under `inferior` |
| DictRavel.RavelDictionary | sparrowmonolith/object/dict/common.py:4-94 | a bad conflict argument fails with InputError before anything else; otherwise the loop gives the fold over the sorted items, whose whole result under each rule is stated by RavelRaise, RavelSuperior and RavelInferior |
| DictRavel.RavelInferior | sparrowmonolith/object/dict/common.py:50-91 | under `inferior`, for every dictionary, the result is the map of all atoms in visit order with a later atom of a key overriding an earlier one |
| DictRavel.RavelSuperior | sparrowmonolith/object/dict/common.py:50-91 | under `superior`, for every dictionary, the result is the map of all atoms in visit order with an earlier atom of a key overriding a later one |
| DictRavel.RavelRaise | sparrowmonolith/object/dict/common.py:50-73 | under `raise`, DataError exactly when two atoms at any depths share a key, and otherwise the map of all atoms |
| DictRavel.DistinctKeysConcat | sparrowmonolith/object/dict/common.py:65 | the keys of two runs of atoms are all distinct exactly when each run's are and no key is in both, the intersection test the code makes |
| DictRavel.RavelKeys | sparrowmonolith/object/dict/common.py:9-10 | under every rule, the keys of a successful result are exactly the keys of the atoms: keys of entries holding dictionaries are dropped; only `raise` fails |
| DictRavel.MapOfLast | sparrowmonolith/object/dict/common.py:83 | in the map built from pairs, a key holds the value of its last pair |
| DictRavel.MapOfFirstAt | sparrowmonolith/object/dict/common.py:78 | in the map built first-wins from pairs, a key holds the value of its first pair |
| DictRavel.RavelLastVisitedWins | sparrowmonolith/object/dict/common.py:79-83 | under `inferior`, a key takes the atom visited last among those holding it, whatever its depth |
| DictRavel.RavelFirstVisitedWins | sparrowmonolith/object/dict/common.py:74-78 | under `superior`, a key takes the atom visited first among those holding it, whatever its depth |
| DictRavel.RavelNoOverlap | sparrowmonolith/object/dict/common.py:50-91 | when no leaf key repeats, every rule gives the map of all leaf entries |
| DictRavel.RavelFoldStep | sparrowmonolith/object/dict/common.py:88-91 | an item whose keys are new is simply added to the collected entries |
| DictRavel.RavelFlat | sparrowmonolith/object/dict/common.py:53-62 | a dictionary without nested values ravels to itself: the same keys, the same values |
| DictRavel.RavelConflictScenario | sparrowmonolith/object/dict/common.py:65-83 | for `{a: 1, b: {a: 2}}`: raise fails with DataError, superior keeps a=1, inferior gives a=2 |
| DictRavel.LeafEntriesPairs | sparrowmonolith/object/dict/common.py:50-62 | the atoms with their depths, with the depth dropped, are exactly the atoms the code visits, in its order |
| DictRavel.Settle | sparrowmonolith/object/dict/common.py:22-29 | each key is settled on one of its own entries, and every key of an entry is settled |
| DictRavel.SettleWins | sparrowmonolith/object/dict/common.py:22-29 | under `superior` the settled entry is the least nested of its key, the earliest among equals; under `inferior` the most nested, the latest among equals |
| DictRavel.WinsUnique | sparrowmonolith/object/dict/common.py:22-29 | a key has at most one winning entry |
| DictRavel.RavelByDepth | sparrowmonolith/object/dict/common.py:4-35 | the documented ravel fails with DataError exactly when the rule is `raise` and two atoms share a key |
| DictRavel.RavelByDepthPrecedence | sparrowmonolith/object/dict/common.py:22-29 | the documented ravel holds exactly the keys of the atoms, each with the atom of its winning entry |
| DictRavel.RavelDepthScenario | sparrowmonolith/object/dict/common.py:65-83 | for `{a: {z: 1}, z: 2}` as written: raise fails, superior keeps the nested z=1, inferior gives the top-level z=2 |
| DictRavel.RavelByDepthScenario | sparrowmonolith/object/dict/common.py:22-29 | for the same dictionary, the documented precedence gives z=2 under superior and z=1 under inferior |
| StringAffix.AddPrefix | sparrowmonolith/string/common.py:10-27 | the result starts with the prefix and continues with the string |
| StringAffix.AddSuffix | sparrowmonolith/string/common.py:29-46 | the result is the string followed by the suffix |
| StringAffix.DropLastPython | sparrowmonolith/string/common.py:112 | `s[:-n]`: empty for n = 0, otherwise the string less its last n characters, which follow it to make up the string |
| StringAffix.DeletePrefix | sparrowmonolith/string/common.py:48-84 | as written: when `removeprefix` exists the string is returned unchanged; otherwise a present prefix is removed and an absent one leaves the string alone |
| StringAffix.DeleteSuffix | sparrowmonolith/string/common.py:86-122 | as written: when `removesuffix` exists the string is returned unchanged; otherwise a present non-empty suffix is removed, an empty suffix gives '', and an absent one leaves the string alone |
| StringAffix.StripPrefix | sparrowmonolith/string/common.py:48-84 | the corrected deletion: a present prefix is removed, otherwise the string is unchanged |
| StringAffix.StripSuffix | sparrowmonolith/string/common.py:86-122 | the corrected deletion: a present suffix (including the empty one) is removed, otherwise the string is unchanged |
| StringAffix.StripPrefixRoundTrip | sparrowmonolith/string/common.py:10-84 | deleting a prefix just added gives back the string |
| StringAffix.StripSuffixRoundTrip | sparrowmonolith/string/common.py:29-122 | deleting a suffix just added gives back the string |
| StringAffix.DeletePrefixFallback | sparrowmonolith/string/common.py:71-76 | the fallback branch is the corrected deletion |
| StringAffix.DeleteSuffixFallback | sparrowmonolith/string/common.py:109-114 | for a non-empty suffix the fallback branch is the corrected deletion |
| StringAffix.DeletePrefixDiscards | sparrowmonolith/string/common.py:67-70 | with `removeprefix` available, deleting a non-empty prefix just added does not give back the string, whereas the corrected one does |
| StringAffix.DeleteSuffixDiscards | sparrowmonolith/string/common.py:105-108 | with `removesuffix` available, deleting a non-empty suffix just added does not give back the string, whereas the corrected one does |
| StringAffix.DeleteSuffixEmptyClears | sparrowmonolith/string/common.py:111-112 | on the fallback, an empty suffix turns a non-empty string into ''; the corrected deletion leaves it unchanged |
| StringAffix.ReplaceAll | sparrowmonolith/string/common.py:157 | `str.replace(sub, '')` never lengthens the string, and an empty substring leaves it unchanged |
| StringAffix.ReplaceAllLength | sparrowmonolith/string/common.py:157 | the length drops by |sub| for each non-overlapping occurrence removed |
| StringAffix.ReplaceAllAbsent | sparrowmonolith/string/common.py:157 | a substring that does not occur leaves the string unchanged |
| StringAffix.ReplaceAllReforms | sparrowmonolith/string/common.py:156-157 | one pass can leave the substring in the result: "aabb" without "ab" is "ab" |
| StringAffix.Listed | sparrowmonolith/string/common.py:145-152 | one string becomes a one-element list, a list or tuple is kept, and anything else is rejected |
| StringAffix.DeleteAllEmptySubstrings | sparrowmonolith/string/common.py:156-157 | deleting only empty substrings leaves the string unchanged |
| StringAffix.DeleteAll | sparrowmonolith/string/common.py:156-157 | deleting any list of substrings never lengthens the string |
| StringAffix.DeleteAllConcat | sparrowmonolith/string/common.py:156-157 | deleting the list p + q is deleting p, then q |
| StringAffix.DeleteSubstrings | sparrowmonolith/string/common.py:124-161 | an argument that is neither a string nor a list fails with InputError; otherwise the loop gives the deletions in list order, no longer than the input |
| Statistics.SumConcat | sparrowmonolith/math/statistics.py:36 | the sum of a concatenation is the sum of the sums |
| Statistics.ArithmeticMean | sparrowmonolith/math/statistics.py:16-40 | the mean times N is the sum |
| Statistics.MeanBounds | sparrowmonolith/math/statistics.py:34-39 | the mean lies between any lower and upper bound of the entries |
| Statistics.MeanConstant | sparrowmonolith/math/statistics.py:34-39 | the mean of a constant array is that constant |
| Statistics.MeanScenario | sparrowmonolith/_test/test_math/test_math_statistics.py:17-36 | the test's 19 values have mean 1109/19 |
| Statistics.Add | sparrowmonolith/math/statistics.py:36 | Python's `+` on int, float and Decimal fails with TypeError exactly when a float meets a Decimal; otherwise it adds the values |
| Statistics.PySumTypes | sparrowmonolith/math/statistics.py:34-36 | `sum` from the int 0 fails exactly when the entries hold both a float and a Decimal; otherwise it is the exact sum, a float exactly when some entry is a float, and a Decimal exactly when some entry is a Decimal |
| Statistics.MeanAsWritten | sparrowmonolith/math/statistics.py:34-38 | `arithmetic_mean` with the entries' own types fails with TypeError exactly when some entry is a float; otherwise it is the exact mean |
| Statistics.MeanFloatScenario | sparrowmonolith/math/statistics.py:34-38 | on the floats [1.5, 2.5] the code as written fails with TypeError, whereas the mean is 2 |
| Statistics.Median | sparrowmonolith/math/statistics.py:45-80 | for odd N, the middle entry of the sorted data; for even N, the mean of the two sorted entries at N/2 - 1 and N/2 |
| Statistics.MedianPermutation | sparrowmonolith/math/statistics.py:66 | the median depends only on the multiset of entries |
| Statistics.MedianOddIsEntry | sparrowmonolith/math/statistics.py:69-72 | for odd N the median is one of the entries |
| Statistics.MeanOfTwo | sparrowmonolith/math/statistics.py:76 | the mean of two entries is their midpoint |
| Statistics.MedianWithin | sparrowmonolith/math/statistics.py:66-76 | the median lies between the sorted entries at `(N-1)//2` and `N//2` |
| Statistics.MedianBetween | sparrowmonolith/math/statistics.py:45-76 | some entry is at most the median and some entry is at least it |
| Statistics.MedianHalves | sparrowmonolith/math/statistics.py:45-76 | at least half the entries are <= the median and at least half are >= it |
| Statistics.SquaredDeviationsSign | sparrowmonolith/math/statistics.py:110 | the total squared deviation is non-negative, and zero for a constant array at its centre |
| Statistics.Radicand | sparrowmonolith/math/statistics.py:106-114 | the radicand times N - ddof is the total squared deviation from the mean |
| Statistics.RadicandSign | sparrowmonolith/math/statistics.py:106-114 | the quantity under the square root is non-negative when N > ddof, and non-positive when N < ddof |
| Statistics.RadicandConstant | sparrowmonolith/math/statistics.py:106-114 | a constant array has zero deviation |
| Statistics.PopulationScenario | sparrowmonolith/_test/test_math/test_math_statistics.py:94-110 | the test's population data (ddof 0) has mean 943/20 and radicand 467971/400, whose root is the expected sqrt(467971)/20 |
| Statistics.SampleScenario | sparrowmonolith/_test/test_math/test_math_statistics.py:111-127 | the test's sample data (ddof 1) has mean 236/5 and radicand 62116/95, whose root is the expected 2*sqrt(15529/95) |

## Left out

- Logging, warnings and messages are not modelled. Only the kind of each raised failure is kept.
- The DevelopmentError for keyword arguments to the combinators is left out: a sequence argument cannot carry keywords.
- `np.as_array` for a single mask: numpy has no such function, so the call fails. It is modelled as `Err(AttributeError)`.
- `synthesize_masks`, called by the value masks, is not part of this model. It is taken to be the elementwise OR of its arguments, and its name is not checked for existence.
- Geometric masks are modelled for two-dimensional data only.
- Negative indexes are excluded by preconditions (numpy counts them from the end). The same goes for negative pixel counts and percentages.
- Percentages are not range-checked by the code. The model follows the code, so a percentage of 1 or more fails like the corresponding count.
- Floating point is modelled as exact reals. This covers `np.longdouble` and `Decimal` precision.
- ValueMasks.MaskExactValue: on integer data, `np.full_like(data_array, exact_value)` (`mask/value.py:277`) takes the data's integer dtype and truncates a fractional exact value, so 7.5 becomes 7 and the source masks the entries equal to 7; the model compares against 7.5 itself and masks none of them.
- Statistics.ArithmeticMean: the mean of the values, as the function documents. The code fails with TypeError when an entry is a Python float (a float sum divided by `Decimal(N)`, or a float added to a Decimal); `MeanAsWritten` models that failure and the finding below records it.
- Statistics.Radicand: the same TypeError is not modelled. `standard_deviation` calls `arithmetic_mean` first (`math/statistics.py:106`), so float data fails there.
- Statistics.Radicand: requires N != ddof. The source divides `total_of_delta_squared` by 0 there, which raises a `decimal` division error, or ZeroDivisionError for an int total.
- Statistics.Median: for even N with float entries the source's call to `arithmetic_mean` fails with TypeError (the sorted entries stay floats); the model gives the midpoint.
- ValueMasks.MaskPixelTruncation: on integer data the cut values are numpy integers, and `decimal.Decimal` of a numpy integer raises TypeError in `mask_maximum_value` (`mask/value.py:226`) and `mask_minimum_value` (`mask/value.py:250`). The model treats every entry as a real and does not capture that failure. The same holds for ValueMasks.MaskPercentTruncation, which calls it.
- GeometricMasks.MaskSinglePixels: a non-negative index past the end of its axis is excluded by a precondition; numpy raises IndexError there (`mask/geometric.py:55`). The same holds for GeometricMasks.MaskSinglePixelsRowMajor, GeometricMasks.MaskColumns (line 180) and GeometricMasks.MaskRows (line 214).
- DictRavel.SortItems: keys are strings only. Python compares mixed key types with `<` and raises TypeError while sorting (`object/dict/common.py:53`); that failure is not modelled.
- The square root in `standard_deviation` is left out. The model stops at its radicand (`Radicand`), and the scenario lemmas state the radicand of the expected values.
- MaskSigmaValue: the robust mean and standard deviation (`ifas_robust_mean`, `ifas_robust_std`) are not part of this model. They are function parameters, so the contract relates the result to the rounds, not to numeric limits.
- ValueMasks.MaskSigmaValue: `mono.mask_nothing`, `mono.math.ifas_robust_mean` and `mono.math.ifas_robust_std` (`mask/value.py:66-72`) are not exported by the package's `__init__.py` files: the top level re-exports the error names and the submodules, and `math/__init__.py` only the submodules. As written, every call that passes the iteration check and the parsing of the multiples would raise AttributeError before the first round. The model instead takes `mono.mask_nothing` to be the all-False mask of `mask/geometric.py:220` and the two statistics to be the function parameters above.
- Statistics.ArithmeticMean, Median and Radicand require a non-empty array. The source divides by zero or indexes an empty list there.
- Statistics.SquaredDeviationsSign: proves "zero for a constant array" but not the converse, "zero only for a constant array".
- The median tests of `test_math_statistics.py` (lines 44-80) are not restated; Median's contract and MedianWithin state the general rule.
- The `test_mask_count_truncation` tests call `mask_count_truncation`, which the library does not define. They are not restated; PixelTruncationTieScenario states the tie behaviour on already sorted data.
- DictRavel.Lower: lower-cases ASCII letters only. Python's `str.lower` also folds other scripts.
- `ravel_dictionary`'s conversion of a non-dict argument with `dict(...)` is left out. The argument is always a dictionary value.
- `random_string` depends on the secrets module's randomness and is left out.
- `mask_invalid_all` is a stub in the source and is modelled as one.

## Findings

| source | as written | input that shows it | evidently intended | confidence | as-written member | corrected member |
|---|---|---|---|---|---|---|
| sparrowmonolith/mask/geometric.py:55 | `masked_array[columndex, rowdex] = True` puts the column index on the row axis | columns [1,2,3,5,5,5], rows [3,1,4,0,3,5] from the module's test: cell (row 3, column 1) stays False | `masked_array[rowdex, columndex]`, giving the test's expected mask | not executed | GeometricMasks.SinglePixelsTestTransposed | GeometricMasks.SinglePixelsTestRowMajor |
| sparrowmonolith/mask/value.py:193 | `sorted_data[:-top_count][-1]` with `top_count == 0` slices to an empty array and raises IndexError | data [1, 2, 3], top 0, bottom 1 | keep everything up to the maximum (`sorted_data[N - top_count - 1]`) | not executed | ValueMasks.PixelTruncationZeroTop | ValueMasks.PixelTruncationCount |
| sparrowmonolith/string/common.py:70 | `string.removeprefix(prefix)` discards its result, so on Python 3.9+ the prefix is never removed | "ab" + "x" with prefix "ab" | return the string without the prefix | not executed | StringAffix.DeletePrefixDiscards | StringAffix.StripPrefixRoundTrip |
| sparrowmonolith/string/common.py:108 | `string.removesuffix(suffix)` discards its result, so on Python 3.9+ the suffix is never removed | "x" + "ab" with suffix "ab" | return the string without the suffix | not executed | StringAffix.DeleteSuffixDiscards | StringAffix.StripSuffixRoundTrip |
| sparrowmonolith/string/common.py:112 | `string[:-len(suffix)]` with an empty suffix is `string[:0]`, the empty string | "abc" with suffix "" on the fallback branch | the string unchanged | not executed | StringAffix.DeleteSuffixEmptyClears | StringAffix.StripSuffixRoundTrip |
| sparrowmonolith/mask/value.py:141-152 | the error test `log10(N) > -log10(res)` comes after the weaker warning test `log10(N) > -log10(res) - 5`, so the error is never reported | resolution 1e-18, N = 1e19 pixels: only a warning | error past the resolution, warning within five orders of it | not executed | ValueMasks.PrecisionDiagnostic | ValueMasks.PrecisionDiagnosticFixed |
| sparrowmonolith/object/dict/common.py:65-83 | a conflict keeps the entry visited first (`superior`) or last (`inferior`), whatever its depth, for every dictionary (RavelFirstVisitedWins, RavelLastVisitedWins); the docstring (lines 22-29) gives precedence to the least or most nested entry | `{"a": {"z": 1}, "z": 2}`: superior gives z = 1 (the nested value), inferior z = 2 | superior keeps the least nested entry and inferior the most nested, ties going by key order | not executed | DictRavel.RavelDepthScenario | DictRavel.RavelByDepthPrecedence |
| sparrowmonolith/math/statistics.py:34-38 | `np.array(..., dtype=Decimal)` keeps Python floats as floats, so `sum` gives a float (or fails on a Decimal) and `summation / Decimal(N)` raises TypeError | [1.5, 2.5] | the documented arbitrary-precision mean, 2 | not executed | Statistics.MeanFloatScenario | Statistics.ArithmeticMean |
