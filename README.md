# Voice-import sanity check: diphone coverage of feature table and CART

This project models the sanity check from MARY TTS voice building
(`marytts.tools.voiceimport.SanityChecker`) and proves properties of the model.
The check counts, for every diphone, how many half-phone units realise it. It
does this twice: once from the half-phone feature table and once from the unit
indices stored in the leaves of the CART built over the same units. It then
reports the diphones whose two counts differ.

- **Table pass** (`SanityChecker.ComputeCoverage`). It walks the feature
  vectors in array order and skips sentinel units (unit index ≤ 0) and right
  halves (`halfphone_lr` is `"R"`). Every other unit goes into the set under
  `phone(previous row) + "_" + phone(this row)`. The previous row is read
  before the right-half test. So a first row with a positive unit index makes
  the pass read position −1 and fail.
- **Tree pass** (`SanityChecker.ComputeCARTCoverage`). It gathers every
  leaf's unit indices into one list. It skips an index that is:
  - ≤ 0;
  - ≥ the table size, with a warning;
  - a right half;
  - one whose predecessor `u - 1` is not in the list, found by the linear
    search `ContainsUnitIndex`.

  Every other index goes under the key of table rows `u - 1` and `u`.
- **Comparison** (`PrintSanityCheckDetails`, `PrintDataToFile`). Both copy
  the table map into an array of (diphone, count) records and sort it by
  count with `CompareTo`. They then pair each record with the size of the
  tree's set for the same diphone, or 0 when the tree has no such key.
  - `PrintSanityCheckDetails` lists the matching diphones first, then the
    mismatching ones, and counts the mismatches. The check succeeds exactly
    when there are none.
  - `PrintDataToFile` writes one row per table diphone in sorted order. It
    does not split the rows by agreement and counts nothing.

The project has three modules:
- `Diphones` (`diphones.dfy`) defines both maps as functions of the inputs
  and proves exactly which unit indices each set holds.
- `Comparison` (`comparison.dfy`) holds the record type, its order, the
  in-place sort and the report lines.
- `SanityCheck` (`sanity_checker.dfy`) holds the `SanityChecker` class. Its
  two map fields are replaced by the passes, and each pass is proved to build
  the map its function defines.

## Model

| member | source | states |
|---|---|---|
| `Diphones.Insert` | java/marytts/tools/voiceimport/SanityChecker.java:139-148 | the set under the key gains the unit index (created when the key is new); the key set grows by that key alone and every other key keeps its set |
| `Diphones.TableCoverage` | java/marytts/tools/voiceimport/SanityChecker.java:123-149 | every key of the table map holds at least one unit index, since a set is only created to receive one |
| `Diphones.TableCoverageExactly` | java/marytts/tools/voiceimport/SanityChecker.java:123-149 | unit index c is in the table set under k if and only if some row i ≥ 1 has unit index c > 0, is not "R", and k is phone(row i−1) + "_" + phone(row i) |
| `Diphones.TableHoldsOnlyLeftHalves` | java/marytts/tools/voiceimport/SanityChecker.java:126-131 | no table set holds an index ≤ 0, and every index in one comes from a non-"R" row past the first |
| `Diphones.TableUnitInOneSet` | java/marytts/tools/voiceimport/SanityChecker.java:135-148 | when no positive unit index is repeated in the table, a unit index lies in at most one table set |
| `Diphones.FlattenMembers` | java/marytts/tools/voiceimport/SanityChecker.java:167-175 | a unit index is in the flattened leaf list if and only if some leaf stores it |
| `Diphones.TreeCoverage` | java/marytts/tools/voiceimport/SanityChecker.java:180-216 | every key of the tree map holds at least one unit index |
| `Diphones.TreeCoverageExactly` | java/marytts/tools/voiceimport/SanityChecker.java:180-216 | u is in the tree set under k if and only if u was visited, 0 < u < table size, row u is not "R", u−1 is in the flattened list, and k is the key of table rows u−1 and u |
| `Diphones.TreeUnitInOneSet` | java/marytts/tools/voiceimport/SanityChecker.java:198-215 | the key depends on table rows u−1 and u alone, so a unit index lies in at most one tree set |
| `Diphones.TreeCoverageIgnoresDuplicates` | java/marytts/tools/voiceimport/SanityChecker.java:167-216 | two leaf lists with the same elements, in any order and with any repetition, give the same tree map |
| `Diphones.OutOfRange` | java/marytts/tools/voiceimport/SanityChecker.java:182-187 | the warned indices are exactly the listed indices that are positive and at least the table size |
| `Comparison.CompareTo` | java/marytts/tools/voiceimport/SanityChecker.java:34-38 | returns 0, −1 or 1 exactly when the count is equal to, less than or greater than the other's count |
| `Comparison.CompareToIsTotalPreorder` | java/marytts/tools/voiceimport/SanityChecker.java:34-38 | the order is antisymmetric and transitive, and records that compare equal compare alike with any third record |
| `Comparison.SortByCount` | java/marytts/tools/voiceimport/SanityChecker.java:293 | after the in-place sort the array is non-decreasing by count and a permutation of what it held |
| `Comparison.InsertLast` | java/marytts/tools/voiceimport/SanityChecker.java:293 | one insertion step: the prefix up to and including position i becomes sorted, the tail after i is unchanged, and the array stays a permutation |
| `Comparison.SwapNeighbours` | java/marytts/tools/voiceimport/SanityChecker.java:293 | exchanges two neighbours, leaves the rest, and keeps the multiset of records |
| `Comparison.TabulatesPermutation` | java/marytts/tools/voiceimport/SanityChecker.java:283-293 | a permutation of the map's records is still one record per key with that key's set size |
| `Comparison.CountsOf` | java/marytts/tools/voiceimport/SanityChecker.java:283-292 | the filled array holds exactly one (key, set size) record per key of the table map |
| `Comparison.SortedCounts` | java/marytts/tools/voiceimport/SanityChecker.java:283-293 | the record array is one record per table key with its set size, sorted by count |
| `Comparison.RowsWhereReports` | java/marytts/tools/voiceimport/SanityChecker.java:296-323 | filtering the records by agreement reports exactly the agreeing (or disagreeing) keys, once each, with their table and tree counts, and as many lines as such keys |
| `Comparison.RowsWhereSorted` | java/marytts/tools/voiceimport/SanityChecker.java:296-323 | filtering records sorted by count gives lines sorted by table count |
| `Comparison.ReconciliationReport` | java/marytts/tools/voiceimport/SanityChecker.java:295-323 | the OK lines are exactly the matching table diphones and the warning lines exactly the mismatching ones, each sorted by table count |
| `Comparison.NoMismatchIffAllMatch` | java/marytts/tools/voiceimport/SanityChecker.java:325-329 | there is no mismatching diphone if and only if every table diphone's tree count (0 when absent) equals its table count |
| `Comparison.CartOnlyKeysIgnored` | java/marytts/tools/voiceimport/SanityChecker.java:300-303 | adding tree-only keys changes neither the matching nor the mismatching diphones |
| `SanityCheck.SanityChecker.constructor` | java/marytts/tools/voiceimport/SanityChecker.java:58-59 | a new checker holds no diphones in either map (the Java fields start as null) |
| `SanityCheck.SanityChecker.ComputeCoverage` | java/marytts/tools/voiceimport/SanityChecker.java:110-150 | fails with an index −1 error exactly when the first row has a positive unit index, leaving the table map empty; otherwise the table map is the table-pass map of all rows; the tree map is untouched |
| `SanityCheck.SanityChecker.ComputeCARTCoverage` | java/marytts/tools/voiceimport/SanityChecker.java:153-217 | the tree map becomes the tree-pass map of the flattened leaves, the warnings are the out-of-range indices in list order, and the table map is untouched |
| `SanityCheck.SanityChecker.ContainsUnitIndex` | java/marytts/tools/voiceimport/SanityChecker.java:219-228 | returns true if and only if the index is an element of the list |
| `SanityCheck.SanityChecker.PrintSanityCheckDetails` | java/marytts/tools/voiceimport/SanityChecker.java:281-330 | OK lines report exactly the matching table diphones and warning lines exactly the mismatching ones, each sorted by table count; the fail count is the number of mismatching table diphones; success holds iff it is 0 iff every table diphone's tree count (0 when absent) equals its table count |
| `SanityCheck.SanityChecker.PrintDataToFile` | java/marytts/tools/voiceimport/SanityChecker.java:250-279 | the rows name every table diphone exactly once, each with its table count and tree count (0 when absent), sorted by table count |
| `SanityCheck.SanityChecker.Compute` | java/marytts/tools/voiceimport/SanityChecker.java:92-100 | fails exactly when the table pass fails, leaving the table map empty and the tree map as it was; otherwise both maps are the passes' maps and the result is true iff no table diphone mismatches |
| `SanityCheck.ConsistentCorpusReconciles` | java/marytts/tools/voiceimport/SanityChecker.java:123-216 | when every row's unit index is its position and the leaves store exactly the table's units, the table pass cannot fail, the table pass (array neighbour) and the tree pass (index − 1) build the same map, and nothing mismatches |

## Left out

- File loading is left out: `FeatureFileReader`, `MaryCARTReader`, `CART`, and the feature-name lookups (`getFeatureIndex`). Feature vectors are decoded rows `(unitIndex, phone, lr)` and the CART is the sequence of its leaves' unit-index arrays. Failures of those readers, and the cast of leaf data to `int[]`, are not modelled.
- `getFeatureAsString` decoding is left out: `phone` and `halfphone_lr` come already decoded as strings.
- The `halfphone_unitname` lookups (`prevStr`, `cStr`) are left out: they have no effect on the result.
- Console output is left out: the feature-name listing, the OK/NOT-OK lines and the summary. The lines are modelled as `CountRow(diphone, tableCount, treeCount)` sequences, and the tree-pass warning as the list of offending indices. Exact message texts are not modelled.
- `PrintDataToFile` returns the rows it would write. The `PrintWriter`, the file name and I/O failures are not modelled.
- `printData` is left out: it only prints and nothing calls it.
- `setupHelp`, `getDefaultProps`, `getName`, `getProgress` and `main` (configuration, help text, hard-coded paths) are not part of this model.
- `DiphoneCount.equals` is left out: it plays no part in sorting or in map keys.
- HashMap iteration order is unspecified. The model fills the record array in an arbitrary key order.
- SortByCount: its contract states sortedness by count and permutation only. It does not state that equal counts keep their relative order, as Java's object sort does: that order comes from the unspecified map iteration order anyway.
- Java `int` width is not modelled. Unit indices and counts are unbounded integers. The subtractions are `i - 1` (line 128, which is −1 only in the modelled failure) and `unitIndex - 1` on a positive index (lines 194 and 198). Neither can overflow, and set sizes are far below 2^31.
- Before the passes run, the two map fields are null in Java. The model's constructor starts them as empty maps instead, since a Dafny map has no null.
- The left/right flag is compared as the decoded string `"R"`, not as an enumeration.
- The table pass has no guard for the first row. A first row with a positive unit index ends the pass with an out-of-bounds error (SanityChecker.java:127-128), and the error propagates out of `Compute`.
