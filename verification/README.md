# Primo link statistics in Dafny

This project models three small, pure pieces of Primo's inter-component
communication (ICC) link pipeline and proves properties of them.

- **Power-set enumeration** (`linking/util.py`). `PowersetList` starts from
  `[[]]`. For each input element it appends a copy of every subset built so
  far, extended by that element. `Powerset` turns the result into a set of sets.
- **Validation statistics** (`linking.validation`, known through
  `primo/linking/validation_test.py`):
  - `IndexForProbability` puts a score into one of `n` buckets of width `w`.
  - `BuildContingencyTable` counts (intent, target) pairs in a 2-by-n table: one row for incorrect pairs, one for correct pairs, with one column per bucket. A pair is correct when the ground truth lists its target under its intent.
  - `CalculateGamma` is the Goodman–Kruskal gamma of that table.
- **Result records** (`linking.write_results`, known through
  `primo/linking/write_results_test.py`). `MakeResultsArray` flattens an
  ordered map from component intents to (targets, probabilities). It writes
  one nine-field record per (intent, target) pair, in map order and then
  target order.

Files:
- `wrappers.dfy`: `Option` and `Result`.
- `powerset.dfy`: module `Powerset`.
- `validation.dfy`: module `Validation`.
- `write_results.dfy`: module `WriteResults`.

Scores, probabilities and gamma are exact rationals (`real`). Python lists
and dictionaries become `seq`, and the ground truth is a `map`. The
implementations of `linking/validation.py` and `linking/write_results.py`
are not part of this model. Their behaviour is taken from the assertions of
their tests.

## Model

| member | source | states |
|---|---|---|
| Powerset.PowersetList | linking/util.py:19-30 | The doubling loop returns exactly the reference list `Subsets(xs)`. That list has 2^n entries, and its first entry is the empty subset. |
| Powerset.Subsets | linking/util.py:25-29 | The list after all elements have been processed has length 2^n and starts with the empty subset. |
| Powerset.EmptyInputGivesEmptySubsetOnly | linking/util.py:22-27 | An empty (or null) input yields exactly `[[]]`. |
| Powerset.EarlierEntriesArePrefix | linking/util.py:28-29 | After k elements the list is the power set of those k elements. Processing more elements keeps it unchanged as a prefix. |
| Powerset.EntriesAreSubsequences | linking/util.py:29 | Every produced subset lists its elements in input order: it is a subsequence of the input. |
| Powerset.SubsequenceIndex | linking/util.py:29 | Every subsequence of the input is produced, and the lemma returns its index. |
| Powerset.EntriesAreExactlySubsequences | linking/util.py:29 | A list is an entry of the result if and only if it is a subsequence of the input. |
| Powerset.EntriesWithinInput | linking/util.py:29 | Each entry uses only elements of the input. |
| Powerset.EntriesHaveDistinctElements | linking/util.py:29 | For an input without repetitions, two entries with the same element set are the same entry. |
| Powerset.NoDuplicateSubsets | linking/util.py:29 | For an input without repetitions, the result has no duplicate subsets. |
| Powerset.Powerset | linking/util.py:33-34 | The set-of-sets view always contains the empty set. |
| Powerset.MembersAreSubsets | linking/util.py:33-34 | Every member of `Powerset` is a subset of the input's elements. |
| Powerset.SubsetsAreMembers | linking/util.py:33-34 | Every subset of the input's elements is a member of `Powerset`. |
| Powerset.PowersetMembers | linking/util.py:33-34 | The members of `Powerset` are exactly the subsets of the input's elements, in both directions. |
| Powerset.PowersetCardinality | linking/util.py:28-34 | For n distinct input elements, `Powerset` has exactly 2^n members. |
| Powerset.TwoElementExample | linking/util.py:26-29 | `['a', 'b']` gives `[[], ['a'], ['b'], ['a', 'b']]`, in doubling order. |
| Validation.IndexForProbability | primo/linking/validation_test.py:39-44 | The bucket index is below `n`. The bucket's lower edge is at most the score. Unless the index was clamped to `n - 1`, its upper edge is above the score, so it is `floor(p / w)`. |
| Validation.IndexIsMonotonic | primo/linking/validation_test.py:39-44 | A higher score never falls into a lower bucket. |
| Validation.IndexExamples | primo/linking/validation_test.py:39-44 | With width 0.1 and ten buckets: 0 gives 0, 0.51 gives 5, and 1 is clamped from 10 to 9. |
| Validation.Tally | primo/linking/validation_test.py:46-67 | The table has n columns in both rows, and its cells add up to the number of observations. |
| Validation.TallyCounts | primo/linking/validation_test.py:46-67 | Each cell holds the number of observations with its truth value and bucket. |
| Validation.BuildContingencyTable | primo/linking/validation_test.py:46-67 | The table is 2-by-n, and each (intent, target) pair increments exactly one cell. The total therefore equals the number of pairs. |
| Validation.CellsCountPairs | primo/linking/validation_test.py:46-67 | Each cell counts the pairs with that truth value whose score falls in that bucket. |
| Validation.ObservationOfPair | primo/linking/validation_test.py:46-67 | Pair k of link i is counted as correct exactly when its intent is in the ground truth and lists its target. It goes into the bucket of its own score. |
| Validation.TableIgnoresVisitOrder | primo/linking/validation_test.py:47-50 | The table does not depend on the order in which intents are visited: any permutation of the links gives the same table. |
| Validation.UnknownIntentPairIsIncorrect | primo/linking/validation_test.py:46-55 | In any mix of known and unknown intents, every pair of an intent missing from the ground truth is counted as incorrect. |
| Validation.UnknownIntentsCountAsIncorrect | primo/linking/validation_test.py:46-55 | When no intent is in the ground truth, the correct row is zero and the incorrect row holds every pair. |
| Validation.ExampleObservations | primo/linking/validation_test.py:47-50 | Scores 20, 30, 60 and 80 with width 25 fall into buckets 0, 1, 2 and 3. |
| Validation.TableWithUnknownIntentExample | primo/linking/validation_test.py:46-55 | When Intent 1 is missing from the ground truth, the table is `[[1,1,0,0],[0,0,1,1]]`. |
| Validation.TableWithKnownIntentsExample | primo/linking/validation_test.py:57-67 | When both intents are known, the table is `[[0,1,1,0],[1,0,0,1]]`. |
| Validation.CalculateGamma | primo/linking/validation_test.py:69-81 | Gamma lies in [-1, 1]. It is 1 exactly when there are concordant pairs and no discordant ones, and -1 in the mirror case. It is positive exactly when concordant pairs outnumber discordant ones, and 0 exactly when the two counts are equal. |
| Validation.SwappingRowsNegatesGamma | primo/linking/validation_test.py:70-75 | Exchanging the two rows negates gamma. |
| Validation.PerfectConcordanceGivesOne | primo/linking/validation_test.py:70-72 | Gamma is 1 when every incorrect pair lies in a lower bucket than every correct pair, and both kinds occur. |
| Validation.PerfectDiscordanceGivesMinusOne | primo/linking/validation_test.py:73-75 | Gamma is -1 when every correct pair lies in a lower bucket than every incorrect pair, and both kinds occur. |
| Validation.EmptyTableGammaZero | primo/linking/validation_test.py:69-81 | A table with no counted pair has gamma 0. |
| Validation.GammaExamples | primo/linking/validation_test.py:69-81 | The four tables of the test give 1, -1, 0 and 1/3. |
| WriteResults.EncodeEntry | primo/linking/write_results_test.py:69-88 | One intent gives one row per target. Row k describes the triple (intent, target k, probability k), so the rows follow target order. |
| WriteResults.EncodeAll | primo/linking/write_results_test.py:63-67 | There is one row per (intent, target) pair. |
| WriteResults.MakeResultsArray | primo/linking/write_results_test.py:109-110 | The array is produced exactly when the declared total equals the number of pairs, and then it has that many rows. Otherwise the error names both numbers. |
| WriteResults.RowOfPair | primo/linking/write_results_test.py:63-107 | Target k of entry i is written at row `pairs before entry i + k`: map order first, then target order. |
| WriteResults.PairOfRow | primo/linking/write_results_test.py:69-107 | Every row position belongs to some (entry, target) position. |
| WriteResults.PairOfRowUnique | primo/linking/write_results_test.py:69-107 | No two (entry, target) positions share a row position, so with `PairOfRow` each row belongs to exactly one pair. |
| WriteResults.EncodePairIsOnlyDescription | primo/linking/write_results_test.py:69-78 | The row written for a pair is the only record whose nine fields describe that pair. |
| WriteResults.RowFields | primo/linking/write_results_test.py:69-107 | Every field of a pair's row holds what it should. Field 0 is the intent id, field 1 is 1 iff explicit, and fields 2-4 are 1 iff categories, class and data are present. Field 5 is the target id, and field 6 is 1 iff the target requires a permission. Field 7 is the probability, unchanged. Field 8 is 1 iff both sides share an application. |
| WriteResults.RowSource | primo/linking/write_results_test.py:69-107 | Conversely, every row of the array describes the (entry, target) pair at its position. |
| WriteResults.ExampleRecords | primo/linking/write_results_test.py:45-110 | The test's two intents with two targets each give exactly the four expected records. |
| WriteResults.ExampleMismatch | primo/linking/write_results_test.py:109 | Declaring 3 rows for those four pairs is refused with `RowCountMismatch(3, 4)`. |

## Left out

- The link resolver, the attribute-weight tables and the k-fold orchestration are not part of this model. Neither is loading applications, components, intents and intent filters from protobuf files (`primo/linking/fetch_data.py`), nor the command-line and experiment drivers, nor the build configuration.
- The ground truth and the resolved links are given inputs of the model: a `map` from intents to their true targets, and a sequence of links with their targets and scores.
- numpy arrays and record dtypes: a row is a Dafny datatype and the output is a `seq`.
- Floating-point rounding: scores, probabilities and gamma are exact `real`s.
- The positional constructor arguments of `Intent` and `ComponentIntent` are not modelled. The kept attributes are the ones a record reads: categories, class, data, application, id and the explicit flag. The action is kept as well, but only so that the test's second intent can be described; no field depends on it.
- Powerset.PowersetList: a Python `None` input is modelled as the empty list, which the function treats the same way.
- Validation.IndexForProbability: scores are required to be non-negative, and the tests use none. If the implementation truncates (for example with `int()`), a negative score would land in a different bucket than the floor used here gives.
- Validation.BuildContingencyTable: the column count `n` is an explicit parameter, because the rule deriving it from the bucket width is not part of this model. Link dictionaries are sequences in iteration order; `TableIgnoresVisitOrder` shows that the order does not matter.
- Validation.CalculateGamma: when there are neither concordant nor discordant pairs, gamma is taken to be 0. This is a modelling choice, because the implementation's behaviour for that case is not shown.
- WriteResults.MakeResultsArray: a declared total that differs from the number of pairs is modelled as an error result. The implementation is not part of this model.
- WriteResults.EncodePair: the test pins field 3 (target class) but not which of fields 2 and 4 is categories and which is data. The order categories, class, data is chosen here.
