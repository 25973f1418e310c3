# Deduplication strategies

This project models the deduplication strategies behind the Java `Dedup` interface
in `src/Dedup.java`. Each strategy takes an array of words and returns a new array
holding each distinct word once. The model covers:

- `BasicDedup`: a brute-force compaction of the caller's array behind a write
  cursor `count`. Every word is checked by a linear `isDuplicate` scan of the words
  kept so far.
- `SortDedup`: `Arrays.sort` on the caller's array, then compaction of runs of
  equal neighbours.
- `CollectionDedup` with its `ListDedup`/`ArrayListDedup` and
  `SetDedup`/`HashSetDedup`/`TreeSetDedup` subclasses. The collection field is
  cleared, filled through `add`, then copied out.
- The factories and static wrappers that choose a strategy.
- The comparison count of `src/Analyse.java`, the annotated copy of `BasicDedup`.
- The validator `isCorrectDedup` of `src/com/company/DedupTest.java`.
- The repetition loop of the benchmark in `src/com/company/Innlevering1.java`,
  for what each timed run is handed.

Modules:

- `StringOrder`: `String.compareTo` as lexicographic order on `seq<char>`, with
  its strict total order laws.
- `DedupSpec`: the reference definitions. `NoRepeats`, `Elems` (the set of
  values) and `FirstOccurrences` (each value where it first occurs, in input
  order). `FirstOccurrences` is characterised as the only sequence with the
  input's values in first-occurrence order.
- `Sorting`: the contract of `Arrays.sort` (sorted and a permutation, which
  pins down one array), `TreeSet` insertion, run compaction, and `Ascending`
  (the distinct values in ascending order, characterised as the only strictly
  ascending sequence of the input's values).
- `Analyse`: `ScanCost` and `Cost`, the number of `equals` calls, with the
  best-case, worst-case and quadratic bounds of the analysis.
- `Dedup`: the strategies as methods over `array<string>`. `CollectionDedup`
  is a class whose `coll` field is a sequence in iteration order. `DedupWith`
  dispatches on a `Strategy` tag and states every strategy's promise.
- `DedupTest`: `isCorrectDedup` and the predicate it decides.
- `Harness`: the timed-run loop as written, with only the copy its comment
  announces, and with a copy for every run.

`BasicDedup` and `SortDedup` work inside the caller's array. The model states the
exact array they leave behind (`AfterBasic`, `AfterSort`). After `SortDedup` the
array is sorted only until compaction starts. Compaction then writes the distinct
words over the front of the sorted array, so the final array is in general not
sorted (`SortDedupLeavesArrayUnsorted`). The collection strategies only read the
caller's array.

`src/Analyse.java` holds a word-for-word copy of `BasicDedup`. It is modelled once,
by `Dedup.BasicDedup` and `Dedup.IsDuplicate`, which carry a ghost count of
`equals` calls equal to `Analyse.Cost`.

## Model

| member | source | states |
|---|---|---|
| `StringOrder.LessIrreflexive` | src/Dedup.java:171 | No word precedes itself in the natural order of strings. |
| `StringOrder.LessAsymmetric` | src/Dedup.java:171 | Two words never precede each other. |
| `StringOrder.LessTransitive` | src/Dedup.java:171 | The natural order of strings is transitive. |
| `StringOrder.LessTotal` | src/Dedup.java:171 | Of two different words, one precedes the other. |
| `DedupSpec.ElemsSize` | src/Dedup.java:119-123 | A sequence has at most as many distinct values as elements, and exactly as many when it has no repeats. |
| `DedupSpec.FirstIndex` | src/Dedup.java:157-162 | The first position of a value: before the end exactly when the value occurs, the value is there, and it does not occur earlier. |
| `DedupSpec.FirstOccurrences` | src/Dedup.java:146-155 | The first occurrences of the input have no repeats, the same values as the input, and are no longer than it. |
| `DedupSpec.FirstOccurrencesInOrder` | src/Dedup.java:146-155 | The first occurrences list values in the order of their first positions in the input. |
| `DedupSpec.FirstOccurrencesCharacterized` | src/Dedup.java:146-155 | A sequence is the first occurrences of the input exactly when it has the input's values in first-occurrence order. |
| `DedupSpec.FirstOccurrencesOfDistinct` | src/Dedup.java:146-155 | An input without repeats is its own first occurrences. |
| `DedupSpec.FirstOccurrencesIdempotent` | src/Dedup.java:146-155 | Taking first occurrences twice changes nothing more. |
| `DedupSpec.FirstOccurrencesAbsorbs` | src/Dedup.java:146-155 | Words appended after an input, all of whose values it already has, do not change its first occurrences. |
| `DedupSpec.FirstOccurrencesStep` | src/Dedup.java:148-153 | Reading one more word appends its value to the kept words exactly when it is not among them. |
| `DedupSpec.InsertNew` | src/Dedup.java:210 | Inserting a new value anywhere keeps a sequence free of repeats and adds exactly that value. |
| `DedupSpec.SubsetOfSameSize` | src/com/company/DedupTest.java:101-107 | A subset as large as its finite superset is that superset. |
| `Sorting.StrictlySortedNoRepeats` | src/Dedup.java:215-218 | A strictly ascending sequence has no repeats. |
| `Sorting.SortSeq` | src/Dedup.java:171 | The sorted array is sorted and a permutation of the input. |
| `Sorting.SortedPermutationsEqual` | src/Dedup.java:171 | Two sorted permutations of one input are equal, so any sort leaves the same array. |
| `Sorting.TreeInsert` | src/Dedup.java:210-217 | Adding to a tree set adds exactly that value and keeps the set strictly ascending. |
| `Sorting.Compact` | src/Dedup.java:172-178 | Compacting runs keeps the values and the last word, is no longer than its input, and is strictly ascending when the input is sorted. |
| `Sorting.Ascending` | src/Dedup.java:170-180 | The ascending distinct words are strictly ascending and have the input's values. |
| `Sorting.AscendingCharacterized` | src/Dedup.java:170-180 | A sequence is the ascending distinct words of the input exactly when it is strictly ascending with the input's values. |
| `Analyse.ScanCost` | src/Analyse.java:26-36 | One scan makes at most len comparisons. All of them are made when the word is absent. Otherwise it stops at the first equal kept word. |
| `Analyse.Cost` | src/Analyse.java:12-36 | The `equals` calls of the whole dedup: one isDuplicate scan of the words kept so far per word read, so at least one per word after the first. `Dedup.BasicDedup` counts exactly this many. |
| `Analyse.CostAtMostPairs` | src/Analyse.java:33-51 | The comparisons of the whole dedup are at most 0 + 1 + ... + (n - 1). |
| `Analyse.CostQuadraticBound` | src/Analyse.java:38-51 | The whole dedup makes at most n(n-1)/2 comparisons. |
| `Analyse.CostAtMostSquare` | src/Analyse.java:38-51 | The comparisons never exceed n squared. |
| `Analyse.CostOfDistinct` | src/Analyse.java:26-51 | Without duplicates every word is kept, and the comparisons are exactly 0 + 1 + ... + (n - 1). |
| `Analyse.CostWithoutDuplicates` | src/Analyse.java:26-51 | Without duplicates every word is kept and exactly n(n-1)/2 comparisons are made, the worst case. |
| `Analyse.CostAllEqual` | src/Analyse.java:14-36 | When all n words are equal one word is kept and n-1 comparisons are made. |
| `Analyse.RunningTimeBound` | src/Analyse.java:38-51 | A + nA + cost times C + B is bounded by T(N) = n^2C + nA + A + B. |
| `Dedup.CopyOf` | src/Dedup.java:154 | Arrays.copyOf within bounds returns a fresh array with the first n words. |
| `Dedup.CopyOfPadded` | src/Dedup.java:179 | Arrays.copyOf past the end pads the fresh array with null slots. |
| `Dedup.IsDuplicate` | src/Dedup.java:157-162 | True exactly when the word equals one of the first len words, and the comparisons made are ScanCost of that prefix. |
| `Dedup.AfterBasic` | src/Dedup.java:146-155 | The caller's array after BasicDedup keeps its length: the kept words at the front, then the input's words past the cursor, as they were. |
| `Dedup.KeepStep` | src/Dedup.java:149-152 | Writing a word not kept before at the cursor extends the kept words by it and leaves the words past the cursor alone. |
| `Dedup.BasicDedup` | src/Dedup.java:146-155 | Returns the first occurrences of the input in a fresh array, leaves the kept words in front of the input's words past the cursor, and makes Cost(input) comparisons. |
| `Dedup.BasicDedupExample` | src/Dedup.java:127-137 | {"så", "gjør", "vi", "så"} deduplicates to {"så", "gjør", "vi"}. |
| `Dedup.AfterBasicSettles` | src/Dedup.java:146-155 | Deduplicating the array BasicDedup left behind gives the same result and leaves the same array. |
| `Dedup.SortInPlace` | src/Dedup.java:171 | After Arrays.sort the array is sorted and a permutation of what it was. |
| `Dedup.CompactRuns` | src/Dedup.java:172-178 | On a non-empty array, count is the length of the compacted array, which fills the front ahead of the untouched rest. On an empty array count stays 1. |
| `Dedup.CompactStep` | src/Dedup.java:174-177 | A word equal to its left neighbour leaves the compacted prefix as it is. Any other word, written at the cursor, extends the prefix by it and leaves the rest alone. |
| `Dedup.AfterSort` | src/Dedup.java:170-180 | The caller's array after SortDedup keeps its length, with the ascending distinct words at the front and the rest of the sorted array behind them. |
| `Dedup.SortAndCompact` | src/Dedup.java:171-178 | The first count words are the ascending distinct words of the input, and the array ends as AfterSort of the input. |
| `Dedup.SortDedupLeavesArrayUnsorted` | src/Dedup.java:171-178 | For any words a before b, {a, a, a, b} is left as {a, b, a, b}, which is not sorted. |
| `Dedup.SortDedupAsWritten` | src/Dedup.java:170-180 | A non-empty input gives its ascending distinct words. An empty input gives one null slot. |
| `Dedup.SortDedupOfEmptyAsWritten` | src/Dedup.java:172-179 | An empty input gives an array of length 1 holding null. |
| `Dedup.SortDedup` | src/Dedup.java:170-180 | Returns the ascending distinct words, empty for an empty input, and leaves AfterSort of the input in the caller's array. |
| `Dedup.CollectionDedup.constructor` | src/Dedup.java:187 | A new strategy owns an empty collection of the chosen kind. |
| `Dedup.CollectionDedup.Add` | src/Dedup.java:202-211 | Adds exactly the word's value. The list appends only a word it lacks and always answers true. A set answers whether the word was new, and a tree set stays ascending. |
| `Dedup.CollectionDedup.Dedup` | src/Dedup.java:189-198 | Returns the collection's contents without repeats and with the input's values: first occurrences for the list, ascending for the tree set. The input array is not written. |
| `Dedup.ReusedCollectionDedup` | src/Dedup.java:189-191 | A strategy used twice gives each input its own result, because dedup clears the collection first. |
| `Dedup.Promise` | src/Dedup.java:119-123 | What each strategy's result holds: no repeats and the input's values, in first-occurrence order for Basic and ArrayList, ascending for Sort and TreeSet, in no stated order for HashSet. |
| `Dedup.DedupWith` | src/Dedup.java:20-103 | Every factory's strategy meets its promise and leaves the caller's array as stated for that strategy. The Sort case runs the corrected `SortDedup`, which differs from the code only on an empty array. |
| `Dedup.PromiseSize` | src/Dedup.java:119-123 | Every result has one word per distinct input value and is no longer than the input. |
| `Dedup.PromiseIdempotent` | src/Dedup.java:119-123 | Deduplicating a result again returns it unchanged, or for the hash set the same values. |
| `Dedup.PromiseOrder` | src/Dedup.java:146-217 | Basic and array-list results follow first-occurrence order. Sort and tree-set results are strictly ascending. |
| `Dedup.SortedStrategiesAgree` | src/Dedup.java:146-217 | SortDedup and TreeSetDedup return the same array, and so do BasicDedup and ArrayListDedup. |
| `DedupTest.CorrectDedup` | src/com/company/DedupTest.java:96-108 | What isCorrectDedup decides: the output has as many words as the input has distinct values, and each of its words occurs in the input. |
| `DedupTest.IsCorrectDedup` | src/com/company/DedupTest.java:96-108 | True exactly when the output is as long as the number of distinct input values and each of its words occurs in the input. Neither array is written. |
| `DedupTest.OracleExactWithoutRepeats` | src/com/company/DedupTest.java:101-107 | For an output without repeats, the oracle accepts exactly when the output has the input's values. |
| `DedupTest.OracleAcceptsRepeats` | src/com/company/DedupTest.java:101-107 | The oracle accepts {"a", "a"} for {"a", "b"}, though the values differ. |
| `DedupTest.IsCorrectDedupStrict` | src/com/company/DedupTest.java:96-108 | True exactly when the output has no repeats and has the input's values. |
| `DedupTest.StrategiesPassOracle` | src/com/company/DedupTest.java:11-17 | Every result that keeps its strategy's promise passes the oracle against its input. For Sort this is the corrected `SortDedup`: the code's {null} for an empty array fails the oracle. |
| `DedupTest.OverwrittenArrayHasSameValues` | src/Dedup.java:146-180 | The array BasicDedup or SortDedup leaves behind holds the same values as before. |
| `Harness.TimedRunsAsWritten` | src/com/company/Innlevering1.java:99-115 | The untimed run at line 103 rewrites the sample in place, and the alias at line 108 hands that array on. So every timed BasicDedup run is handed AfterBasic of the sample, every collection run the sample, and the first SortDedup run AfterSort of the sample. The final result still keeps the strategy's promise for the sample. |
| `Harness.AliasedRuns` | src/com/company/Innlevering1.java:105-115 | The timed loop with the alias: for BasicDedup and the collections every run is handed the array the untimed run left, the first run always is, and the last result keeps the promise for the sample. |
| `Harness.AliasedRun` | src/com/company/Innlevering1.java:108-112 | One aliased timed run: it is handed the array the earlier runs left, leaves that array as stated for the strategy, and returns a result keeping the promise for the sample. |
| `Harness.PromiseCarries` | src/com/company/Innlevering1.java:103-112 | A result that keeps the promise for the array an earlier run left also keeps it for the sample, because that array holds the sample's values and, after BasicDedup, its first occurrences. |
| `Harness.SettledAfterRun` | src/com/company/Innlevering1.java:103 | The array a run leaves holds the values it was handed, and for a collection strategy is that array itself. |
| `Harness.SettledStep` | src/com/company/Innlevering1.java:108-112 | A later run on the array BasicDedup left changes it no further, so every timed run finds the same array. |
| `Harness.AliasedRunsSeeOverwrittenSample` | src/com/company/Innlevering1.java:103-112 | For any two different words a and b, the timed runs on the sample {a, a, b} see {a, b, b}, which costs 3 comparisons instead of the sample's 2. |
| `Harness.RunOnCopy` | src/com/company/Innlevering1.java:107-112 | A run on a fresh copy is handed the sample as drawn and returns a result that keeps the strategy's promise for it. |
| `Harness.TimedRunsCopyingInLoop` | src/com/company/Innlevering1.java:103-112 | With only the copy the comment at line 107 announces, every timed run is handed a copy of what the untimed run left: AfterBasic of the sample for BasicDedup, the same as with the alias, and AfterSort of it for SortDedup. |
| `Harness.CopiedRuns` | src/com/company/Innlevering1.java:105-115 | The timed loop with a copy per run: every run is handed a copy of the same array, and the last result keeps the promise for the sample. |
| `Harness.TimedRunsOnCopies` | src/com/company/Innlevering1.java:103-112 | With a copy for every run, the untimed one included, every run is handed the sample as drawn, and the result keeps the strategy's promise for it. |

## Left out

- Sampling words from files, timing with `Stopwatch` and `System.nanoTime`, CSV
  and console output, argument checks and `System.exit` in both benchmark
  programs. These are I/O and measurement. The timed-run loop is modelled only for
  which array each run is handed.
- `v1`, `v2` and `v3` in both benchmark programs: `v3` uses floating-point
  `Math.log`, and the others are long division of timings.
- `src/Innlevering1.java` is a second copy of the benchmark and is not part of
  this model. It also hands the same `uniques` array to the untimed and every
  timed run (lines 91 and 96), so the in-place effect modelled by
  `Harness.TimedRunsAsWritten` occurs there too.
- `DedupTest.run`, `test` and `print`, and `Dedup.main`: sampling, timing and
  printing.
- `Utils.Sampler`, `Utils.Stopwatch` and `Utils.Output` are not part of this model.
  They wrap files and clocks.
- Null arrays and null words make `equals` and `Arrays.sort` throw. The model's
  words are never null. The one null it records is the slot that `SortDedup` adds
  for an empty input.
- String order is lexicographic on Dafny characters. Java compares UTF-16 code
  units, which agree for every character in the basic multilingual plane.
- `Arrays.sort` is modelled by its contract, sorted and a permutation. That
  contract fixes the resulting array, so the algorithm inside does not matter.
- `Dedup.CollectionDedup.Add`: a `HashSet` is modelled as a sequence in iteration
  order, with a new word inserted at a position the set chooses. Rehashing can
  also reorder words already present, which this does not capture. So the model
  promises no order for `HashSetDedup`, only no repeats and the input's values.
- `ListDedup.add` uses `List.contains`. It is modelled as sequence membership
  with `equals`, which for strings is value equality.
- `count` and the loop indices are Java `int`. Array lengths stay below 2^31, so
  they cannot overflow, and they are modelled as unbounded integers.
- `Harness.TimedRunsAsWritten` states what the first timed `SortDedup` run is
  handed, but not the later ones. Each of them is handed what the previous run
  left, and that array has no closed form in the model.
- `Harness.TimedRunsAsWritten` and `Harness.TimedRunsOnCopies` take the strategy
  as a parameter. The benchmark's `dedups` array holds only BasicDedup and
  HashSetDedup (src/com/company/Innlevering1.java:16-20), so the model
  generalises the loop to every strategy.
- `Dedup.DedupWith` builds a fresh strategy object for every run. The benchmark
  shares one static `Dedup` per strategy across all runs and sample sizes
  (src/com/company/Innlevering1.java:16-20). No stated contract depends on
  this: `CollectionDedup.Dedup` clears its collection first, and its result
  does not depend on what the collection held (`Dedup.ReusedCollectionDedup`).
- The timed runs' averaging of elapsed times is not modelled. Only the inputs
  of the runs and the final result are.
- `Dedup.DedupWith`, `Dedup.PromiseSize`, `Dedup.PromiseIdempotent`,
  `Dedup.PromiseOrder` and `Dedup.SortedStrategiesAgree` take the Sort strategy
  to be the corrected `Dedup.SortDedup`. The code's version, modelled by
  `Dedup.SortDedupAsWritten`, differs only on an empty array, where it returns
  {null} instead of an empty array.
- `DedupTest.StrategiesPassOracle` covers results that keep the corrected
  promise. The code's SortDedup result {null} for an empty input fails
  isCorrectDedup, because the set of input values is empty and the output has
  length 1 (src/com/company/DedupTest.java:101).

## Findings

| source | as written | input that shows it | evidently intended | confidence | as-written member | corrected member |
|---|---|---|---|---|---|---|
| src/Dedup.java:172-179 | `count` starts at 1, so for an empty array `Arrays.copyOf(strings, 1)` returns one null slot | an empty array gives {null} | an empty array gives an empty array, as every other strategy does | not executed | `Dedup.SortDedupOfEmptyAsWritten` | `Dedup.SortDedup` |
| src/com/company/DedupTest.java:96-108 | the oracle compares the output's length with the number of distinct values and checks membership, but does not reject repeats | original {"a", "b"}, dedup {"a", "a"} is accepted | accept only outputs without repeats that hold every value of the original | not executed | `DedupTest.OracleAcceptsRepeats` | `DedupTest.IsCorrectDedupStrict` |
| src/com/company/Innlevering1.java:103-108 | line 103 deduplicates the sample itself, in place, and `testList = uniques` at line 108 then hands that array to every timed run, although the comment at line 107 speaks of a copy. A copy at line 108 alone would still hand BasicDedup the overwritten array (`Harness.TimedRunsCopyingInLoop`) | sample {a, a, b} with a different from b: BasicDedup's timed runs see {a, b, b} and make 3 comparisons instead of 2 | every run, the untimed one included, is handed a fresh copy of the sample | not executed | `Harness.TimedRunsAsWritten` | `Harness.TimedRunsOnCopies` |
