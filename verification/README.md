# Quine–McCluskey minimiser in Dafny

This project models the JavaScript `QuineMcCluskey` class and its helpers in
`utils.js`. Given a variable count and a list of minterm indexes, `solve` returns
a list of strings over `0`, `1` and `-`, one string per selected prime
implicant. Two versions of the engine are modelled:

- `src/QuineMcCluskey.js`, the full solver;
- the older root snapshot `QuineMcCluskey.js`, which only groups minterms and
  runs the merge rounds.

The root `utils.js` is the same as lines 1–44 of `src/utils.js`, so the members
of `Utils` model both files.

The pipeline, one module per stage:

| file | module | stage |
|---|---|---|
| `utils.dfy` | `Utils` | The helpers of `utils.js`. `toString(2)`, `split('1')`, `Math.log2`, `sort(sortingFn)` and `padStart`-style padding become integer and sequence functions. `Wrappers` holds `Option`. |
| `collections.dfy` | `Collections` | Flattening, `filter(Boolean)` on sparse arrays (`DropEmpty`), set-like insertion and deduplication. |
| `terms.dfy` | `Terms` | A term `{ indexes, used, diff }`; `#getDifference`; the merged term. |
| `grouping.dfy` | `Grouping` | `#groupMintermIndexes`: minterms bucketed by popcount. |
| `merging.dfy` | `Merging` | One merge pass (`#checkAndMergeTerms`) and the round loop (`#simplifyGroups`). |
| `rootmerging.dfy` | `RootMerging` | The same two operations as the root snapshot writes them, which does not deduplicate. |
| `primes.dfy` | `Primes` | `#findPrimeImplicants` and `#addIdToPIs`. |
| `chart.dfy` | `Chart` | The prime implicant chart: `#createRows`, `#groupPIsByIndexes`, `#createColumns`. |
| `cover.dfy` | `Cover` | The cover reduction `#extractAllEPIs` and all the table operations it uses. |
| `encoding.dfy` | `Encoding` | `#convertToBinaryRep`. |
| `solver.dfy` | `Solver` | `solve`, and what the whole pipeline guarantees. |

How the JavaScript is represented:

- **Missing values.** A term's `diff: null` is the empty sequence. A merged term always has a non-empty diff list, so structural equality is unchanged.
- **Sparse arrays.** Sparse arrays such as `groups[count] = …` and `newGroup[i] = …` are dense sequences with `[]` for the holes. `filter(Boolean)` is `DropEmpty`.
- **Sets.** A JavaScript `Set` is a duplicate-free sequence in insertion order.
- **Ids.** The prime implicant ids `p1…pN` are the numbers `1…N`. Row and column `label`s are the `key` of a `Line`, because `label` is a reserved word in Dafny.
- **`checkElementExistsInArray`.** It compares `JSON.stringify` strings. Every element is an object whose fields are printed in a fixed order, so a substring match lines up with whole elements. It is therefore modelled as structural membership in the nested array.
- **`used` flags.** The source flips them in place during a pass. In the model, a term is flagged when it was already flagged or when it merges with a term of the bucket above or the bucket below (`Merging.MarkUsedIff`).
- **Recursion.** `#simplifyGroups` terminates because its outer loop pairs adjacent buckets, running while `i < groups.length - 1`. The next round therefore has fewer buckets than the current one on every non-empty input (`Merging.CheckAndMergeTerms`), and the recursion decreases the bucket count. `#extractAllEPIs` terminates because every pass shrinks the chart (`Cover.StepProgress`).

Where the documented behaviour of the repository and its code disagree, the model follows the code:

- a merged term's diff list is the LOWER term's list plus the new distance;
- chart columns come in ascending minterm order, because `Object.keys` lists array-index keys (integers below 2^32 − 1) in ascending order;
- the output is in prime-implicant order, not in selection order.

## Model

| member | source | states |
|---|---|---|
| Utils.CountOnesIsPopCount | src/utils.js:6-8 | The count of `'1'` characters in the binary rendering of n is the arithmetic popcount of n. |
| Utils.BinaryStringRoundTrip | src/utils.js:63 | Reading back the binary rendering `n.toString(2)` gives n again. |
| Utils.BinaryStringBits | src/utils.js:63 | Character p from the right of the binary rendering is bit p of n, and the bits beyond the rendering are 0. |
| Utils.BinaryStringBounds | src/utils.js:63 | The rendering has exactly as many digits as n needs: n < 2^len, and 2^(len−1) ≤ n when n > 0. |
| Utils.IsPowerOfTwoIff | src/utils.js:15-17 | `isPowerOfTwo(n)` holds exactly when n = 2^k for some k. Zero and negative differences are rejected. |
| Utils.PowerIsPowerOfTwo | utils.js:15-17 | Every 2^k passes `isPowerOfTwo`. |
| Utils.Log2 | src/QuineMcCluskey.js:458 | `Math.log2` on a power of two is the exponent k with 2^k = n. |
| Utils.SortingFnIsStrictComparator | src/utils.js:25-31 | `sortingFn` never returns 0. It returns −1 exactly when a < b, and it is antisymmetric on distinct values. |
| Utils.SortSpec | src/QuineMcCluskey.js:114-118 | Sorting with `sortingFn` yields an ascending permutation of its input. |
| Utils.SortedPermutationUnique | src/QuineMcCluskey.js:114-118 | Two ascending permutations of the same multiset are equal, so the result of the sort does not depend on the order of the pairs being merged. |
| Utils.InsertSortedSpec | src/QuineMcCluskey.js:114-118 | One insertion step of the sort keeps the sequence sorted and adds exactly one copy of the element. |
| Utils.CheckElementExistsInArrayIff | src/utils.js:39-44 | The membership test holds exactly when some bucket of the array contains the element. |
| Utils.IsDominatedIff | src/utils.js:52-54 | `isDominated(a, b)` holds exactly when every element of a occurs in b. |
| Utils.IsDominatedReflexive | src/utils.js:52-54 | Every list is dominated by itself, and the empty list by every list. |
| Utils.IsDominatedTransitive | src/utils.js:52-54 | Domination is transitive. |
| Utils.ToBinaryShape | src/utils.js:62-68 | `toBinary` left-pads the rendering with zeros to max(bitLength, rendering length) characters, and the result still denotes n. |
| Utils.ToBinaryBits | src/utils.js:62-68 | Character p from the right of `toBinary(n, bitLength)` is bit p of n. |
| Utils.ToBinaryLength | src/utils.js:62-68 | When n < 2^bitLength and bitLength ≥ 1, the string has exactly bitLength characters. |
| Collections.DropEmptySpec | src/QuineMcCluskey.js:57 | `filter(Boolean)` on a sparse array keeps exactly the non-empty buckets in order, so no term is lost or added. |
| Collections.DedupSpec | src/QuineMcCluskey.js:121-130 | Adding terms only when absent leaves exactly the new terms not seen before, each once. |
| Collections.FilterOutSpec | src/QuineMcCluskey.js:280 | The id filter keeps exactly the ids not excluded. |
| Terms.GetDifferenceSpec | src/QuineMcCluskey.js:67-81 | `#getDifference(a, b)` is the distance b[0] − a[0] exactly when a is non-empty, b is at least as long, and b lies one and the same power of two above a at every position. Otherwise it is null. |
| Terms.DifferenceFromSpec | QuineMcCluskey.js:58-72 | Once position 0 has fixed a power-of-two distance d, the loop returns d exactly when every later position repeats d, and null otherwise. This is the loop as the snapshot writes it, with `isPowerOfTwo` inlined. |
| Terms.MergeShaped | src/QuineMcCluskey.js:109-119 | Merging two round-r terms at their distance gives a round-(r+1) term. Its indexes are the multiset union of the parents' indexes; it has one more diff entry, and every diff entry is a power of two. |
| Grouping.GroupMintermIndexesSpec | src/QuineMcCluskey.js:44-58 | The groups come in strictly increasing popcount. Each group is exactly the singleton terms of the minterms with that popcount, in input order, and every minterm is in some group. |
| Grouping.GroupMintermIndexesTerms | QuineMcCluskey.js:35-49 | Every grouped term is an unused singleton `{indexes: [m], diff: null}` of an input minterm. |
| Grouping.WithPopCountMember | src/QuineMcCluskey.js:47-54 | The reference bucket for popcount k holds exactly the singletons of the minterms whose popcount is k. |
| Merging.HasUpperPartnerIff | src/QuineMcCluskey.js:99-107 | A term finds a partner above exactly when some term of the next bucket lies a power-of-two distance above it. |
| Merging.HasLowerPartnerIff | src/QuineMcCluskey.js:96-107 | A term finds a partner below exactly when some term of the previous bucket lies a power-of-two distance below it. |
| Merging.MarkUsedIff | src/QuineMcCluskey.js:105-107 | After a pass, a term is flagged `used` exactly when it was already flagged or it merged with a term of an adjacent bucket. The buckets keep their sizes. |
| Merging.MarkUsedShaped | src/QuineMcCluskey.js:105-107 | Setting `used` flags changes nothing else about the terms. |
| Merging.AllMergesMember | src/QuineMcCluskey.js:92-133 | A term is among the merges of a pass exactly when it is the merge of a term of bucket i with a term of bucket i+1, for some i. |
| Merging.PairMergesMember | src/QuineMcCluskey.js:96-119 | For one pair of buckets, the merged terms are exactly the merges of the pairs at a power-of-two distance. |
| Merging.AddAllIfAbsentFlatten | src/QuineMcCluskey.js:121-130 | Appending a batch of merges, each only when absent, extends the round by exactly the not-yet-present terms, once each. |
| Merging.FillFromFlatten | src/QuineMcCluskey.js:92-134 | The outer loop leaves the round holding the pass's merges, deduplicated, in the order they were formed. |
| Merging.NewGroupSpec | src/QuineMcCluskey.js:89-136 | The next round is the merges of the pass, deduplicated and in formation order. Every term appears once, every term is a merge of adjacent buckets and every such merge appears, and there are no empty buckets. |
| Merging.NewGroupBuckets | src/QuineMcCluskey.js:92-135 | Before the holes are dropped, the next round has one bucket per pair of neighbouring buckets. Bucket i is indexed by the position of the pair, not by a popcount, and holds exactly the merges of buckets i and i+1 that no earlier bucket already holds, in loop order. `filter(Boolean)` then drops the empty buckets. |
| Merging.MergeAtShaped | src/QuineMcCluskey.js:109-119 | A merge of round-r terms is an unused round-(r+1) term, and its indexes are exactly the two parents' indexes. |
| Merging.NewGroupShaped | src/QuineMcCluskey.js:89-136 | The next round consists of round-(r+1) terms whose indexes do not exceed those of the current round. |
| Merging.NoMergeNoUse | src/QuineMcCluskey.js:105-107 | A pass that forms no merged term flags no term as used. |
| Merging.ParentMerges | src/QuineMcCluskey.js:105-130 | A term that merged with a neighbour leaves the next round non-empty, even when the merge was a duplicate. |
| Merging.PassFacts | src/QuineMcCluskey.js:152-159 | A pass keeps its round well shaped. When it merges something, the next round is shaped one level up with bounded indexes. When it merges nothing, every term of the round stays unused. |
| Merging.CheckAndMergeTerms | src/QuineMcCluskey.js:92 | The outer loop only pairs adjacent buckets, so on any non-empty input the next round has fewer buckets than this one. |
| Merging.SimplifyGroups | src/QuineMcCluskey.js:145-160 | The rounds returned extend the rounds given by at least one. A single group (or none) is recorded as it is. Every recorded round r consists of round-r terms, and the last round has no used term. |
| RootMerging.RootFillFromFlatten | QuineMcCluskey.js:83-130 | The snapshot's outer loop appends every merge of the pass, duplicates included, in formation order. |
| RootMerging.RootNewGroupSpec | QuineMcCluskey.js:80-132 | The snapshot's next round is all merges of adjacent buckets, with repetitions, and has no empty bucket. |
| RootMerging.RootNewGroupBuckets | QuineMcCluskey.js:83-131 | In the snapshot, bucket i of the next round holds every merge of buckets i and i+1, including merges that an earlier pair already formed. |
| RootMerging.RootAgreesUpToRepetition | QuineMcCluskey.js:80-132 | The src pass is the snapshot pass with repeated terms dropped: both flag the same terms used. |
| RootMerging.RootPassFacts | QuineMcCluskey.js:148-155 | The snapshot's pass keeps every guarantee of the src pass that the round loop needs. |
| RootMerging.RootNoMergeNoUse | QuineMcCluskey.js:96-99 | In the snapshot too, a pass that forms nothing flags nothing. |
| RootMerging.RootCheckAndMergeTerms | QuineMcCluskey.js:83 | The snapshot's pass also yields fewer buckets than it is given, on any non-empty input. |
| RootMerging.RootSimplifyGroups | QuineMcCluskey.js:141-156 | The snapshot's round loop terminates with the same guarantees as the src loop. |
| RootMerging.RootKeepsDuplicates | QuineMcCluskey.js:124-126 | On one concrete two-bucket input, the snapshot's next round holds the same merged term twice, and the src next round holds it once. |
| RootMerging.SrcScenarioNewGroup | src/QuineMcCluskey.js:121-130 | The src pass on the same input keeps the repeated merge once. |
| Primes.KeepUnusedMember | src/QuineMcCluskey.js:176 | The filter keeps exactly the unused terms. |
| Primes.FindPrimeImplicantsMember | src/QuineMcCluskey.js:168-177 | A term is a prime implicant exactly when it is unused and was recorded in some bucket of some round. |
| Primes.AddIdToPIsSpec | src/QuineMcCluskey.js:185-189 | The k-th prime implicant (from 0) receives id k+1 and keeps its term, and nothing is added or dropped. |
| Primes.IdsAreKeys | src/QuineMcCluskey.js:185-189 | The ids identify the prime implicants: equal ids mean equal entries, and the ids are 1…N. |
| Primes.GroupingIsRoundZero | src/QuineMcCluskey.js:44-58 | The grouped minterms are a well-shaped round 0, and the values they hold are exactly the minterms. |
| Primes.SimplifyCovers | src/QuineMcCluskey.js:145-160 | Every value held by the groups given to the round loop is held by an unused term of some later recorded round. |
| Primes.SimplifyValues | src/QuineMcCluskey.js:145-160 | Every recorded round holds only values that the groups given to the round loop hold. |
| Primes.PrimesCoverMinterms | src/QuineMcCluskey.js:168-177 | Every minterm lies in some prime implicant. |
| Primes.PrimesWithinMinterms | src/QuineMcCluskey.js:168-177 | A prime implicant holds only minterms, is unused, and is a well-shaped term of some round. |
| Chart.CreateRowsSpec | src/QuineMcCluskey.js:196-200 | There is one row per prime implicant, in order, labelled by its id and listing its indexes. |
| Chart.PushAllSpec | src/QuineMcCluskey.js:211-216 | Pushing one id under each of a term's indexes adds exactly those keys and that id, and leaves no list empty. |
| Chart.GroupPIsByIndexesSpec | src/QuineMcCluskey.js:207-220 | The keys are exactly the indexes held by some prime implicant. Each key lists exactly the ids of the prime implicants holding it, in ascending id order, and no list is empty. |
| Chart.AscendingKeys | src/QuineMcCluskey.js:232 | `Object.keys` on array-index keys (integers below 2^32 − 1) lists every key once, in ascending order. |
| Chart.CreateColumnsSpec | src/QuineMcCluskey.js:228-236 | There is one column per covered minterm, in ascending order, listing exactly the ids of the prime implicants holding it (ascending, non-empty). |
| Chart.InitialRows | src/QuineMcCluskey.js:476-478 | The initial rows are numbered 1…N and list the indexes of prime implicant k. |
| Chart.InitialColumns | src/QuineMcCluskey.js:476-479 | Column m of the initial chart lists id x exactly when prime implicant x holds m. |
| Chart.InitialChartWellFormed | src/QuineMcCluskey.js:476-479 | The chart `solve` builds is well formed: keys are distinct, no line is empty, every id names an existing line, and a row lists a column exactly when the column lists the row. |
| Chart.InitialMutual | src/QuineMcCluskey.js:196-236 | In the initial chart, a row lists a column exactly when the column lists the row. |
| Chart.TransposeWellFormed | src/QuineMcCluskey.js:343-362 | Well-formedness is symmetric in rows and columns. Removing rows with `#eliminateRows` and `#removeRowIds` therefore keeps a chart well formed exactly as removing columns does. |
| Cover.ExtractEPIsSpec | src/QuineMcCluskey.js:243-253 | The essential ids are, without repetition, exactly the ids of the columns that list a single row. |
| Cover.EliminateSpec | src/QuineMcCluskey.js:263-265 | The kept lines are exactly those whose label is not excluded, in order. Removing an existing label strictly shortens the list, and distinct labels stay distinct. |
| Cover.RemoveIdsSpec | src/QuineMcCluskey.js:275-284 | Every line loses exactly the excluded ids, lines left empty are dropped, and distinct labels stay distinct. |
| Cover.CollectFromSpec | src/QuineMcCluskey.js:297-306 | The collected column labels are exactly the ids listed by the rows whose label is selected. |
| Cover.RemoveFromTableCovers | src/QuineMcCluskey.js:296-313 | Every column either meets a selected row or still has a column in the reduced chart whose rows it also has. |
| Cover.RemoveFromTableProgress | src/QuineMcCluskey.js:296-313 | Removing distinct existing rows together with their columns keeps the chart well formed and strictly smaller. Every selected row is gone and no new row appears. Other rows may go too, when all their columns were removed. Every column of the old chart is covered by a selected row or represented by a column that remains. |
| Cover.RowPassSpec | src/QuineMcCluskey.js:324-332 | Row i is marked in its inner loop exactly when some other row, still unmarked when it is met, lists all of row i's columns. |
| Cover.CheckRowDominanceSpec | src/QuineMcCluskey.js:320-335 | The dominated labels are distinct rows, each of which was dominated when it was examined. No unmarked row is dominated by an unmarked other row. Every marked row has an unmarked row listing all of its columns. |
| Cover.DropRowsWellFormed | src/QuineMcCluskey.js:343-362 | Removing rows and their ids from the columns keeps the chart well formed. |
| Cover.RowDominanceKeepsColumns | src/QuineMcCluskey.js:425-428 | Dropping the dominated rows leaves every column with at least one row. |
| Cover.RowDominanceProgress | src/QuineMcCluskey.js:423-430 | The row-dominance pass shrinks the chart, keeps it well formed, and leaves every column represented. |
| Cover.ColPassMembers | src/QuineMcCluskey.js:373-381 | While column i is unmarked, its inner loop marks exactly the other columns that list all of column i's rows. |
| Cover.CheckColDominanceSpec | src/QuineMcCluskey.js:369-384 | The dominating labels are distinct columns, each of which lists every row of some other column. When a column stays unmarked, every column containing its rows is marked. Every marked column contains an unmarked one. |
| Cover.DropColumnsWellFormed | src/QuineMcCluskey.js:263-284 | Removing columns and their labels from the rows keeps the chart well formed. |
| Cover.ColDominanceRepresents | src/QuineMcCluskey.js:436-437 | Every column dropped as dominating contains a column that survives. |
| Cover.ColDominanceProgress | src/QuineMcCluskey.js:433-439 | The column-dominance pass shrinks the chart, keeps it well formed, and leaves every column represented. |
| Cover.MostFromSpec | src/QuineMcCluskey.js:395-400 | The scan returns null only when it started empty and every row is empty. Otherwise it returns the earliest row with strictly the most ids seen, or keeps its start when nothing beats it. |
| Cover.FindRowWithMostColIdsSpec | src/QuineMcCluskey.js:391-403 | The result is null exactly when every row is empty. Otherwise it is the first row with the greatest number of ids. |
| Cover.EssentialProgress | src/QuineMcCluskey.js:413-420 | Taking the essential prime implicants shrinks the chart, keeps it well formed, and covers or represents every column. |
| Cover.StepProgress | src/QuineMcCluskey.js:412-449 | A pass of the reduction stops exactly when no rows are left. Otherwise it selects new distinct rows and yields a smaller well-formed chart in which every column is covered or represented. |
| Cover.ExtractAllEPIsSpec | src/QuineMcCluskey.js:412-449 | The result extends the given list and adds only row labels of the chart, without repetition. Every column of the chart is covered by a selected prime implicant. |
| Cover.EssentialsSelected | src/QuineMcCluskey.js:243-253 | A prime implicant that is the only one covering some minterm is always selected. |
| Encoding.Reverse | src/QuineMcCluskey.js:456 | Reversal puts element i at position len−1−i. |
| Encoding.MarkDiffSpec | src/QuineMcCluskey.js:457-459 | Cell p becomes `-` exactly when 2^p is a merged distance, and every other cell is untouched. |
| Encoding.EncodeSpec | src/QuineMcCluskey.js:455-460 | For a first index below 2^count, the string has count characters. The character q places from the right is `-` when 2^q was merged and bit q of the first index otherwise. |
| Encoding.EncodeNonEmpty | src/QuineMcCluskey.js:460-463 | The string of a selected prime implicant is never empty, so `filter(Boolean)` drops none of them. |
| Encoding.SelectedSpec | src/QuineMcCluskey.js:452-454 | The selected prime implicants are exactly those with an essential id, in their original order. |
| Encoding.ConvertToBinaryRepSpec | src/QuineMcCluskey.js:451-464 | The output has one string per selected prime implicant, in prime-implicant order. Each string is that prime implicant's encoding. |
| Solver.SolveOrder | src/QuineMcCluskey.js:470-486 | `solve` returns one string per chosen prime implicant, in ascending id order. The chosen ones are exactly the prime implicants whose id the cover reduction returned. |
| Solver.EssentialsCover | src/QuineMcCluskey.js:481 | The cover reduction on the initial chart covers every column. |
| Solver.SolveCovers | src/QuineMcCluskey.js:470-486 | Every minterm lies in a chosen prime implicant, and a chosen prime implicant holds only minterms. |
| Solver.ChosenShaped | src/QuineMcCluskey.js:476-483 | A chosen prime implicant is a well-shaped term of some round, and it holds only minterms. |
| Solver.SolveShape | src/QuineMcCluskey.js:470-486 | For minterms below 2^count, every output string has count characters. Position q from the right is `-` when that prime implicant merged distance 2^q, and bit q of its first minterm otherwise. |

## Left out

- The React front end (`src/App.js` and its components), `index.js` and the webpack configuration. They do no minimisation.
- The `Promise` that the snapshot's `async simplifyGroups` returns. Only the value it resolves to is modelled.
- Floating-point behaviour. Minterms are natural numbers. `isPowerOfTwo` is modelled as the exact integer test, which is false for 0 and for negative numbers, as NaN and −Infinity make it in JavaScript. For the differences of minterms below 2^32, the rounded base-2 logarithm is a whole number exactly when the difference is a power of two. Non-integer or negative minterm indexes are outside the model.
- Minterm indexes of 2^32 − 1 or more. The model treats every index as an exact integer key, and three things then fail in JavaScript:
  - `Object.keys` lists such keys in insertion order rather than ascending order, so `Chart.CreateColumnsSpec` and `Chart.AscendingKeys` do not describe the column order;
  - `Math.log2` can round a non-power to a whole number (2^52 + 1 gives 52), so `isPowerOfTwo` accepts differences the model rejects;
  - numbers above 2^53 are not exact.
- Object identity and in-place mutation. The source flips `used` on objects that are also referenced from the rounds array. The model computes the flags of a pass as a new value, which is what the rounds array finally shows.
- `Math.log2` of a diff entry that is not a power of two, and a diff index at or beyond the string length. `binary[x] = '-'` then sets a non-index property or leaves holes. Diff entries built by the merge rounds are powers of two below 2^count whenever the minterms are below 2^count (`Encoding.EncodeSpec` requires exactly this), so these cases do not arise from `solve`.
- Solver.SolveShape: stated for count ≥ 1 and minterms below 2^count. Otherwise `toBinary` returns the unpadded rendering, whose length is the rendering's (`Utils.ToBinaryShape` states that case).
- Cover.ExtractAllEPIsSpec: requires a well-formed chart, the only kind `solve` builds (`Chart.InitialChartWellFormed`). On an inconsistent table, for example a column that lists a row that does not exist, the source recursion need not terminate.
- Cover.Step: the greedy branch also tests that `#findRowWithMostColIds` found a row. On a well-formed chart with rows this always holds (`Cover.StepProgress`), whereas the source would dereference `null`.
- Merging.SimplifyGroups: requires the groups to be a well-shaped round with no term flagged. Its ensures about the recorded rounds (`RoundsShapedFrom`, `Unused`) need this; termination does not. Every call satisfies it, because `solve` passes the result of `#groupMintermIndexes` (`Primes.GroupingIsRoundZero`).
- RootMerging.RootSimplifyGroups: the same requires, for the same ensures. The snapshot's `index.js` calls it on the result of `groupMintermIndexes()`.
- Solver.SolveCovers: states coverage of the minterm indexes by the chosen terms. It does not state that each output string, read as a cube of don't-cares, denotes exactly the minterms of its term.
- Minimality of the cover is not stated. The greedy last step of `#extractAllEPIs` does not guarantee it, and the source does not promise it.

## Findings

| source | as written | input that shows it | evidently intended | confidence | as-written member | corrected member |
|---|---|---|---|---|---|---|
| QuineMcCluskey.js:124-126 | The snapshot appends every merged term to `newGroup[i]` without checking whether an equal term is already there. A term reachable from two different pairs therefore enters the next round twice, and it would become two prime implicants with the same minterms. | The round-1 buckets of minterms 0–3: `[[{0,1} diff [1], {0,2} diff [2]], [{1,3} diff [2], {2,3} diff [1]]]` (`RootMerging.DuplicateScenario`). The pairs {0,1}+{2,3} and {0,2}+{1,3} both form `{0,1,2,3}` with diff [1,2]. | One copy per distinct merged term, as `src/QuineMcCluskey.js:121-130` does with `checkElementExistsInArray`. The snapshot's own `utils.js` already exports that helper. | not executed | RootMerging.RootKeepsDuplicates | Merging.NewGroupSpec |
