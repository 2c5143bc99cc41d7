# Pack-size calculator, modelled and verified in Dafny

This project models the calculator at the heart of the pack-sizes service
(`internal/pack/pack.go`). Given pack sizes and an order, it says how many packs of each
size to ship. The rules are:

1. only whole packs are shipped;
2. the number of items shipped is the least that still meets the order;
3. for that number of items, as few packs as possible are used.

The model has six modules:

- `Combination` gives the mathematics of the problem. A packing is a pack list (one entry
  per pack). `Sum` counts its items, and `Optimal` states rules 1-3. `Tally` turns a pack
  list into the size-to-count map the calculator returns. `TotalItems` and `TotalPacks`
  are the two sums the source keeps beside every map.
- `Solution` holds the `packSolution` record and the comparator `isBetterSolution`.
- `ExactSolver` is the dynamic-programming solver `calculatePacksDp`. It works
  imperatively on an array of `PackSolution`, as the source does. The table loop, the
  per-size inner loop (with its strict-improvement tie rule) and the selection scan with
  its `break` are all kept. It is proved that every table entry is valid exactly when its
  item count can be shipped, and then holds a packing with the fewest packs. It is also
  proved that the selected entry is an optimal answer and that the selection always finds
  one.
- `Sorting` models the in-place descending sort of the caller's slice.
- `Greedy` is the fallback `calculatePacksGreedy`, split into its phases: naive fill,
  extra pack, merge scan, key deletion. Each phase is a method with the loop of the
  source, proved equal to a recursive reference function. The properties are lemmas about
  those functions.
- `Calculator` holds the exported `CalculatePacks` and `SavePackSizes`, with the shared
  size validation.

`Scenarios` derives the answers that the repository's tests expect from the optimality
that `CalculatePacks` guarantees.

Integers are unbounded, and Go's truncating division is written out as `Greedy.GoDiv`.

## Model

| member | source | states |
|---|---|---|
| Combination.OptimalMap | internal/pack/pack.go:55-66 | the answer map names only available sizes, each at least once, ships at least the order, and no other packing that meets the order ships fewer items, or as many items in fewer packs |
| Combination.OptimalTotalsUnique | internal/pack/pack.go:55-58 | rules 2 and 3 fix the item count and the pack count of the answer, so any two optimal packings agree on both |
| Combination.OptimalMonotone | internal/pack/pack.go:55-58 | a larger order never ships fewer items |
| Combination.OptimalSameSizes | internal/pack/pack.go:78-82 | optimality depends only on which sizes are available, not on their order, so sorting the slice does not change what the answer must be |
| Combination.TallyAppend | internal/pack/pack.go:115-117 | copying a solution's map and incrementing one size in it is the map of the pack list with that pack appended |
| Combination.TallyTotals | internal/pack/pack.go:17-22 | Σ size × count of a packing's map is its item count, and Σ count is its pack count |
| Combination.TallyPermutation | internal/pack/pack.go:17-22 | the map of a packing depends only on which packs it holds |
| Combination.TallyWellFormed | internal/pack/pack.go:17-22 | the map of a packing names only available sizes, each with a count of at least one |
| Combination.MultipleInWindow | internal/pack/pack.go:95-97 | some multiple of the last size lies between the order and the order plus that size minus one, so the table bound always reaches a shippable amount |
| Combination.SumOfMultiples | internal/pack/pack.go:95-97 | when every size is a multiple of g, every shippable amount is one too |
| Combination.SumBounds | internal/pack/pack.go:114 | with positive sizes no pack outweighs its packing, and a packing ships at least one item per pack |
| Solution.IsBetterIrreflexive | internal/pack/pack.go:153-158 | no solution is better than itself |
| Solution.IsBetterAsymmetric | internal/pack/pack.go:153-158 | of two solutions at most one is better than the other |
| Solution.IsBetterTransitive | internal/pack/pack.go:153-158 | the comparator is transitive |
| Solution.IsBetterTotal | internal/pack/pack.go:153-158 | two solutions are comparable exactly when their (items, packs) pairs differ |
| Solution.IsBetterSameItems | internal/pack/pack.go:153-158 | for equal item totals, the comparator is "fewer packs" |
| Solution.IsBetterFewerItems | internal/pack/pack.go:153-158 | for different item totals, the comparator is "fewer items", whatever the packs |
| ExactSolver.FillTable | internal/pack/pack.go:97-132 | every entry i of the filled table is valid exactly when i items can be shipped; a valid entry holds the map of a packing of exactly i items with the fewest possible packs, with totalItems = i and totalPacks = the packing's length; on a tie the candidate of the earliest size index is kept |
| ExactSolver.FillEntry | internal/pack/pack.go:109-131 | the scan over the sizes for one entry changes only that entry and leaves it as the best candidate over all sizes, ties kept at the first |
| ExactSolver.ProgressSkip | internal/pack/pack.go:114 | a size that is larger than the entry or sits on an invalid entry offers nothing |
| ExactSolver.ProgressKeep | internal/pack/pack.go:127 | a candidate with no fewer packs leaves the entry unchanged |
| ExactSolver.ProgressTake | internal/pack/pack.go:115-129 | a candidate with strictly fewer packs, or the first candidate, replaces the entry |
| ExactSolver.EntryZero | internal/pack/pack.go:100-106 | the base entry (empty map, zero totals, valid) is correct for zero items |
| ExactSolver.LastPack | internal/pack/pack.go:111-114 | every packing of i items ends with a size whose candidate entry is in the table and needs no more packs |
| ExactSolver.CloseEntry | internal/pack/pack.go:108-132 | closing one entry keeps the table invariant |
| ExactSolver.ChoiceExtend | internal/pack/pack.go:108-132 | the choice recorded for an earlier entry survives the table growing |
| ExactSolver.ChoiceNew | internal/pack/pack.go:126-129 | the entry just closed was built from its recorded size, and every earlier size gives strictly more packs |
| ExactSolver.CandidateExtend | internal/pack/pack.go:114 | the candidates of earlier entries do not change as the table grows |
| ExactSolver.NewEntryOk | internal/pack/pack.go:108-132 | the entry just closed is valid exactly when its item count is shippable, and then has the fewest packs |
| ExactSolver.WindowEntry | internal/pack/pack.go:95-97 | some valid entry lies between the order and the end of the table |
| ExactSolver.SelectionOptimal | internal/pack/pack.go:134-147 | the first valid entry at or above the order is an optimal answer |
| ExactSolver.ValidEntryTotals | internal/pack/pack.go:119-124 | the totals stored with a valid entry are Σ size × count and Σ count of its map, and its keys are available sizes with counts of at least one |
| ExactSolver.CalculatePacksDp | internal/pack/pack.go:94-150 | for positive sizes and a positive order, the solver always reports success, and its map is the map of an optimal packing |
| Sorting.InsertDesc | internal/pack/pack.go:78-80 | inserting into a descending sequence keeps it descending and adds exactly that element |
| Sorting.SortDesc | internal/pack/pack.go:78-80 | the result is descending and a permutation of the input |
| Sorting.DescendingUnique | internal/pack/pack.go:78-80 | a multiset has one descending arrangement, so every sort with this comparator, stable or not, leaves the same slice |
| Sorting.SortDescSameMembers | internal/pack/pack.go:78-80 | sorting keeps exactly the sizes that were there |
| Sorting.SortInPlace | internal/pack/pack.go:78-80 | the slice ends as the descending permutation of its old contents |
| Calculator.ValidateSizes | internal/pack/pack.go:72-76 | succeeds exactly when every size is positive; otherwise it reports the first non-positive size |
| Calculator.SavePackSizes | internal/pack/pack.go:45-53 | sizes are handed to the repository unchanged exactly when all are positive; otherwise the first non-positive size is reported |
| Calculator.CalculatePacks | internal/pack/pack.go:67-90 | a non-positive order is refused first, then the first non-positive size, and a refused call leaves the slice as it was; otherwise the slice is sorted descending and the answer is the map of an optimal packing for the sizes as given |
| Greedy.GoDiv | internal/pack/pack.go:176 | Go's truncating quotient agrees with the mathematical one for a non-negative dividend and a positive divisor |
| Greedy.NaiveFill | internal/pack/pack.go:165-181 | the naive packing loop computes the reference fill; for a positive order it ships the sum it reports and at most the order, uses only available sizes with counts of at least one, and leaves missing less than every size |
| Greedy.NaiveFillShape | internal/pack/pack.go:165-181 | the fill ships the sum it reports and never more than the order; every count is the number of whole packs of its size that fit into what the larger sizes left; what is still missing is below every size |
| Greedy.QuotientsExtend | internal/pack/pack.go:176-179 | a new count below every key keeps the quotient property of the other counts |
| Greedy.NaiveFillStep | internal/pack/pack.go:169-180 | one step of the fill keeps the fill invariant |
| Greedy.NaiveFillInv | internal/pack/pack.go:168-181 | the fill invariant holds when the loop ends |
| Greedy.PatchIndex | internal/pack/pack.go:186-195 | the backward scan stops at the last index whose size exceeds what is missing, or finds none |
| Greedy.PatchRemainder | internal/pack/pack.go:183-196 | the extra-pack loop computes the reference patch; with sizes sorted descending it adds one pack of the smallest size above what is missing, and with no such size it changes nothing |
| Greedy.PatchSpec | internal/pack/pack.go:183-196 | with sizes sorted descending, the patch adds exactly one pack, of the smallest size above what is missing; without such a size nothing is added |
| Greedy.FilledAndPatchedMeetsOrder | internal/pack/pack.go:165-196 | after the fill and the extra pack, the counts ship at least the order and name only available sizes with counts of at least one |
| Greedy.FindMerge | internal/pack/pack.go:198-224 | the merge loop computes the reference merge decision; a merge is at a held size that is not the first, and its quantity of the next larger size holds exactly the items collected from that index up, in fewer packs |
| Greedy.MergeScanFirst | internal/pack/pack.go:198-224 | there is at most one merge, at the highest index that qualifies; the merged quantity holds exactly the items collected from that index up, in fewer packs; with no qualifying index there is no merge |
| Greedy.VisitedItemsLower | internal/pack/pack.go:208-209 | a key at the merge index puts at least its own items into the collection |
| Greedy.DeleteUpTo | internal/pack/pack.go:226-232 | the deletion loop removes exactly the keys up to the bound |
| Greedy.GreedyMergesOnce | internal/pack/pack.go:198-232 | the merge changes at most the count of the next larger size, and removes every key up to the size it merged from |
| Greedy.GreedyWellFormed | internal/pack/pack.go:162-235 | the fallback's answer names only available sizes, each with at least one pack |
| Greedy.CalculatePacksGreedy | internal/pack/pack.go:162-235 | the fallback as written computes its reference function, and for a positive order and some sizes it answers only available sizes with at least one pack each |
| Greedy.OverwriteLosesItems | internal/pack/pack.go:219-222 | for sizes 100 and 25 and an order of 199 the fallback as written answers one pack of 100, 100 items short of the order |
| Greedy.CalculatePacksGreedyFixed | internal/pack/pack.go:162-235 | the fallback with the corrected merge computes its reference function, and with positive, distinct, descending sizes it always meets the order |
| Greedy.FixedKeepsPacks | internal/pack/pack.go:219-222 | on the same input the corrected merge answers two packs of 100 |
| Greedy.MergeFixedKeepsItems | internal/pack/pack.go:198-232 | with distinct sizes sorted descending, the corrected merge and deletion ship as many items as before |
| Greedy.GreedyFixedMeetsOrder | internal/pack/pack.go:162-235 | with positive, distinct, descending sizes, the corrected fallback always meets the order |
| Greedy.BetweenItems | internal/pack/pack.go:202-209 | with distinct sizes, the items the scan collects over some indices are the items the map holds in those sizes |
| Greedy.BelowIsTail | internal/pack/pack.go:226-232 | with distinct descending sizes, the keys up to a size are the keys at its index and beyond |
| Greedy.TotalItemsSplit | internal/pack/pack.go:226-232 | the items of a map are those above a bound plus those at or below it |
| Greedy.MergedItems | internal/pack/pack.go:216-221 | the items of the sizes a merge folds away are exactly the items of the merged packs |
| Scenarios.SmallOrders | internal/pack/pack_test.go:18-19 | with sizes 250, 500, 1000, 2000 and 5000, any order from 1 to 250 gets one pack of 250 |
| Scenarios.Order251 | internal/pack/pack_test.go:20 | an order of 251 gets one pack of 500 |
| Scenarios.Order501 | internal/pack/pack_test.go:21 | an order of 501 gets one pack of 500 and one of 250 |
| Scenarios.Order12001 | internal/pack/pack_test.go:22 | an order of 12001 gets two packs of 5000, one of 2000 and one of 250 |
| Scenarios.Order12500 | internal/server/handlers_test.go:45-47 | an order of 12500 gets two packs of 5000, one of 2000 and one of 500 |
| Scenarios.Order74 | internal/pack/pack_test.go:38 | with sizes 25 and 100, an order of 74 gets three packs of 25 |
| Scenarios.Order76 | internal/pack/pack_test.go:39 | with sizes 25 and 100, an order of 76 gets one pack of 100 |
| Scenarios.Order24 | internal/pack/pack_test.go:40 | with sizes 25 and 100, an order of 24 gets one pack of 25 |
| Scenarios.Order99 | internal/pack/pack_test.go:41 | with sizes 100, 80 and 20, an order of 99 gets one pack of 100 |
| Scenarios.PinDown | internal/pack/pack_test.go:18-41 | when all sizes are multiples of g and a packing ships the least multiple of g at or above the order, an optimal packing ships exactly that, in no more packs |
| Scenarios.Canonical | internal/pack/pack_test.go:18-41 | every packing has a descending arrangement with the same items, packs and map |
| Scenarios.FourStandardPacks | internal/pack/pack_test.go:22 | the only descending packings of at most four standard packs that ship 12250 or 12500 items |

## Left out

- HTTP handlers, routes, the server lifecycle, `main` and the database layer
  (`internal/server`, `internal/db`, `cmd/server`). These are I/O, not calculator logic.
- `CalculatePacksWithRepo` (pack.go:27-41) only fetches sizes from a repository and
  sorts a copy for display. The repository is an external collaborator.
  `SavePackSizes` is modelled up to the point where it hands the sizes to the repository
  (`SaveOutcome.StoreRequested`). The store call and its errors are not modelled.
- The error values are modelled as `PackError` variants. Their message texts and the
  wrapping of `ErrInvalidArg` are not.
- Machine integers. Sizes, orders, totals and the comparator `b - a` are unbounded.
  Go's 64-bit overflow on very large inputs is not modelled.
- `slices.SortFunc` is library code. It is modelled by its effect: the slice ends as its
  unique descending permutation. `Sorting.DescendingUnique` justifies this for any
  algorithm, stable or not.
- Calculator.CalculatePacks: with an empty size slice the source panics, reading the last
  size at pack.go:97 after the sort. The model returns `Err(NoSizes)` at that point
  instead.
- Calculator.CalculatePacks: the greedy fallback at pack.go:88-89 is never reached.
  `ExactSolver.CalculatePacksDp` is proved always to succeed, so the model asserts
  success there instead of calling `Greedy`.
- ExactSolver.CalculatePacksDp: the map is tied to a packing of the optimal item and pack
  counts. The exact map among several equally good ones follows the tie rule proved in
  `FillTable` (first size wins), but no key is pinned down beyond that.
- The documented example with sizes 23, 31 and 53 and an order of 500000 is not restated
  as a lemma. Its table has over half a million entries.
- The test files call `CalculatePacks` with one result, and the sizes are not
  deduplicated anywhere. The first is scaffolding and is not modelled. The model accepts
  duplicate sizes throughout, and only the corrected-merge lemmas ask for distinct sizes.

Where the code and its design description disagree, the model follows the code:

- An empty size list is described as something the solvers handle through the fallback,
  but the code panics first.
- The comment at pack.go:95 speaks of the largest size, but the bound uses the last size
  of the descending slice, which is the smallest.
- The fallback is described as always meeting the order, but the code does not (see Findings).

## Findings

| source | as written | input that shows it | evidently intended | confidence | as-written member | corrected member |
|---|---|---|---|---|---|---|
| internal/pack/pack.go:221 | the merge sets the count of the next larger size to the merged quantity, discarding any packs of that size the answer already held | sizes 100 and 25, order 199: the fill gives 100×1 and 25×3, the extra pack makes 25×4, the merge sets 100 to 1 and drops 25, so the answer is 100×1 = 100 items for an order of 199 | add the merged quantity to the count already held (answer 100×2), so the fallback still meets the order | not executed; the fallback is unreachable from CalculatePacks, so this is latent | Greedy.OverwriteLosesItems | Greedy.CalculatePacksGreedyFixed |
