# Order pack calculator, in Dafny

The order service ships an order of `requestedCount` items as whole packs
drawn from a catalog of pack sizes. `CalculatePack` applies three ranked rules:

1. only whole packs ship;
2. ship the fewest items that still cover the order;
3. among those, ship the fewest packs.

It first sorts the catalog slice in place, ascending. It then runs a bounded
dynamic program over every item total `0 ..= requestedCount + maxPack`:

- `minItems[t]` is `t` when some combination of packs reaches `t`, and the
  sentinel `math.MaxInt32` when none does;
- `minPacks[t]` is the fewest packs that reach `t`;
- `lastPackUsed[t]` is the final pack of one such combination. Because the
  catalog is ascending and only strict improvements replace an entry, it is
  the smallest size that finishes `t` with the fewest packs.

The answer is the first reachable total at or above the request. The pack
counts are rebuilt by walking `lastPackUsed` back down to zero. That tie-break
fixes which map comes back when several selections meet the rules. The
tables depend only on which sizes the catalog offers, so the map is the same
for every order of the input slice.

The model keeps the program's imperative form:

- the catalog is an `array<int>` that `SortAscending` sorts in place;
- `minItems` and `minPacks` are arrays that `Fill`, `FillTotal`,
  `ImproveTotal` and `TryPack` update in place;
- `lastPackUsed` and the result map are `map<int, int>` values that the
  loops reassign;
- each loop of the Go function is a `while` loop with its invariants.

The modules are:

- `Selections` defines what the rules mean. A selection is a list of packs
  from the catalog, and `IsOptimal` states rules 1 to 3 over all selections.
- `Tables` states what a filled table entry means, with `EntryOk` and
  `Filled`, and proves the inner loop's step lemmas. It defines `Walk`, the
  packs met walking `lastPackUsed` down from a total, and proves that filled
  tables over the same sizes agree entry by entry and walk alike.
- `Tallies` defines the two totals of the result map, items and packs.
- `PackCalculator` holds the calculator itself.
- `CatalogExample` and `SingleSizeExample` work out the optimal answers for
  the orders in the calculator's test table, over the sizes 250, 500, 1000,
  2000 and 5000 and over the single size 5.
- `TestTable` applies `CalculatePack` to each row of that table and derives
  the row's whole expected answer from the calculator's contract: the map,
  both totals, and for the error rows the error text.
- `TieBreakExample` covers a catalog with a tie, sizes 1, 2 and 3 and an
  order of 4. Both 1 + 3 and 2 + 2 meet the rules, and the calculator's
  contract picks 1 + 3.

## Model

| member | source | states |
|---|---|---|
| PackCalculator.CalculatePack | orders/pack-calculator.go:23-114 | A request of 0 or less fails with "requested count must be greater than 0"; this check comes first, whatever the catalog holds. An empty catalog then fails with "no packs available to fulfill the order". With a positive request and a non-empty catalog the call always succeeds, so "no valid combination found" is unreachable. On success the catalog array is sorted and is a permutation of the input. The totals satisfy rules 1 to 3 for the input's sizes. The shipped total is below request + largest pack. The map holds only catalog sizes, each with a positive count. It counts, size by size, one selection from the catalog with exactly the reported totals, so its Σ size×count and Σ count equal those totals. The map is exactly the packs met walking the recorded final packs down from the total, in tables filled for the input's sizes; at each total that pack is the smallest size that finishes it with the fewest packs. A failing call leaves the array unchanged. |
| PackCalculator.CalcError.Message | orders/pack-calculator.go:24-94 | The three error texts. Each text identifies its error exactly, in both directions. |
| PackCalculator.SortAscending | orders/pack-calculator.go:31-33 | Sorts the array in place into ascending order. The result is a permutation (same multiset) of the old contents. |
| PackCalculator.Fill | orders/pack-calculator.go:39-80 | Builds tables of length maxSize + 1 that are filled for the sorted catalog. Entry 0 is 0 items and 0 packs, with no recorded pack. Each entry is its own total or the sentinel. A total is reachable exactly when some selection sums to it, and then its pack count is the fewest of any such selection. Every recorded final pack is a catalog size that leaves a reachable rest and that no smaller fitting size beats. Recorded keys lie in 1..maxSize. |
| PackCalculator.FillTotal | orders/pack-calculator.go:54-79 | One round of the outer loop. Given filled entries below i, the tables become filled up to and including i. Entries of both tables above i are untouched. |
| PackCalculator.ImproveTotal | orders/pack-calculator.go:57-79 | The inner loop over the whole catalog for total i. Entries below i and above i, in both tables, and the map away from key i stay unchanged. Afterwards entry i has considered every catalog size as its final pack. |
| PackCalculator.TryPack | orders/pack-calculator.go:60-77 | One candidate pack c[k]. The entry is replaced only on a strict improvement of items, or of packs at equal items. The map changes at most at key i, to c[k]. Entries other than i are untouched. The considered-prefix invariant grows by one catalog entry. |
| PackCalculator.SelectOptimal | orders/pack-calculator.go:83-89 | Returns the first non-sentinel index in [requestedCount, maxSize]. If there is none it returns -1, which means every entry in that range is the sentinel. |
| PackCalculator.Reconstruct | orders/pack-calculator.go:97-106 | The walk from a reachable total down to zero terminates. The packs it meets are exactly `Walk(lastPackUsed, optimalCount)`, the recorded final pack at each total met. They form a selection summing to the total, with as many packs as the table records. The map counts exactly those packs (Σ size×count = total, Σ count = pack count), and its keys are catalog sizes with positive counts. |
| PackCalculator.CountPack | orders/pack-calculator.go:102-103 | Counting one more pack `p` keeps the map counting the packs met. The item total grows by p, the pack total by one, and p's count is positive. |
| PackCalculator.AnswerUnique | orders/pack-calculator.go:31-106 | Two answers that meet the rules and are walked from filled tables, over catalogs offering the same sizes in any order, are equal, map included. So the calculator's answer does not depend on the order of the input slice. |
| Tables.WalkSelection | orders/pack-calculator.go:97-106 | In filled tables, the walk from a reachable total is a selection from the catalog with exactly that many items, and with as many packs as the table records. |
| Tables.WalkStep | orders/pack-calculator.go:98-105 | One step of the walk: a reachable positive total records a catalog size no larger than itself. The rest it leaves is reachable, and the walk goes on from there. |
| Tables.FilledSameMembers | orders/pack-calculator.go:31-33 | Filled tables for one catalog are filled for any catalog offering the same sizes. The in-place sort does not change what the tables mean. |
| Tables.ReachSame | orders/pack-calculator.go:40-80 | Two filled tables over catalogs with the same sizes agree on which totals are reachable, and on the fewest packs for those. |
| Tables.LastSame | orders/pack-calculator.go:67-77 | Two filled tables over catalogs with the same sizes record the same final pack for every reachable positive total. That pack is the smallest size that finishes the total with the fewest packs. |
| Tables.WalkSame | orders/pack-calculator.go:97-106 | Two filled tables over catalogs with the same sizes walk the same packs down from any reachable total. |
| Tables.ConsiderImproving | orders/pack-calculator.go:67-76 | A strictly better candidate, or the first one, becomes entry i and its recorded final pack. The considered-prefix invariant then holds one entry further. |
| Tables.ConsiderKeeping | orders/pack-calculator.go:71-77 | A candidate that is not strictly better leaves entry i as it is. Because the catalog is ascending, the recorded final pack is still the smallest size that achieves the minimum (the tie-break). |
| Tables.ConsideredComplete | orders/pack-calculator.go:54-80 | Once every size has been tried on total i, every selection summing to i is seen: the entry is reachable and uses no more packs than that selection. |
| Tables.EntryFilled | orders/pack-calculator.go:54-80 | Filled entries below i plus a fully considered entry i make filled tables one entry longer. |
| Tables.FirstReachableOptimal | orders/pack-calculator.go:82-89 | In filled tables, the first reachable total at or above the request, together with the pack count recorded for it, meets rules 1 to 3. |
| Selections.Covering | orders/pack-calculator.go:37-39 | Repeating the largest pack covers any positive request with an overshoot smaller than that pack. So a reachable total always lies inside the searched range. |
| Selections.OptimalSameSizes | orders/pack-calculator.go:31-33 | Optimality depends only on the multiset of sizes, so sorting the catalog does not change the answer. |
| Selections.OptimalTotalsUnique | orders/pack-calculator.go:17-22 | The ranked rules determine both totals: two optimal answers over catalogs with the same sizes agree on items and on packs. |
| Selections.SumAtLeastLength | orders/pack-calculator.go:60 | A selection of positive packs holds at least as many items as packs, so its sum is never negative. Hence the final pack of any selection summing to i is at most i and passes the guard `i >= packSize`. |
| Tallies.Get | orders/pack-calculator.go:102-103 | Go's map read: a present key reads its count, and a non-zero read means the key is present (a missing key reads as 0). |
| Tallies.SameCounts | orders/pack_calculator_test.go:100-107 | Two maps with positive counts that read the same count for every key are equal. This covers both the test's map-size check and its per-key check. |
| Tallies.AddOne | orders/pack-calculator.go:102-103 | Counting one more pack of size p (with a missing key read as 0) adds p to the item total and 1 to the pack total. |
| CatalogExample.Order12001 | orders/pack_calculator_test.go:75-82 | Over sizes 250/500/1000/2000/5000, an order of 12001 items is optimally 12250 items in 4 packs. |
| CatalogExample.Order12001Totals | orders/pack_calculator_test.go:75-82 | Any answer satisfying the rules for 12001 over those sizes, in any order, reports 12250 items and 4 packs. |
| CatalogExample.FourPacks12250 | orders/pack_calculator_test.go:79 | The only four packs of those sizes that make 12250 items are 5000, 5000, 2000 and 250, which is the test's expected map. |
| CatalogExample.SmallOrder | orders/pack_calculator_test.go:43-58 | An order of 1 to 250 items (the test orders 1 and 250) is optimally 250 items in one pack. |
| CatalogExample.Order251 | orders/pack_calculator_test.go:59-66 | An order of 251 items is optimally 500 items in one pack. |
| CatalogExample.Order501 | orders/pack_calculator_test.go:67-74 | An order of 501 items is optimally 750 items in two packs. This matches the test's expected values; the test's title mentions 1x1000, which would ship more items. |
| CatalogExample.TwoPacks750 | orders/pack_calculator_test.go:71 | The only two packs of those sizes that make 750 items are 250 and 500, which is the test's expected map. |
| CatalogExample.OnePack | orders/pack_calculator_test.go:47-63 | A single pack is its own size, so a one-pack answer's map holds that size once (the expected maps {250:1} and {500:1}). |
| SingleSizeExample.FivesOptimal | orders/pack_calculator_test.go:18-41 | With only packs of 5, an order in (5(n-1), 5n] is optimally 5n items in n packs: 5 and 3 give one pack, 12 gives three. |
| SingleSizeExample.AllFives | orders/pack_calculator_test.go:22-38 | A selection of fives ships 5 items per pack and counts only fives, which pins the expected maps {5:1} and {5:3}. |
| TestTable.ExpectedAnswer | orders/pack_calculator_test.go:85-108 | An answer that meets the rules and counts a selection is the expected answer, map and totals, when the expected totals are optimal and no other map has them. |
| TestTable.PinsFives | orders/pack_calculator_test.go:22-38 | Every selection of n packs of 5 with 5n items is counted as {5: n}, the expected maps {5:1} and {5:3}. |
| TestTable.PinsOnePack | orders/pack_calculator_test.go:47-63 | Every one-pack selection from the five sizes is counted as {size: 1}, the expected maps {250:1} and {500:1}. |
| TestTable.Pins750 | orders/pack_calculator_test.go:71 | Every two-pack selection from the five sizes making 750 is counted as {250: 1, 500: 1}. |
| TestTable.Pins12250 | orders/pack_calculator_test.go:79 | Every four-pack selection from the five sizes making 12250 is counted as {5000: 2, 2000: 1, 250: 1}. |
| TestTable.AnswerFives | orders/pack_calculator_test.go:18-41 | Every rule-satisfying, selection-counting answer over packs of 5, for an order in (5(n-1), 5n], is {5: n}, 5n items, n packs. This covers 5 and 3 (n = 1) and 12 (n = 3). |
| TestTable.AnswerSmallOrder | orders/pack_calculator_test.go:43-58 | Every rule-satisfying, selection-counting answer for 1 to 250 items from the five sizes: {250:1}, 250 items, 1 pack. |
| TestTable.AnswerOrder251 | orders/pack_calculator_test.go:59-66 | Likewise for 251 items: {500:1}, 500 items, 1 pack. |
| TestTable.AnswerOrder501 | orders/pack_calculator_test.go:67-74 | Likewise for 501 items: {250:1, 500:1}, 750 items, 2 packs. |
| TestTable.AnswerOrder12001 | orders/pack_calculator_test.go:75-82 | Likewise for 12001 items: {5000:2, 2000:1, 250:1}, 12250 items, 4 packs. |
| TestTable.RunExactMatch | orders/pack_calculator_test.go:18-25 | `CalculatePack` on [5] with 5 returns exactly the expected answer, map included. |
| TestTable.RunOvershoot | orders/pack_calculator_test.go:26-33 | `CalculatePack` on [5] with 3 returns exactly the expected answer. |
| TestTable.RunSamePacks | orders/pack_calculator_test.go:34-41 | `CalculatePack` on [5] with 12 returns exactly the expected answer. |
| TestTable.RunSmallOrder | orders/pack_calculator_test.go:43-58 | `CalculatePack` on the five sizes with 1 to 250 items (the test's 1 and 250) returns exactly the expected answer. |
| TestTable.RunOrder251 | orders/pack_calculator_test.go:59-66 | `CalculatePack` on the five sizes with 251 returns exactly the expected answer. |
| TestTable.RunOrder501 | orders/pack_calculator_test.go:67-74 | `CalculatePack` on the five sizes with 501 returns exactly the expected answer. |
| TestTable.RunOrder12001 | orders/pack_calculator_test.go:75-82 | `CalculatePack` on the five sizes with 12001 returns exactly the expected answer. |
| TieBreakExample.Order4 | orders/pack-calculator.go:17-22 | Four items from sizes 1, 2 and 3 ship optimally as 4 items in 2 packs. |
| TieBreakExample.TieOneThree | orders/pack-calculator.go:17-22 | {1: 1, 3: 1} counts a selection with those totals. |
| TieBreakExample.TieTwoTwo | orders/pack-calculator.go:17-22 | {2: 2} counts one too. The rules alone do not choose between the two. |
| TieBreakExample.SinglePack | orders/pack-calculator.go:54-80 | In tables filled for sizes 1, 2 and 3, each of the totals 1, 2 and 3 is reachable in one pack. |
| TieBreakExample.Walk4 | orders/pack-calculator.go:67-77 | In tables filled for sizes 1, 2 and 3, 4 records the final pack 1, the smallest size finishing it in two packs. 3 records the final pack 3, so the walk from 4 is [1, 3]. |
| TieBreakExample.WalkedCounts | orders/pack-calculator.go:97-106 | A map walked from 4 over those tables reads as {1: 1, 3: 1}. |
| TieBreakExample.Answer4 | orders/pack-calculator.go:97-106 | Every answer for 4 that meets the rules and is walked from filled tables is {1: 1, 3: 1}, 4 items, 2 packs, never {2: 2}. |
| TieBreakExample.RunOrder4 | orders/pack-calculator.go:23-114 | `CalculatePack` on [1, 2, 3] with 4 returns exactly {1: 1, 3: 1}, 4 items, 2 packs. |
| TestTable.RunErrors | orders/pack_calculator_test.go:113-143 | A zero and a negative request fail with "requested count must be greater than 0"; an order with no packs fails with "no packs available to fulfill the order". |

## Left out

- PackCalculator.CalculatePack: when the request is positive, requires every pack size to be positive. The callers reject sizes of 0 or less before a size is stored (app/admin_api_handlers.go:37, app/admin_web_handlers.go:41). With a size of zero the "no valid combination found" branch becomes reachable. With a negative size the Go code panics or fails, depending on the inputs: catalog {-3} with request 3 skips both loops and returns "no valid combination found", while {-3} with request 1 asks `make` for a negative length.
- PackCalculator.CalculatePack: when the request is positive, requires requestedCount + each pack size to be below `math.MaxInt32`. Without that, a reachable total equal to `MaxInt32` is indistinguishable from the sentinel and would be reported as unreachable. Such inputs would need tables of about 2^31 entries. orders/service.go:31 caps the request at a configured maximum.
- Go's 64-bit `int` overflow is not modelled: under the requirement above every value stays below `MaxInt32`.
- A `nil` slice and an empty slice are the same here: both are an array of length 0.
- `models.Pack` is modelled as `int`, and the result's `*PackingCalculation` pointer as a `Result` value.
- Error wrapping and persistence in orders/service.go, the database (db/db.go), the HTTP handlers under app/, the web layer and concurrency are not part of this model.
