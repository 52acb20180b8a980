# Sneaker IPO bid clearing, modelled in Dafny

This project models the analysis script `main.py` of a sneaker-resale IPO analysis.
The script loads a sheet of bids and keeps only the "IPO bid" rows. It drops bids above
an amount ceiling. Then it computes, for every (product_type, shoe_size) variant, the
market-clearing price implied by that variant's IPO supply. Alongside that it counts the
bids per variant in a dense colour-by-size grid.

Files and modules:

- `bids.dfy`
  - `Wrappers`: `Option` and `Result`.
  - `Bids`: the bid record and the variant key, boolean-mask selection, groups and the
    amount column.
  - `KeyOrder`: the order in which `groupby` visits the keys.
- `filters.dfy`, module `RecordFilter`: the action filter and the amount ceiling.
- `ranking.dfy`, module `Ranking`: ranking a group highest-first, and counts of amounts at
  or above a level.
- `clearing.dfy`, module `ClearingPrices`: the clearing rule, `calculate_clearing_prices`
  and the ranking behind the demand curve.
- `crosstab.dfy`, module `CrossTab`: `total_bids_by_color_and_size`.

How the model reads the code:

- **Amounts and sizes** are `real`. `ipo_supply` is `int`, so a zero or negative supply
  can be expressed.
- **`Series.iloc[i]`** is `ILoc`. A negative position counts from the end. A position
  outside the sequence raises `IndexError`, which is `None` in the model.
- **Supply limits.** `calculate_clearing_prices` checks nothing about the supply limit.
  - A supply of 0 selects `iloc[-1]`, which is the lowest bid.
  - A negative supply counts further back from the end of the ranking.
  - A supply below `1 - n` raises. The method returns `Failure(variant)` in that case.
- **Ranking.** `sort_values` is not a stable sort. `RankByAmount` therefore promises only
  a descending rearrangement of the group.
  - Which of several equal-amount bids comes first is left open.
  - The supply limit is read from that first bid. So it is only known to be the
    `ipo_supply` of *some* bid with the highest amount (`Clears`).
  - The ranked amounts, and so the price for a given supply, are proved not to depend on
    tie order.
- **Key order.** `groupby` visits keys sorted by product type, as strings compared code
  point by code point, then by shoe size. `GroupKeys` produces that order.
- **Result rows.** A clearing result row has product type, shoe size, clearing price and
  supply limit only (`ClearingRecord`).

## Model

| member | source | states |
|---|---|---|
| Bids.KeepIf | main.py:16 | A boolean-mask selection keeps the input order, holds only rows that pass the mask, and keeps every passing row as often as it occurs. |
| Bids.Group | main.py:40 | One `groupby` group is exactly the bids of that variant, in input order, each as often as it occurs. |
| Bids.ObservedGroupNonEmpty | main.py:40 | Every key that `groupby` visits has at least one bid, so `iloc[0]` on the ranked group exists. |
| Bids.Amounts | main.py:44 | The `amount` column has one entry per bid, and the i-th entry is the i-th bid's amount. |
| Bids.AmountsRespectPermutation | main.py:41 | Rearranging the bids rearranges their amount column in the same way, so the amounts form the same multiset. |
| KeyOrder.StrLessIrreflexive | main.py:40 | No product type sorts before itself. |
| KeyOrder.StrLessTransitive | main.py:40 | Comparing product types code point by code point is transitive. |
| KeyOrder.StrLessTotal | main.py:40 | Of two different product types, one sorts before the other. |
| KeyOrder.VariantLessIsStrictTotalOrder | main.py:40 | The (product_type, shoe_size) key order is irreflexive, transitive and total. |
| KeyOrder.InsertKey | main.py:40 | Putting one key into an ascending key list keeps it strictly ascending and adds exactly that key. |
| KeyOrder.GroupKeys | main.py:40 | `groupby` visits each observed variant exactly once, in strictly ascending key order. |
| RecordFilter.IpoBids | main.py:10 | The result holds exactly the rows whose action is "IPO bid", in input order and with their multiplicity. |
| RecordFilter.FilterData | main.py:14-17 | The result holds exactly the bids whose amount is at most the ceiling (default 350, inclusive), in input order. |
| RecordFilter.SubsequenceIsNoLonger | main.py:16 | A selection is never longer than its input. |
| RecordFilter.LoadAndFilter | main.py:102-103 | After both filters, every bid is an IPO bid within the ceiling, and every such input bid survives. Nothing is added. |
| Ranking.InsertByAmount | main.py:41 | Inserting a bid into a descending ranking gives a descending ranking with that bid added. |
| Ranking.SortByAmount | main.py:41 | One ranking of a group: descending by amount and a permutation of the group. |
| Ranking.SortedAmounts | main.py:41 | The group's amounts, highest first: as many as there are bids, and descending. |
| Ranking.SortedAmountsArePermutation | main.py:41 | SortedAmounts holds exactly the amounts of the group. |
| Ranking.DescendingIsUnique | main.py:41 | Two descending sequences of the same amounts are equal. |
| Ranking.RankingAmountsAreDetermined | main.py:41 | Every descending rearrangement of a group has the amount column SortedAmounts. |
| Ranking.RankByAmount | main.py:41 | `sort_values('amount', ascending=False)`: a descending permutation of the group whose first bid has the highest amount. |
| Ranking.CountsRespectPermutation | main.py:43-44 | How many amounts reach, or pass, a level does not depend on their order. |
| ClearingPrices.ILoc | main.py:44 | `iloc[i]` exists exactly when `-n <= i < n`. |
| ClearingPrices.SelectPrice | main.py:43-46 | The clearing rule yields a price exactly when there are bids and `supply >= 1 - n`. The price is always one of the ranked amounts. |
| ClearingPrices.RankCounts | main.py:44 | In a descending ranking, the amount at rank k is reached by at least k + 1 amounts and passed by at most k. |
| ClearingPrices.PriceIsSthHighest | main.py:43-44 | With `1 <= S <= n`, the price is the amount at rank S. At least S amounts reach it and fewer than S pass it, and no other amount has both properties. |
| ClearingPrices.PriceWhenSupplyNotExhausted | main.py:45-46 | With fewer bids than supply, the price is the last ranked amount, which is the minimum. |
| ClearingPrices.BranchesAgreeAtBoundary | main.py:43-46 | When the bid count equals S, both branches give the same price: the minimum amount. |
| ClearingPrices.PriceMonotoneInSupply | main.py:43-46 | Raising the supply (from 1 upwards) never raises the price. |
| ClearingPrices.NonPositiveSupplyReadsFromTheEnd | main.py:44 | A supply S <= 0 reads position `n - 1 + S`. S = 0 gives the same price as an unexhausted supply. |
| ClearingPrices.TieOrderDoesNotChangePrice | main.py:41-46 | Two rankings that differ only in how ties are ordered have the same amount column and the same price for every supply. |
| ClearingPrices.ClearingPriceIsABid | main.py:44-46 | A clearing price is the amount of one of the variant's bids. |
| ClearingPrices.ClearingPriceIsSthHighestBid | main.py:43-44 | With S bids or more, at least S of the variant's bids are at or above the clearing price and fewer than S are above it. |
| ClearingPrices.ClearingPriceWhenSupplyNotExhausted | main.py:45-46 | With fewer bids than S, the clearing price is one of the bids and no bid is below it. |
| ClearingPrices.AmountIsRanked | main.py:41 | Every bid's amount occurs among the group's ranked amounts. |
| ClearingPrices.SupplyLimitOfConsistentGroup | main.py:42 | When all bids of a variant carry the same IPO supply, that supply is the limit used. |
| ClearingPrices.CalculateClearingPrices | main.py:38-48 | On success there is one record per observed variant. The records are in strictly ascending key order and each clears its group. On failure the named variant is observed and its supply cannot be read. With every supply positive, the result is a success. |
| ClearingPrices.ClearGroup | main.py:41-46 | One loop iteration: the record it builds clears the group. When there is no price, the group is unclearable and some bid has a supply below 1. |
| ClearingPrices.RankedGroupClears | main.py:41-46 | The price read off any ranking equals the price on SortedAmounts, and the record built from it clears the group. |
| ClearingPrices.UnclearableGroup | main.py:42-46 | A first-ranked bid whose supply yields no price makes the group unclearable, and that bid has a supply below 1. |
| ClearingPrices.AppendRecord | main.py:47 | Appending the next key's clearing record keeps every record matched to its key and clearing its group. |
| ClearingPrices.RecordsFollowKeys | main.py:39-48 | Records made one per visited key clear their groups, are in ascending key order and name exactly the observed variants. |
| ClearingPrices.DemandCurve | main.py:53-57 | The demand curve of a variant lists its amounts highest first, numbered 1, 2, .... At position S it shows the clearing price for supply S. |
| ClearingPrices.NumberRanks | main.py:56-57 | On the highest-first ranking, the i-th point's cumulative bid count is i + 1. Fewer bids than that count are above its amount, and at least that many reach it. |
| ClearingPrices.RankedCurve | main.py:56-57 | The numbered ranking has the amounts of SortedAmounts. |
| ClearingPrices.RanksSelectPrices | main.py:43-44 | For 1 <= S <= n, the rule reads the amount at position S (1-indexed). |
| ClearingPrices.FiveBidExample | main.py:43-46 | For amounts 400, 380, 300, 250, 200: supply 3 gives 300 and supply 10 gives 200. |
| CrossTab.GroupSizeStep | main.py:32 | The first bid adds one to its own variant's count and nothing to the others. |
| CrossTab.UnobservedGroupIsEmpty | main.py:32 | A variant nobody bid on has no bids. |
| CrossTab.Tally | main.py:32 | `groupby(...).size()` has an entry exactly for each observed variant, holding its number of bids. |
| CrossTab.CountOne | main.py:32 | Counting one more bid of a variant raises its count by one and changes no other count. |
| CrossTab.TallyStep | main.py:32 | Counting the first bid into the tally of the others gives the tally of all bids. |
| CrossTab.Unstack | main.py:32 | `unstack(fill_value=0)` has one cell per row label and column label. Tallied cells keep their count and the others hold 0. |
| CrossTab.TallyLabels | main.py:32 | The grid's rows are the observed product types and its columns the observed shoe sizes. |
| CrossTab.FilledCellsAreEmptyGroups | main.py:32 | Every grid cell, including one filled with 0, holds the number of bids of its variant. |
| CrossTab.TotalBidsByColorAndSize | main.py:30-34 | The grid has a cell exactly for each observed product type with each observed shoe size. Each cell counts the bids of that variant, and a combination nobody bid on holds 0. |
| CrossTab.CellSumIsGroupSizes | main.py:32 | Adding up cells that hold group sizes gives the sum of those group sizes. |
| CrossTab.GridSumsToBidCount | main.py:32 | All cells of the grid, each taken once, add up to the number of bids. |

## Left out

- `load_and_prepare_data`, reading the spreadsheet (main.py:8): file I/O. The loaded sheet is the input sequence of `Bid` records.
- `calculate_statistics` (main.py:20-27): `describe`, median, maximum and minimum of floating-point amounts are library statistics, not part of the clearing logic.
- `plot_demand_supply`, drawing (main.py:51-71): plotting is presentation. Only the ranking and the cumulative bid numbers it plots are modelled (`DemandCurve`).
- The plot's supply line takes `ipo_supply` from the first *unsorted* row of the variant (main.py:60). `calculate_clearing_prices` takes it from the first *ranked* row. The plot line is not modelled.
- `analyze_outliers` (main.py:74-81): quartiles and the IQR rule use floating-point interpolation.
- `analyze_bids_by_color_and_size` (main.py:84-88): means of floating-point amounts.
- `revenue_impact_of_supply_changes` (main.py:91-96): a floating-point sum scaled by a factor.
- `main` (main.py:99-132): orchestration and printing.
- pandas data cleaning: missing values (NaN), dtype coercion and non-numeric cells are not modelled. Every row is a well-formed `Bid`.
- Output container: `pd.DataFrame(clearing_prices)` and the unstacked frame are a sequence of records and a map from (product type, shoe size) to count. Column layout and index labels are not modelled.
- Floating point: amounts and shoe sizes are exact reals, so rounding in comparisons is not modelled.
- CalculateClearingPrices: raising `IndexError` is modelled as returning `Failure` with the variant. Records already built for earlier variants are then discarded, as the exception discards them.
- RankByAmount: the particular order pandas' quicksort leaves equal amounts in is not modelled. Any descending permutation is allowed, and the results proved hold for every one of them.
