# Renaissance stock ranking: the ranking pipeline in Dafny

This project models the computational pipeline of the Renaissance stock
ranking system and proves properties of it. The pipeline turns a long panel of
(ISIN, Date, Price) rows into a monthly ranking of securities by trailing
one-year return, and then into month-over-month rank changes:

1. **Loading and monthly bucketing** (`DataLoader`, data_loader.dfy).
   - Each loader fails when a required column is missing from the file's header.
   - The price table is sorted by (ISIN, Date).
   - `prepare_monthly_price_data` adds Year and Month columns to the caller's
     frame in place. It then keeps the latest-dated row of each (ISIN, year,
     month) bucket.
   - The combined load only warns about constituents that have no prices.
2. **Trailing yearly return** (`ReturnCalculator`, return_calculator.dfy).
   - For every row of a security, the prior row is the security's latest row
     dated on or before "12 calendar months back, plus 15 days".
   - A return `price_now / price_prior - 1` is appended when the prior row is
     330 to 395 days back.
   - The nested loops over ISIN groups and rows are methods that append to
     three result columns. They are proved equal to a functional specification.
3. **Cross-sectional ranking** (`RankingSystem`, ranking_system.dfy).
   - Within each Date the rank is the competition rank of the return,
     highest first: 1 + the number of same-date rows with a strictly greater
     return.
   - The latest-month view filters to the maximum Date and sorts by Rank.
4. **Rank delta** (`RankDeltaCalculator`, rank_delta_calculator.dfy).
   - The rows are re-sorted by (ISIN, Date).
   - Each row's PreviousRank is the rank of the same security's previous row,
     and RankDelta = Rank - PreviousRank.
   - Also modelled: the latest-month view and the consistent-movers
     classifier. The classifier is a loop over ISIN groups that needs at
     least 3 deltas, of which at least 75% are negative (improvers) or
     positive (decliners).

Supporting modules:
- `Calendar`: proleptic Gregorian dates and day numbers. `DateOffset(months=12)`
  is the same month of the previous year, with the day clamped.
- `Ordering`: string order and a stable insertion sort.
- `Seqs`: filter, map and flatten, with their lemmas.
- `Grouping`: `groupby` over a key-sorted frame, as maximal runs of equal keys.
- `Frames`: the row types, the sort orders and the latest-date view.
- `Wrappers`: `Option` and `Result`.

`ranking_system.py` and `rank_delta_calculator.py` exist in two identical
copies, `renaissance/core/` and `src/`. Each pair is one Dafny module, and the
table below cites both copies.

In these places the code does not do what a reader might expect; the model
follows the code:
- Returns are fractions (`0.2` for a 20% rise) and are kept exact.
- Ranks are competition ranks (`method='min'`): tied returns share the lowest
  rank of the tie, and the next rank skips. Ties are not broken by ISIN or any
  other column. A month's ranks are exactly 1..N only when its returns are
  distinct (`RanksPermuteOneToN`).
- The latest-month view of an empty frame is not an error. Its date is NaT
  (`None`) and it holds no rows.
- PreviousRank pairs a row with the same security's own previous row, however
  many months lie between them.
- Non-positive prices are not skipped. The model's `Price` type admits only
  positive prices, so it leaves out inputs the code accepts (see "Left out").
- The number of month-ends a security has does not matter. A row gets a
  return whenever it has a prior row in the window.

The prior-row filter already puts the prior row 350 or 351 days or more
before the current row (`WindowEnd`). So the code's lower bound of 330 days
never rejects anything; only the 395-day upper bound can (`EmitCharacterised`).

## Model

| member | source | states |
|---|---|---|
| Calendar.TwelveMonthsEarlier | src/return_calculator.py:67 | `current_date - DateOffset(months=12)` is the same month of the previous year, with the same day or (29 February) the 28th, and lies 365 or 366 days earlier |
| Calendar.OrdinalOrder | src/return_calculator.py:71 | comparing dates by day number agrees with (year, month, day) order, and equal day numbers mean equal dates |
| DataLoader.MissingColumns | src/data_loader.py:98 | the missing required columns are exactly the required columns absent from the header |
| DataLoader.LoadNifty500Isins | src/data_loader.py:50-61 | fails with a missing-columns error naming ISIN exactly when the header lacks ISIN; otherwise returns the table unchanged |
| DataLoader.LoadHistoricalPrices | src/data_loader.py:96-110 | fails exactly when one of ISIN, Date, Price is missing, and the error names exactly the missing ones; otherwise returns the same rows (as a multiset) sorted by (ISIN, Date), with the same header |
| DataLoader.SortByDate | src/data_loader.py:142 | `sort_values('Date')` is a permutation of the rows in ascending date order |
| Ordering.SortKeepsTieOrder | src/data_loader.py:109 | the sort is stable: the rows tying with any given row come out in their input order, as in pandas' multi-column sort |
| DataLoader.MonthlyPrices | src/data_loader.py:142-146 | the bucketed frame comes out in (ISIN, Date) order |
| DataLoader.MonthlyRowsAreInputRows | src/data_loader.py:142-146 | every output row is an input row, at most as often, so the output is never longer than the input |
| DataLoader.MonthlyOneRowPerBucket | src/data_loader.py:142 | the output holds exactly one row per (ISIN, year, month) bucket it contains |
| DataLoader.MonthlyKeepsEveryBucket | src/data_loader.py:142 | the output has exactly the input's buckets: none is dropped and none is invented |
| DataLoader.MonthlyKeepsLatest | src/data_loader.py:142 | the row kept for a bucket is an input row dated no earlier than any input row of its bucket, with that row's price |
| DataLoader.MonthlyOfMonthlyRows | src/data_loader.py:119-142 | input that already has one row per bucket comes back with the same rows |
| DataLoader.MonthlyIsIdempotent | src/data_loader.py:142 | bucketing twice gives the rows bucketing once gives |
| DataLoader.WithColumn | src/data_loader.py:138-139 | assigning a column keeps the old header as a prefix and, when the column is new, appends it last, growing the header by one; an existing column leaves the header unchanged |
| DataLoader.PriceFrame.constructor | src/data_loader.py:119 | the caller's frame holds the given header and rows |
| DataLoader.PrepareMonthlyPriceData | src/data_loader.py:133-149 | the caller's frame gains Year and Month columns and keeps its rows; the result holds the bucketed rows, with ISIN first and Year and Month dropped again |
| DataLoader.MonthlyKeepsIsins | src/data_loader.py:184 | a security has a row after bucketing exactly when it had one before |
| DataLoader.MissingIsinsBeforeBucketing | src/data_loader.py:184-187 | the constituents reported missing are those with no row in the loaded prices |
| DataLoader.LoadAndPrepareAllData | src/data_loader.py:156-190 | fails exactly when either loader fails, with the constituent list's error first and otherwise the price loader's error naming its missing columns; on success returns the constituent table and the bucketed prices, whose header is ISIN followed by the loaded columns other than ISIN, Year and Month, so it holds ISIN, Date and Price; missing constituents do not make it fail |
| ReturnCalculator.WindowEnd | src/return_calculator.py:67-71 | the last day a prior row may have lies 350 or 351 days before the current date |
| ReturnCalculator.YearlyReturn | src/return_calculator.py:83 | with positive prices the return is above -1, positive iff the price rose, zero iff unchanged and negative iff it fell |
| ReturnCalculator.LastOnOrBefore | src/return_calculator.py:71-77 | finds the last row dated on or before the bound, or none when every row is later |
| ReturnCalculator.PriceGroups | src/return_calculator.py:44-59 | the ISIN groups are non-empty and date-ascending, each holds exactly the rows of its ISIN, and together they are a permutation of the frame |
| ReturnCalculator.PriceGroupsAscend | src/return_calculator.py:50-57 | `groupby('ISIN')` visits the securities in strictly ascending ISIN order |
| ReturnCalculator.Columns | src/return_calculator.py:89-94 | the frame built from the three result lists has, at each position, that position's ISIN, Date and YearlyReturn |
| ReturnCalculator.RowReturn | src/return_calculator.py:63-87 | the inner loop body yields the return specified for row `i` |
| ReturnCalculator.AppendGroupReturns | src/return_calculator.py:59-87 | the inner loop appends to the result columns exactly the returns specified for the group's rows, in row order |
| ReturnCalculator.CalculateYearlyReturns | src/return_calculator.py:44-97 | the nested loops produce the specified returns frame |
| ReturnCalculator.EmitCharacterised | src/return_calculator.py:71-82 | a row gets a return iff its security has a row between 395 days back and the window end; the return is measured against the latest row on or before the window end, 350 to 395 days back |
| ReturnCalculator.LastOnOrBeforeIsPrior | src/return_calculator.py:71-77 | the row found is the latest row of the security on or before the window end |
| ReturnCalculator.ReturnsAreEligibleRows | src/return_calculator.py:57-87 | the (ISIN, Date) keys of the returns are those of the eligible price rows, with multiplicity, so there are never more returns than prices |
| ReturnCalculator.ReturnProvenance | src/return_calculator.py:57-87 | every return comes from a price row of its ISIN and Date, is `now / prior - 1` for that row's prior row in the whole frame, and the prior row is 350 to 395 days back |
| ReturnCalculator.ReturnNeedsYearOfHistory | src/return_calculator.py:67-82 | every return has a price row of its security and date and one at least 350 days earlier |
| ReturnCalculator.EarliestRowHasNoReturn | src/return_calculator.py:71-73 | a security's earliest row gets no return |
| ReturnCalculator.ShortHistoryHasNoReturns | src/return_calculator.py:67-82 | a security whose rows span under 350 days gets no return at all |
| ReturnCalculator.ValidateReturns | src/return_calculator.py:104-162 | fails exactly on an empty frame, whose YearlyReturn column built from empty lists makes `nlargest` raise TypeError (line 135); otherwise the checks only log and the frame is returned unchanged |
| ReturnCalculator.ValidationFailsWithoutEligibleRows | src/return_calculator.py:89-94 | validating the computed returns fails exactly when no price row has a prior row between 395 days back and its window end, so the run stops there |
| RankingSystem.RankStocksByReturn | renaissance/core/ranking_system.py:39-46 | every row keeps its position, ISIN, Date and YearlyReturn, and only a Rank of at least 1 is added |
| RankingSystem.CountAboveIsCardinality | src/ranking_system.py:43 | the count behind a rank is the number of same-date rows with a strictly greater return |
| RankingSystem.RankCountsGreaterReturns | renaissance/core/ranking_system.py:43 | a row's rank is 1 + the number of rows of its date with a strictly greater return |
| RankingSystem.RankWithinMonthSize | src/ranking_system.py:43-46 | every rank lies in 1..N, with N the number of rows of that date |
| RankingSystem.RankOrdersReturns | renaissance/core/ranking_system.py:43 | within a date, a strictly greater return iff a strictly smaller rank, and equal returns iff equal ranks: ties are not broken |
| RankingSystem.RankOneIffHighest | src/ranking_system.py:43 | a row has rank 1 iff no row of its date has a greater return, so the date's highest return is ranked 1 |
| RankingSystem.RanksPermuteOneToN | renaissance/core/ranking_system.py:43-46 | when a date's returns are distinct, its ranks are exactly 1..N |
| RankingSystem.RanksAreLocalToTheirMonth | src/ranking_system.py:43 | ranking the whole frame and then taking one date gives the ranking of that date's rows alone |
| RankingSystem.GetLatestRankings | renaissance/core/ranking_system.py:123-134 | NaT and no rows exactly on an empty frame; otherwise the maximum date, exactly the rows of that date (as a multiset), sorted by ascending rank |
| RankDeltaCalculator.CalculateRankDelta | renaissance/core/rank_delta_calculator.py:39-46 | the output is a permutation of the ranked rows sorted by (ISIN, Date); PreviousRank and RankDelta are present together, and RankDelta = Rank - PreviousRank |
| RankDeltaCalculator.ShiftFindsPreviousAppearance | src/rank_delta_calculator.py:45 | in the (ISIN, Date)-sorted frame, the row before a row is of the same ISIN iff the security has an earlier row, and then it is the latest earlier one |
| RankDeltaCalculator.PreviousRankIsPreviousAppearance | renaissance/core/rank_delta_calculator.py:42-46 | with one row per (ISIN, Date): PreviousRank is absent iff no row of the security is earlier; otherwise it is the rank of the security's latest earlier row, however many months back |
| RankDeltaCalculator.AbsentDeltasCountSecurities | src/rank_delta_calculator.py:45-51 | the number of rows without a rank delta is the number of distinct securities |
| RankDeltaCalculator.GetLatestRankDelta | src/rank_delta_calculator.py:76-87 | NaT and no rows exactly on an empty frame; otherwise the maximum date, exactly the rows of that date (as a multiset), sorted by ascending rank |
| RankDeltaCalculator.MoversAreExclusive | renaissance/core/rank_delta_calculator.py:174-179 | no security is both a consistent improver and a consistent decliner |
| RankDeltaCalculator.IsinGroups | src/rank_delta_calculator.py:159 | `groupby('ISIN')` yields non-empty groups in ascending ISIN order that together permute the frame |
| RankDeltaCalculator.GroupVerdict | renaissance/core/rank_delta_calculator.py:159-179 | the test made on a group decides whether its security is a consistent mover over the whole frame |
| RankDeltaCalculator.ListedAreConsistentMovers | src/rank_delta_calculator.py:159-179 | the securities listed are exactly the consistent movers, in strictly ascending ISIN order |
| RankDeltaCalculator.IdentifyConsistentMovers | renaissance/core/rank_delta_calculator.py:153-183 | the improvers are exactly the securities with at least 3 deltas of which at least 75% are negative, the decliners likewise with positive deltas, each list in ascending ISIN order |

## Left out

- File reading and the file-not-found errors of the loaders are not modelled. The loaders start from a table already read.
- Logging is not modelled, including every warning and statistic of `validate_returns`.
- `analyze_rankings` and `analyze_rank_delta` are logging only and are not modelled.
- The output generator, the CLI and script wrappers, and the Bloomberg extractor are not part of this model.
- `pd.to_datetime` is not modelled. Dates are already calendar dates, so the coercion of Date cannot fail and changes nothing.
- Prices and returns are exact reals, not floating point.
- DataLoader.PrepareMonthlyPriceData: the Year and Month columns are tracked in the header only. Their values are the row's date fields, which `Bucket` reads directly.
- Columns other than ISIN, Date and Price are tracked by name only. `last()`'s per-column skipping of missing values is not modelled, because rows have no missing values.
- The single-column sorts `sort_values('Date')` (src/data_loader.py:142, src/return_calculator.py:59) and `sort_values('Rank')` (both latest views) use pandas' default quicksort, which is not stable. The model sorts stably, so rows with equal keys keep their input order. Within a bucket holding two rows of the same date, the later one in input order is kept. The (ISIN, Date) sorts are multi-column and stable in pandas, so there the model is exact.
- RankingSystem.RankStocksByReturn: missing returns are not modelled; with them `astype(int)` would raise.
- RankDeltaCalculator.IdentifyConsistentMovers: the `except` path that returns two empty lists is not modelled, because no step inside its `try` raises on the modelled inputs.
- The loaders' missing-column ValueError, raised inside the `try` and re-raised by the `except`, is modelled as `Failure`. `validate_returns` on an empty frame is the one modelled raise outside a `try`. Every other `except` path is unreachable on modelled inputs and is not modelled.
- DataLoader.PrepareMonthlyPriceData: a header without Date makes the code raise KeyError (src/data_loader.py:135); the model accepts such a header. Its one caller passes the loaded price table, whose header always holds Date.
- RankDeltaCalculator.PreviousRankIsPreviousAppearance: stated only for frames with one row per (ISIN, Date). With a duplicate key, the second duplicate takes the first one's rank as PreviousRank although no earlier-dated row exists. The pipeline never produces such a frame: bucketing leaves one row per (ISIN, month), so the returns and ranks have one row per (ISIN, Date).
- ReturnCalculator.YearlyReturn: stated for positive prices only. The code also accepts a zero or negative current price and a negative prior price, and emits the finite return for them; only a zero prior price gives an infinite or undefined return.
