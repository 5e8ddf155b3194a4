# Tyche backtest core in Dafny

This project models the core of the Tyche crypto backtesting repository and
proves properties of it:

- **`backtest_engine`.** It takes a prices table and a target-weights table
  (timestamps × assets) and runs these steps:
  - validates them, sorting the caller's tables in place when their index is
    out of order;
  - aligns them on common assets and common timestamps;
  - applies the `drop` / `fill` / `raise` missing-value policy;
  - computes simple returns (`pct_change`);
  - lags the weights;
  - optionally checks a gross-leverage ceiling;
  - masks incomplete rows under `drop`;
  - computes gross and net exposure, turnover, portfolio returns and the
    compounded equity curve, together with the run's metadata.
- **`ConstantWeightStrategy.generate_weights`.** The single-asset baseline
  strategy.
- **The weight-plot preparation of the reporting module.** `_select_assets`
  (top-k columns by average absolute weight or by absolute average weight)
  and the explicit asset-list and `kind` checks of `plot_weights`.
- **The bronze-to-silver ingest driver.** The file-name pattern, the silver
  partition path, and the loop that tries every matching file once, in
  sorted order, counting each try as an `ok` or a `failed`.

A table is a `Frame`: a column list plus a sequence of timestamp-keyed rows.
A cell is `Option<real>`, where `None` stands for pandas' NaN. Timestamps are
integers. Sums skip `None` cells, as pandas' `sum` does, so an all-`None` row
sums to 0. Every exception the core raises is a value of an error datatype
(`EngineError`, `StrategyError`, `PlotError`, `IngestError`), carried in a
`Result`.

The files:

- `wrappers.dfy`: `Option` and `Result`.
- `sorting.dfy`: a stable insertion sort by any total preorder. It stands for
  `sort_index`, `sort_values` and `sorted`.
- `frames.dfy`: tables, column and row selection, index intersection, and a
  `DataFrame` class whose `SortIndex` sorts a table in place.
- `engine.dfy`: the pipeline stages as functions; `Backtest`, the whole engine
  as a function of its inputs; and the imperative `ValidateInputs` /
  `BacktestEngine` methods on the caller's `DataFrame` objects.
- `engine_lemmas.dfy`: the properties of the stages and of the whole run.
- `engine_scenarios.dfy`: fully invested single-asset runs, where equity tracks
  the price, and the three cases of `tests/backtest/test_engine.py`.
- `constant_weight.dfy`, `visualizer.dfy`, `ingest.dfy`: the three smaller
  pieces.

## Model

| member | source | states |
|---|---|---|
| Engine.ValidationError | src/tyche/backtest/engine/engine.py:88-103 | exactly one error in the source's order: empty table, then duplicate timestamps, then initial equity ≤ 0, then negative lag; `None` iff all checks pass (each case is an iff) |
| Engine.ValidateInputs | src/tyche/backtest/engine/engine.py:84-103 | a missing table is `NotADataFrame` and the other object stays unchanged; otherwise the error is `ValidationError` of the tables before the call, and, when both tables are non-empty, each one whose index is not monotonic is left sorted in place on the caller's object |
| Frames.DataFrame.SortIndex | src/tyche/backtest/engine/engine.py:91-94 | `sort_index(inplace=True)`: the rows become a permutation of the old rows with a non-decreasing index; the columns do not change |
| Frames.Normalize | src/tyche/backtest/engine/engine.py:91-94 | the sorted table has the same columns, is a permutation of the rows, has a non-decreasing index, and equals the input when the input is already sorted |
| Frames.SortedRowsIncreasing | src/tyche/backtest/engine/engine.py:91 | rows sorted by timestamp iff the index is monotonic increasing |
| Frames.NormalizeKeepsDuplicates | src/tyche/backtest/engine/engine.py:91-97 | sorting neither creates nor removes duplicate timestamps, so the duplicate check sees the same answer either way |
| Frames.SortedDistinctUnique | src/tyche/backtest/engine/engine.py:91-94 | two non-decreasing arrangements of the same rows with distinct timestamps are identical |
| Frames.NormalizeUniqueWhenDistinct | src/tyche/backtest/engine/engine.py:91-94 | with distinct timestamps, every non-decreasing permutation of a table's rows is the sorted table the model returns, so tie order does not matter there |
| Frames.TimestampsOfPermutation | src/tyche/backtest/engine/engine.py:91-96 | a permutation of rows is a permutation of their timestamps |
| Engine.NormalizePreserves | src/tyche/backtest/engine/engine.py:88-94 | sorting keeps a table well-formed, keeps its prices positive, and keeps it empty or non-empty |
| Engine.ValidatedIncreasing | src/tyche/backtest/engine/engine.py:91-97 | once validation passes, both indexes are strictly increasing |
| Sorting.InsertionSort | src/tyche/backtest/engine/engine.py:92-94 | the result is sorted, is a permutation of the input, and is the input itself when already sorted |
| Frames.Intersect | src/tyche/backtest/engine/engine.py:107 | `Index.intersection`: x is in the result iff it is in both inputs; no longer than the first input; distinct when the first is |
| Frames.IntersectKeepsOrder | src/tyche/backtest/engine/engine.py:107 | the intersection keeps the first input's order |
| Frames.IntersectPositions | src/tyche/backtest/engine/engine.py:107 | the intersection is the first input read at strictly increasing positions |
| Frames.IncreasingSameElements | src/tyche/backtest/engine/engine.py:114 | two strictly increasing sequences with the same elements are equal, so the common index is determined by its members |
| Frames.SelectColumns | src/tyche/backtest/engine/engine.py:111-112 | `loc[:, cols]`: exactly the requested columns in the requested order, same index, each cell taken from the named column |
| Frames.SelectRows | src/tyche/backtest/engine/engine.py:118 | `loc[idx]`: exactly the requested timestamps in order, each row the input's row with that timestamp |
| Engine.Align | src/tyche/backtest/engine/engine.py:106-118 | fails with `NoCommonAssets` iff no column is shared, and with `TooFewCommonDates` iff columns are shared but fewer than 2 timestamps are; on success both tables have the column intersection (in price order) and the timestamp intersection |
| Engine.AlignKeepsCommonColumns | src/tyche/backtest/engine/engine.py:107-112 | a column survives iff both tables have it, in the price table's column order |
| Engine.AlignKeepsCommonDates | src/tyche/backtest/engine/engine.py:114-118 | a timestamp survives iff both tables have it, and the index stays strictly increasing |
| Engine.AlignKeepsCells | src/tyche/backtest/engine/engine.py:111-118 | every aligned cell is the source table's cell at the same timestamp and asset |
| Engine.AlignKeepsPositive | src/tyche/backtest/engine/engine.py:111-118 | alignment keeps every present price positive |
| EngineProperties.AlignAligned | src/tyche/backtest/engine/engine.py:106-118 | aligning two tables that are already aligned returns them unchanged |
| Engine.FillNa | src/tyche/backtest/engine/engine.py:30 | `fillna(0.0)`: same shape, no missing cell left, each cell is its old value or the fill value |
| EngineProperties.FillNaKeepsPresent | src/tyche/backtest/engine/engine.py:30 | present cells are untouched, and filling twice equals filling once |
| Engine.Carry | src/tyche/backtest/engine/engine.py:123 | one fill step: a present cell stays and a missing one takes its neighbour's value |
| Engine.LastObservationSuffix | src/tyche/backtest/engine/engine.py:123 | the last observation at or before row t is the one found after the first row, or else the first row's own cell |
| Engine.ForwardFillFromAt | src/tyche/backtest/engine/engine.py:123 | a forward-filled cell is the last observation at or before its row, or the carried-in value when the column has none |
| Engine.ForwardFillIsLastObservation | src/tyche/backtest/engine/engine.py:122-123 | `ffill`: each cell is the last observation at or before its row (missing if there is none) |
| Engine.BackwardFillIsNextObservation | src/tyche/backtest/engine/engine.py:124 | `bfill`: each cell is the next observation at or after its row (missing if there is none) |
| EngineProperties.FillPricesObservations | src/tyche/backtest/engine/engine.py:121-124 | `"ffill"` fills forward and every other method string fills backward |
| EngineProperties.LastObservationIsLatest | src/tyche/backtest/engine/engine.py:123 | a forward-filled cell holds the most recent present price at or before it |
| Engine.FillPrices | src/tyche/backtest/engine/engine.py:121-124 | filling keeps columns and index and keeps prices positive |
| Engine.RaiseOnNans | src/tyche/backtest/engine/engine.py:127-131 | `None` iff neither table has a NaN; NaNs in the first table are reported before NaNs in the second |
| EngineProperties.FirstReturnMissing | src/tyche/backtest/engine/engine.py:34 | the first asset-return row is missing in every column |
| EngineProperties.ReturnRecoversPrice | src/tyche/backtest/engine/engine.py:34 | a return at t is present iff both adjacent prices are, and then price[t] = price[t-1]·(1 + return[t]) |
| EngineProperties.ReturnsCompleteFromSecondRow | src/tyche/backtest/engine/engine.py:34 | with no missing price, every return row after the first is complete |
| EngineScenarios.ReturnOfPresentPrices | src/tyche/backtest/engine/engine.py:34 | the return between present prices a and b is b/a − 1 |
| EngineProperties.ShiftZero | src/tyche/backtest/engine/engine.py:36 | a lag of 0 leaves the weights unchanged |
| EngineProperties.ShiftCompose | src/tyche/backtest/engine/engine.py:36 | shifting by a and then by b is shifting by a + b |
| EngineProperties.ShiftRow | src/tyche/backtest/engine/engine.py:36 | the shifted row at t holds the row t − k, or all-missing cells when t < k |
| EngineProperties.LaggedWeightsKeepGaps | src/tyche/backtest/engine/engine.py:36 | outside `fill`, w_used[t] = w[t − lag] for t ≥ lag, missing before, and gaps stay missing |
| EngineProperties.LaggedWeightsFillGaps | src/tyche/backtest/engine/engine.py:28-39 | under `fill`, w_used[t] is w[t − lag] with a missing weight read as 0 for t ≥ lag, and 0 before |
| EngineProperties.LaggedWeightsAt | src/tyche/backtest/engine/engine.py:28-39 | w_used[t] = w[t − lag] for t ≥ lag and missing before; under `fill`, missing weights before and after the shift become 0 |
| EngineProperties.RaiseNeverSucceeds | src/tyche/backtest/engine/engine.py:31-41 | under `raise` the aligned run always fails, and with no NaN in the inputs it fails at the post-lag check because the first return row is missing |
| EngineProperties.BacktestRaiseNeverSucceeds | src/tyche/backtest/engine/engine.py:14-41 | `backtest_engine` with `nan_policy="raise"` never returns a result |
| Engine.FirstAbove | src/tyche/backtest/engine/engine.py:140 | the first position whose value exceeds the bound |
| Engine.EnforceGrossLeverage | src/tyche/backtest/engine/engine.py:134-141 | a ceiling ≤ 0 fails; otherwise it fails iff some row's Σ\|w\| exceeds ceiling + 1e-12, and it reports the first row whose gross exceeds the ceiling with no tolerance, with that gross and the ceiling |
| EngineProperties.LeverageBeforeMask | src/tyche/backtest/engine/engine.py:43-49 | under `drop`, a breach on a row that the mask would remove still fails the run |
| EngineProperties.RunAlignedLeverage | src/tyche/backtest/engine/engine.py:43-44 | outside `raise`, the error found by the ceiling check on the lagged weights is the run's result |
| EngineScenarios.FillBreachAtSecondRow | src/tyche/backtest/engine/engine.py:43-44 | with lag 1 under `fill`, an over-levered first weight row is reported at the second timestamp, with its gross |
| EngineScenarios.LeverageExample | tests/backtest/test_engine.py:28-43 | weights 2 and 1 with ceiling 2.0 fail with `GrossLeverageExceeded` at the second date, gross 3, limit 2 |
| EngineScenarios.FillLagOneGross | src/tyche/backtest/engine/engine.py:30-39 | under `fill` with lag 1 the first lagged row has gross 0 and the second has the gross of the first weight row, at the second timestamp |
| EngineScenarios.BreachAtSecondRow | src/tyche/backtest/engine/engine.py:134-141 | a ceiling kept by the first row and breached by the second is reported at the second row, with that row's gross |
| EngineScenarios.PairTables | tests/backtest/test_engine.py:29-31 | the test's tables are aligned, positive, and the first weight row has gross 3 |
| Engine.CompleteRows | src/tyche/backtest/engine/engine.py:47 | the mask: a row is listed iff every return and every lagged weight is present in it, in increasing order |
| Engine.Keep | src/tyche/backtest/engine/engine.py:48-49 | `loc[mask]`: the kept rows, unchanged, in order |
| Engine.MaskRows | src/tyche/backtest/engine/engine.py:46-49 | both tables keep their columns and a common index; every policy other than `drop` leaves them as they are |
| EngineProperties.DropMaskIsKeep | src/tyche/backtest/engine/engine.py:46-49 | under `drop` the masked tables are the rows of both tables at the positions of the complete rows |
| EngineProperties.DropKeepsExactlyComplete | src/tyche/backtest/engine/engine.py:46-49 | under `drop` every kept row is complete in both tables and every complete row is kept |
| EngineProperties.DropKeepsOrder | src/tyche/backtest/engine/engine.py:46-49 | under `drop` only original rows appear, and an increasing index stays increasing |
| EngineProperties.MaskedIndex | src/tyche/backtest/engine/engine.py:46-49 | the masked index is strictly increasing and drawn from the aligned prices' index |
| EngineProperties.CompleteRowsSuffix | src/tyche/backtest/engine/engine.py:47 | when completeness starts at row m and never stops, the mask is the run of rows from m |
| EngineProperties.CompleteAt | src/tyche/backtest/engine/engine.py:34-47 | with no gaps in the inputs, row k is complete iff k ≥ max(1, lag) |
| EngineProperties.CompleteWithoutGaps | src/tyche/backtest/engine/engine.py:34-47 | with no gaps the prices are not refilled and completeness begins at max(1, lag) |
| EngineProperties.DropMaskWithoutGaps | src/tyche/backtest/engine/engine.py:46-49 | with no gaps `drop` keeps exactly rows max(1, lag) … n − 1 of both tables, in order |
| EngineProperties.DropWithoutGaps | src/tyche/backtest/engine/engine.py:46-49 | with no gaps and max(1, lag) < n, the run has n − max(1, lag) rows, the returns and weights from that row on; otherwise it fails as an empty table |
| EngineScenarios.DropShiftsByOne | src/tyche/backtest/engine/engine.py:46-49 | with lag 1 under `drop`, row i of the result is row i + 1 of the returns and lagged weights |
| EngineScenarios.DropShape | src/tyche/backtest/engine/engine.py:46-80 | with lag 1 under `drop` and no gaps, the run succeeds with every output series one row shorter than the prices |
| EngineProperties.SumWithinAbsSum | src/tyche/backtest/engine/engine.py:51-52 | \|Σ w\| ≤ Σ \|w\| over the present cells |
| EngineProperties.GrossBoundsNet | src/tyche/backtest/engine/engine.py:51-52 | on every row \|net exposure\| ≤ gross exposure |
| EngineProperties.SumOfMissing | src/tyche/backtest/engine/engine.py:51-57 | a row of missing cells sums to 0 |
| EngineProperties.FirstRawTurnoverIsZero | src/tyche/backtest/engine/engine.py:54-55 | the raw turnover of the first row is already 0 (its `diff` is all missing) |
| Engine.Assemble | src/tyche/backtest/engine/engine.py:51-80 | every output series has one entry per kept row; the result carries the masked tables; `n_assets` is the column count; start and end are the first and last kept timestamps |
| EngineProperties.AssembleExposures | src/tyche/backtest/engine/engine.py:51-55 | turnover[0] = 0, turnover[t] = ½·Σ\|w[t] − w[t−1]\|, and \|net\| ≤ gross on every row |
| EngineProperties.AssembleEquity | src/tyche/backtest/engine/engine.py:57-58 | return[t] = Σ w_used[t]·ret[t] over present terms; equity[0] = initial·(1 + return[0]); equity[t] = equity[t−1]·(1 + return[t]) |
| Engine.CumProd | src/tyche/backtest/engine/engine.py:58 | `cumprod`: first entry is the first factor; each entry is the previous one times the next factor |
| EngineProperties.EquityRecurrence | src/tyche/backtest/engine/engine.py:58 | the equity curve obeys the compounding recurrence from the initial equity |
| EngineProperties.EquityIsGrowth | src/tyche/backtest/engine/engine.py:58 | equity[t] = initial·Π_{s≤t}(1 + return[s]) |
| EngineProperties.FirstPeriodReturnZero | src/tyche/backtest/engine/engine.py:57 | a missing return row gives a portfolio return of 0 |
| EngineProperties.PreMaskTables | src/tyche/backtest/engine/engine.py:28-39 | returns and lagged weights share the aligned columns and index |
| EngineProperties.RunAlignedWithoutChecks | src/tyche/backtest/engine/engine.py:46-80 | without `raise` and without a ceiling, the run is the assembled result of the masked tables, or the empty-table error when the mask keeps nothing |
| EngineProperties.RunAlignedSucceeds | src/tyche/backtest/engine/engine.py:28-80 | a successful run passed every check, the mask kept at least one row, and the result is the assembly of the masked tables |
| EngineProperties.RunAlignedColumns | src/tyche/backtest/engine/engine.py:60-69 | a successful run reports the common assets as the columns of both tables, a shared index, at least one row, and `n_assets` equal to the column count |
| EngineProperties.RunAlignedIndex | src/tyche/backtest/engine/engine.py:57-69 | a successful run has a strictly increasing index drawn from the prices, and start ≤ every timestamp ≤ end |
| EngineProperties.MetadataBounds | src/tyche/backtest/engine/engine.py:67-68 | the first and last timestamps of an increasing index are its minimum and maximum |
| EngineProperties.IndexSpans | src/tyche/backtest/engine/engine.py:67-68 | the first and last timestamps of a table with an increasing index belong to it and bound every row |
| EngineProperties.AssembleMetadata | src/tyche/backtest/engine/engine.py:67-68 | start and end are timestamps of the kept rows and bound every kept row |
| EngineProperties.AssembleFirstEquity | src/tyche/backtest/engine/engine.py:57-58 | a first return row with no present cell gives a first period return of 0 and a first equity point equal to the initial equity |
| EngineProperties.FirstEquityIsInitial | src/tyche/backtest/engine/engine.py:34-58 | without `drop`, a successful run has one equity point per aligned date, and equity[0] is the initial equity |
| EngineProperties.NormalizeSameTimestamps | src/tyche/backtest/engine/engine.py:91-94 | sorting keeps the set of timestamps |
| EngineProperties.BacktestAssetsAndDates | src/tyche/backtest/engine/engine.py:14-69 | a successful backtest trades exactly the assets both inputs share, on timestamps both inputs have, in increasing order, between start and end |
| EngineProperties.SelectAll | src/tyche/backtest/engine/engine.py:111-118 | selecting all columns and all timestamps of a table gives the table back |
| EngineProperties.BacktestOfAligned | src/tyche/backtest/engine/engine.py:14-80 | for valid inputs that are already aligned, the backtest is the post-alignment pipeline on them |
| Engine.BacktestEngine | src/tyche/backtest/engine/engine.py:14-80 | a missing table is `NotADataFrame` and the other object is left unchanged; otherwise the result is `Backtest` of the tables before the call, and the caller's tables are left sorted as validation leaves them |
| EngineScenarios.FullyInvestedPrice | src/tyche/backtest/engine/engine.py:28-30 | a gap-free single-asset price survives the missing-value policy unchanged |
| EngineScenarios.FullyInvestedAssetReturn | src/tyche/backtest/engine/engine.py:28-34 | a gap-free single-asset return at t is price[t]/price[t−1] − 1 |
| EngineScenarios.FullyInvestedWeight | src/tyche/backtest/engine/engine.py:36-39 | with weight 1 and lag 1, every used weight after the first row is 1 |
| EngineScenarios.SuccessfulRunCompounds | src/tyche/backtest/engine/engine.py:57-58 | a successful run's equity compounds its period returns, and each period return is Σ w·ret over present terms |
| EngineScenarios.FullWeightPortfolioReturn | src/tyche/backtest/engine/engine.py:57 | a single asset at weight 1 earns exactly its own return |
| EngineScenarios.Telescope | src/tyche/backtest/engine/engine.py:58 | compounding by b/a − 1 moves equity from the price ratio a/c to b/c |
| EngineScenarios.TracksPath | src/tyche/backtest/engine/engine.py:57-58 | equity compounding the price returns equals initial·price[t]/price[0] |
| EngineScenarios.TrackStep | src/tyche/backtest/engine/engine.py:58 | one compounding step keeps equity at initial·price[t]/price[0] |
| EngineScenarios.FillReturn | src/tyche/backtest/engine/engine.py:28-57 | a fully invested single-asset run under `fill` earns the asset's return on every row after the first |
| EngineScenarios.FillTracksPrice | src/tyche/backtest/engine/engine.py:14-80 | under `fill` with lag 1 and weight 1, equity[t] = initial·price[t]/price[0] on every date |
| EngineScenarios.KeptRowReturn | src/tyche/backtest/engine/engine.py:46-57 | a kept row with weight 1 earns the price return of the next aligned date |
| EngineScenarios.DropReturn | src/tyche/backtest/engine/engine.py:46-57 | under `drop` with lag 1, period i earns the price return from date i to date i + 1 |
| EngineScenarios.ShiftedTracks | src/tyche/backtest/engine/engine.py:58 | equity compounded from the second price onward tracks the price, counting the initial equity as the first point |
| EngineScenarios.PathShiftedTracks | src/tyche/backtest/engine/engine.py:58 | the same, for the price path of a single-asset table |
| EngineScenarios.DropTracksPrice | src/tyche/backtest/engine/engine.py:46-58 | under `drop` with lag 1 and weight 1 there are n − 1 points, and equity at date i + 1 is initial·price[i+1]/price[0] |
| EngineScenarios.BitcoinFullyInvested | tests/backtest/test_engine.py:7-9 | the test's BTC tables are a fully invested single-asset pair with prices 100, 110, 121 |
| EngineScenarios.TrackedValue | src/tyche/backtest/engine/engine.py:58 | tracking the price pins equity at t to initial·last/first |
| EngineScenarios.FillGrowsTo121 | tests/backtest/test_engine.py:6-14 | prices 100, 110, 121 at weight 1 under `fill`: three points, the first 100, the last 121 |
| EngineScenarios.DropGrowsTo121 | tests/backtest/test_engine.py:17-25 | the same under `drop`: two points, the last 121 |
| EngineScenarios.FillExample | tests/backtest/test_engine.py:6-14 | the first test case: the backtest succeeds with equity 100 first and 121 last |
| EngineScenarios.DropExample | tests/backtest/test_engine.py:17-25 | the second test case: two equity points, the last 121 |
| ConstantWeight.ZeroFrame | src/tyche/strategies/baseline/constant_weight.py:29 | a table over the given index and columns with 0 in every cell |
| ConstantWeight.SetColumn | src/tyche/strategies/baseline/constant_weight.py:30 | column assignment: the named column takes the value on every row and nothing else changes |
| ConstantWeight.ConstantWeightStrategy.GenerateWeights | src/tyche/strategies/baseline/constant_weight.py:19-31 | fails iff the symbol is not a price column, reporting the symbol and columns; otherwise it returns the prices' index and columns, with `weight` in the symbol's column and 0.0 everywhere else |
| ConstantWeight.WeightsIgnorePrices | src/tyche/strategies/baseline/constant_weight.py:24-31 | the weights depend only on the prices' index and columns, never on the price values |
| ConstantWeight.ConstantGross | src/tyche/strategies/baseline/constant_weight.py:29-30 | a row with `weight` in one column and 0 elsewhere has gross \|weight\| |
| ConstantWeight.StrategyGross | src/tyche/strategies/baseline/constant_weight.py:29-30 | the strategy's gross exposure is \|weight\| on every row |
| ConstantWeight.ConstantLongTracksPrice | src/tyche/strategies/baseline/constant_weight.py:12-17 | a +100% constant long in the only asset, run under `fill` with lag 1, makes equity follow the price |
| Visualizer.Mean | src/tyche/backtest/reporting/visualizer.py:85-87 | NaN-skipping mean: missing iff no cell is present; otherwise mean·count = sum |
| Visualizer.Score | src/tyche/backtest/reporting/visualizer.py:84-87 | every score is non-negative |
| Visualizer.NonNegativeMean | src/tyche/backtest/reporting/visualizer.py:85 | the mean of non-negative cells is non-negative |
| Visualizer.AbsKeepsCount | src/tyche/backtest/reporting/visualizer.py:85 | taking absolute values keeps which cells are present |
| Visualizer.ScoresCompare | src/tyche/backtest/reporting/visualizer.py:85-87 | `avg_weight` is missing iff `avg_abs_weight` is, and \|mean(w)\| ≤ mean(\|w\|) |
| Visualizer.PairBeforeIsTotalPreorder | src/tyche/backtest/reporting/visualizer.py:91 | descending score order with NaN last is a total preorder |
| Visualizer.Ranking | src/tyche/backtest/reporting/visualizer.py:91 | `sort_values(ascending=False)`: the pairs sorted by descending score with NaN last, as a permutation |
| Visualizer.RankedEntry | src/tyche/backtest/reporting/visualizer.py:91 | every ranked entry is a real column with that column's score |
| Visualizer.RankingLabelsDistinct | src/tyche/backtest/reporting/visualizer.py:91 | the ranked labels repeat no column |
| Visualizer.HeadCount | src/tyche/backtest/reporting/visualizer.py:91 | `head(n)`: min(n, len) for n ≥ 0, and all but the last −n for negative n |
| Visualizer.SelectAssets | src/tyche/backtest/reporting/visualizer.py:80-92 | an empty table comes back unchanged; otherwise it fails iff `top_by` is unknown; on success it keeps `head(max_assets)` columns, all drawn from the input, with the index and every cell unchanged |
| Visualizer.KeptOutrankDropped | src/tyche/backtest/reporting/visualizer.py:85-91 | every kept column ranks at or before every dropped column (its score is at least as large; NaN last) |
| Visualizer.MissingMembers | src/tyche/backtest/reporting/visualizer.py:59 | a name is listed iff it is requested and not a column |
| Visualizer.MissingAppend | src/tyche/backtest/reporting/visualizer.py:59 | the unknown names of a concatenated list are the two lists' unknown names, in order |
| Visualizer.WeightsToPlot | src/tyche/backtest/reporting/visualizer.py:54-72 | unknown explicit assets fail iff some are missing, listing them; otherwise the selection's error comes next, then a bad `kind` (iff the earlier steps passed); on success the columns are exactly the requested list, with their cells, or the selection |
| Ingest.MatchName | scripts/ingest_all_bronze_ohlcv_to_silver.py:14-16 | every match yields a valid market type and symbol whose bronze name is the input, possibly followed by one line break |
| Ingest.MatchSymbol | scripts/ingest_all_bronze_ohlcv_to_silver.py:14-16 | a match yields a non-empty symbol without a line break, followed by `.csv` and at most one final line break |
| Ingest.MatchParts | scripts/ingest_all_bronze_ohlcv_to_silver.py:14-16 | a match yields a valid market type and symbol that rebuild the name with the infix and extension, possibly followed by one line break |
| Ingest.ParseSymbol | scripts/ingest_all_bronze_ohlcv_to_silver.py:14-16 | the symbol part of a built name parses back to the symbol, whatever it contains |
| Ingest.ParseParts | scripts/ingest_all_bronze_ohlcv_to_silver.py:14-16 | a name built from a valid market type and symbol parses back to them |
| Ingest.ParseEncoded | scripts/ingest_all_bronze_ohlcv_to_silver.py:14-34 | every bronze name parses back to its market type and symbol, even when the symbol contains dots or `.csv` |
| Ingest.MatchIffFileName | scripts/ingest_all_bronze_ohlcv_to_silver.py:14-16 | a name matches iff it is `spot`/`perp`, the infix, a non-empty symbol without a line break and `.csv`, optionally followed by one line break |
| Ingest.OutPath | scripts/ingest_all_bronze_ohlcv_to_silver.py:36-50 | the silver root, then `exchange=cryptoquant_agg`, `market_type=<mt>`, `timeframe=1d`, `symbol=<symbol>`, `part-000.parquet` |
| Ingest.OutPathInjective | scripts/ingest_all_bronze_ohlcv_to_silver.py:43-50 | two different market types or symbols never share an output file |
| Ingest.LexLeIsTotalPreorder | scripts/ingest_all_bronze_ohlcv_to_silver.py:20 | code-point order on names is a total preorder |
| Ingest.LexLeAntisymmetric | scripts/ingest_all_bronze_ohlcv_to_silver.py:20 | names ordered both ways are equal, so the sorted order is unique |
| Ingest.Matching | scripts/ingest_all_bronze_ohlcv_to_silver.py:20 | the filter keeps exactly the listed names that match, each exactly as often as listed |
| Ingest.MatchingFiles | scripts/ingest_all_bronze_ohlcv_to_silver.py:20 | the matching names, each exactly as often as listed, sorted by code point; a name is in it iff it is listed and matches |
| Ingest.SuccessesAppend | scripts/ingest_all_bronze_ohlcv_to_silver.py:61-64 | one more attempt adds one success iff it succeeded |
| Ingest.TryAll | scripts/ingest_all_bronze_ohlcv_to_silver.py:27-65 | the `for` loop: one attempt per file, in order, with its parsed output path; `ok` counts the successes and ok + failed is the number of files |
| Ingest.IngestAll | scripts/ingest_all_bronze_ohlcv_to_silver.py:19-67 | fails iff no file matches; otherwise it tries each matching file once, in sorted order, with its parsed output path; `ok` counts the successes and ok + failed equals the number of matching files |

## Left out

- Floating point. Prices, weights, returns and equity are `real`, and the
  leverage tolerance `1e-12` is an exact real constant. Rounding is not
  modelled, and neither is the `abs(... - 121.0) < 1e-12` slack of the tests:
  the model proves those equities exactly.
- Engine.Backtest, Engine.BacktestEngine, Engine.RunAligned, Engine.PctChange,
  Engine.AlignKeepsPositive: require every present price to be positive,
  because the `inf`/NaN that `pct_change` produces after a zero price is a
  floating-point value the model does not have.
- Engine.Backtest, Engine.BacktestEngine, Engine.Align, Visualizer.SelectAssets,
  Visualizer.WeightsToPlot: require distinct column labels in each table
  (`WellFormed`). pandas' behaviour with duplicated column labels, which the
  plotting functions would accept, is not modelled.
- Frames.DataFrame.SortIndex, Frames.Normalize: rows that share a timestamp
  keep their relative order, as a stable sort does. pandas' default
  `sort_index` (quicksort) does not promise this, so the order of tied rows
  left on the caller's object on the duplicate-timestamp path is unspecified
  in the source and fixed in the model. With distinct timestamps the sorted
  table is the same either way (Frames.NormalizeUniqueWhenDistinct).
- Engine.ValidateInputs: a non-DataFrame argument is a `null` reference. Type
  tests on other Python objects are not modelled.
- `pct_change` padding. Which pandas version pads missing prices is left out:
  a return is missing whenever either adjacent price is missing.
- Timestamps are integers. The `.date()` / `:.6f` formatting of the leverage
  message is left out; the error carries the timestamp, gross and limit as
  values. The other error messages are constructors of the error datatypes.
- `BacktestResult.to_frame` in `src/tyche/backtest/engine/types.py` is a pandas
  outer-join concat and is not modelled. The result record itself is
  `Engine.BacktestResult`.
- Visualizer.Ranking: ties between equal scores keep column order, as a stable
  sort does. pandas' default `sort_values` is not guaranteed stable, so
  which of two tied columns survives `head` is not pinned down by the source.
- All matplotlib drawing: `plot_equity`, `_plot_weights_heatmap`,
  `_plot_weights_area`, `plt.show`, figure sizes and titles. `PlotConfig`
  keeps only `max_assets` and `top_by`.
- Ingest.IngestAll: directory globbing and printing are left out. The listing
  is a parameter, and the external call `ingest_spot_csv_to_parquet` is an
  abstract function from (name, output path) to success or failure.
  `IngestSpec`'s constant fields appear only as the path components they
  produce.
- Ingest.MatchName: the pattern's `$` also matches just before a final line
  break, and the model keeps this. Such a name cannot come out of the `*.csv`
  glob, so it is never processed.
- `src/tyche/backtest/run.py`, `scripts/run_constant_long.py` and
  `scripts/quick_visualize.py`. These are drivers that do loading, printing,
  random synthetic data and plotting. `tyche.data` (the storage loaders and
  the CSV-to-parquet ingest) is not part of this model.
