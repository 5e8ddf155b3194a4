/** The backtest pipeline of `backtest_engine`: validation, alignment,
    missing-value policy, returns, weight lag, leverage ceiling, row mask,
    exposures, turnover and the compounded equity curve. */
module Engine {
  import opened Wrappers
  import opened Sorting
  import opened Frames

  /** The numeric slack `1e-12` the leverage test adds to the ceiling. */
  const LeverageTolerance: real := 0.000000000001

  /** The keyword arguments of `backtest_engine`. The two policy switches stay
      strings: the engine compares them with literals and rejects nothing. */
  datatype Config = Config(
    initialEquity: real,
    weightLag: int,
    nanPolicy: string,
    priceFillMethod: string,
    grossLeverageMax: Option<real>)

  /** The exceptions the engine raises. All are `ValueError` except
      `NotADataFrame` (`TypeError`) and `EmptyAfterMask` (the `IndexError` of
      assigning `turnover.iloc[0]` on an empty series). */
  datatype EngineError =
    | NotADataFrame
    | EmptyInput
    | DuplicateTimestamps
    | NonPositiveInitialEquity
    | NegativeWeightLag
    | NoCommonAssets
    | TooFewCommonDates
    | NansInPricesOrReturns
    | NansInWeights
    | NonPositiveLeverageMax
    | GrossLeverageExceeded(ts: int, gross: real, limit: real)
    | EmptyAfterMask

  datatype Metadata = Metadata(
    initialEquity: real,
    weightLag: int,
    nanPolicy: string,
    priceFillMethod: string,
    grossLeverageMax: Option<real>,
    nAssets: nat,
    start: int,
    end: int)

  /** The frozen `BacktestResult`. Every series is indexed by the rows of
      `weightsUsed` (which has the same index as `assetReturns`). */
  datatype BacktestResult = BacktestResult(
    equity: seq<real>,
    periodReturns: seq<real>,
    weightsUsed: Frame,
    assetReturns: Frame,
    grossExposure: seq<real>,
    netExposure: seq<real>,
    turnover: seq<real>,
    metadata: Metadata)

  // ---------------------------------------------------------------------
  // Validator

  /** The tables `_validate_inputs` leaves behind in the caller's objects:
      each one sorted by index unless either table is empty (the emptiness
      test comes first). */
  function NormalizeInputs(prices: Frame, weights: Frame): (Frame, Frame) {
    if prices.Empty() || weights.Empty() then (prices, weights)
    else (Normalize(prices), Normalize(weights))
  }

  /** The error `_validate_inputs` raises, if any, checked in source order. */
  function ValidationError(prices: Frame, weights: Frame, initialEquity: real, weightLag: int): (r: Option<EngineError>)
    ensures r == Some(EmptyInput) <==> prices.Empty() || weights.Empty()
    ensures r == Some(DuplicateTimestamps) <==>
      !prices.Empty() && !weights.Empty() && !(Distinct(prices.Index()) && Distinct(weights.Index()))
    ensures r == Some(NonPositiveInitialEquity) <==>
      !prices.Empty() && !weights.Empty() && Distinct(prices.Index()) && Distinct(weights.Index())
      && initialEquity <= 0.0
    ensures r == Some(NegativeWeightLag) <==>
      !prices.Empty() && !weights.Empty() && Distinct(prices.Index()) && Distinct(weights.Index())
      && initialEquity > 0.0 && weightLag < 0
    ensures r.None? <==>
      !prices.Empty() && !weights.Empty() && Distinct(prices.Index()) && Distinct(weights.Index())
      && initialEquity > 0.0 && weightLag >= 0
  {
    if prices.Empty() || weights.Empty() then Some(EmptyInput)
    else
      var (p, w) := NormalizeInputs(prices, weights);
      NormalizeKeepsDuplicates(prices);
      NormalizeKeepsDuplicates(weights);
      if !Distinct(p.Index()) || !Distinct(w.Index()) then Some(DuplicateTimestamps)
      else if initialEquity <= 0.0 then Some(NonPositiveInitialEquity)
      else if weightLag < 0 then Some(NegativeWeightLag)
      else None
  }

  lemma NormalizePreserves(f: Frame)
    ensures f.WellFormed() ==> Normalize(f).WellFormed()
    ensures PositivePrices(f) ==> PositivePrices(Normalize(f))
    ensures Normalize(f).Empty() == f.Empty()
  {
    var g := Normalize(f);
    assert |g.rows| == |multiset(g.rows)| == |multiset(f.rows)| == |f.rows|;
    forall t | 0 <= t < |g.rows|
      ensures exists s :: 0 <= s < |f.rows| && f.rows[s] == g.rows[t]
    {
      assert g.rows[t] in multiset(f.rows);
      assert g.rows[t] in f.rows;
    }
  }

  /** After validation passes, both tables hold their rows in strictly
      increasing timestamp order. */
  lemma ValidatedIncreasing(prices: Frame, weights: Frame, initialEquity: real, weightLag: int)
    requires ValidationError(prices, weights, initialEquity, weightLag).None?
    ensures StrictlyIncreasing(NormalizeInputs(prices, weights).0.Index())
    ensures StrictlyIncreasing(NormalizeInputs(prices, weights).1.Index())
  {
    NormalizeKeepsDuplicates(prices);
    NormalizeKeepsDuplicates(weights);
  }

  // ---------------------------------------------------------------------
  // Aligner

  /** `prices.loc[t, c]` for a timestamp and a column the table has. */
  function CellAt(f: Frame, t: int, c: string): Cell
    requires f.WellFormed() && t in f.Index() && c in f.columns
  {
    f.rows[IndexOf(f.Index(), t)].cells[IndexOf(f.columns, c)]
  }

  /** Two tables over the same columns and the same strictly increasing
      index, with at least one column and at least two rows. */
  predicate Aligned(px: Frame, w: Frame) {
    && px.WellFormed() && w.WellFormed()
    && px.columns == w.columns && px.Index() == w.Index()
    && |px.columns| >= 1 && |px.rows| >= 2
    && StrictlyIncreasing(px.Index())
  }

  lemma IntersectIncreasing(a: seq<int>, b: seq<int>)
    requires StrictlyIncreasing(a)
    ensures StrictlyIncreasing(Intersect(a, b))
  {
    var r := Intersect(a, b);
    assert Distinct(a);
    IntersectKeepsOrder(a, b);
    forall i, j | 0 <= i < j < |r| ensures r[i] < r[j] {
      assert r[i] in a && r[j] in a;
      IntersectOrderAt(a, b, i, j);
      var p, q := IndexOf(a, r[i]), IndexOf(a, r[j]);
      assert a[p] == r[i] && a[q] == r[j];
    }
  }

  /** `_align`: restricts both tables to their common columns, in the price
      table's column order, and to their common timestamps. */
  function Align(prices: Frame, weights: Frame): (r: Result<(Frame, Frame), EngineError>)
    requires prices.WellFormed() && weights.WellFormed()
    ensures r.Failure? ==> r.error == NoCommonAssets || r.error == TooFewCommonDates
    ensures r == Failure(NoCommonAssets) <==>
      forall c :: c in prices.columns ==> c !in weights.columns
    ensures r == Failure(TooFewCommonDates) <==>
      (exists c :: c in prices.columns && c in weights.columns)
      && |Intersect(prices.Index(), weights.Index())| < 2
    ensures r.Success? ==>
      && r.value.0.columns == r.value.1.columns == Intersect(prices.columns, weights.columns)
      && r.value.0.Index() == r.value.1.Index() == Intersect(prices.Index(), weights.Index())
      && |r.value.0.rows| >= 2 && |r.value.0.columns| >= 1
      && r.value.0.WellFormed() && r.value.1.WellFormed()
  {
    var cols := Intersect(prices.columns, weights.columns);
    if |cols| == 0 then
      assert forall c :: c in prices.columns ==> c !in weights.columns;
      Failure(NoCommonAssets)
    else
      assert cols[0] in prices.columns && cols[0] in weights.columns;
      var idx := Intersect(prices.Index(), weights.Index());
      if |idx| < 2 then Failure(TooFewCommonDates)
      else
        var px, w := SelectColumns(prices, cols), SelectColumns(weights, cols);
        AlignedCells(prices, px, cols, idx);
        AlignedCells(weights, w, cols, idx);
        Success((SelectRows(px, idx), SelectRows(w, idx)))
  }

  /** `_align` keeps exactly the common columns, ordered as in the price table. */
  lemma AlignKeepsCommonColumns(prices: Frame, weights: Frame)
    requires prices.WellFormed() && weights.WellFormed()
    requires Align(prices, weights).Success?
    ensures var px := Align(prices, weights).value.0;
      && (forall c :: c in px.columns <==> c in prices.columns && c in weights.columns)
      && (forall i, j :: 0 <= i < j < |px.columns| ==>
            IndexOf(prices.columns, px.columns[i]) < IndexOf(prices.columns, px.columns[j]))
  {
    var cols := Intersect(prices.columns, weights.columns);
    var px := Align(prices, weights).value.0;
    assert px.columns == cols;
    forall i, j | 0 <= i < j < |px.columns|
      ensures IndexOf(prices.columns, px.columns[i]) < IndexOf(prices.columns, px.columns[j])
    {
      IntersectOrderAt(prices.columns, weights.columns, i, j);
    }
  }

  /** `_align` keeps exactly the common timestamps, in increasing order when
      the inputs are sorted. */
  lemma AlignKeepsCommonDates(prices: Frame, weights: Frame)
    requires prices.WellFormed() && weights.WellFormed()
    requires Align(prices, weights).Success?
    ensures var px := Align(prices, weights).value.0;
      && (forall t :: t in px.Index() <==> t in prices.Index() && t in weights.Index())
      && (StrictlyIncreasing(prices.Index()) ==> StrictlyIncreasing(px.Index()))
  {
    if StrictlyIncreasing(prices.Index()) {
      IntersectIncreasing(prices.Index(), weights.Index());
    }
  }

  /** Every aligned cell is the input cell at the same timestamp and column. */
  lemma AlignKeepsCells(prices: Frame, weights: Frame)
    requires prices.WellFormed() && weights.WellFormed()
    requires Align(prices, weights).Success?
    ensures var (px, w) := Align(prices, weights).value;
      && (forall k, j :: 0 <= k < |px.rows| && 0 <= j < |px.columns| ==>
            px.rows[k].ts in prices.Index() && px.columns[j] in prices.columns &&
            px.rows[k].cells[j] == CellAt(prices, px.rows[k].ts, px.columns[j]))
      && (forall k, j :: 0 <= k < |w.rows| && 0 <= j < |w.columns| ==>
            w.rows[k].ts in weights.Index() && w.columns[j] in weights.columns &&
            w.rows[k].cells[j] == CellAt(weights, w.rows[k].ts, w.columns[j]))
  {
    var cols := Intersect(prices.columns, weights.columns);
    var idx := Intersect(prices.Index(), weights.Index());
    AlignedCells(prices, SelectColumns(prices, cols), cols, idx);
    AlignedCells(weights, SelectColumns(weights, cols), cols, idx);
  }

  /** Cells of `SelectRows(SelectColumns(f, cols), idx)` are the cells of `f`
      at the same labels. */
  lemma AlignedCells(f: Frame, sel: Frame, cols: seq<string>, idx: seq<int>)
    requires f.WellFormed() && Distinct(cols)
    requires forall c :: c in cols ==> c in f.columns
    requires sel == SelectColumns(f, cols)
    requires forall t :: t in idx ==> t in sel.Index()
    ensures var r := SelectRows(sel, idx);
      && r.WellFormed()
      && forall k, j :: 0 <= k < |r.rows| && 0 <= j < |r.columns| ==>
           r.rows[k].ts in f.Index() && r.columns[j] in f.columns &&
           r.rows[k].cells[j] == CellAt(f, r.rows[k].ts, r.columns[j])
  {
    var r := SelectRows(sel, idx);
    forall k, j | 0 <= k < |r.rows| && 0 <= j < |r.columns|
      ensures r.rows[k].ts in f.Index() && r.columns[j] in f.columns
      ensures r.rows[k].cells[j] == CellAt(f, r.rows[k].ts, r.columns[j])
    {
      var t := idx[k];
      assert r.rows[k].ts == t;
      var i := IndexOf(sel.Index(), t);
      assert sel.Index() == f.Index();
      assert r.rows[k] == sel.rows[i];
      assert cols[j] in f.columns;
    }
  }

  /** The positive-price requirement survives alignment. */
  lemma AlignKeepsPositive(prices: Frame, weights: Frame)
    requires prices.WellFormed() && weights.WellFormed() && PositivePrices(prices)
    requires Align(prices, weights).Success?
    ensures PositivePrices(Align(prices, weights).value.0)
  {
    AlignKeepsCells(prices, weights);
    var px := Align(prices, weights).value.0;
    forall k | 0 <= k < |px.rows| ensures PositiveCells(px.rows[k].cells) {
      forall j | 0 <= j < |px.rows[k].cells| && px.rows[k].cells[j].Some?
        ensures px.rows[k].cells[j].value > 0.0
      {
        assert prices.rows[IndexOf(prices.Index(), px.rows[k].ts)].cells ==
          prices.rows[IndexOf(prices.Index(), px.rows[k].ts)].cells;
      }
    }
  }

  // ---------------------------------------------------------------------
  // MissingDataPolicy: fillna, ffill, bfill and the NaN checks

  function FillCells(cs: seq<Cell>, v: real): (r: seq<Cell>)
    ensures |r| == |cs|
    ensures AllPresent(r)
    ensures forall j :: 0 <= j < |cs| ==> r[j] == Some(cs[j].GetOr(v))
  {
    seq(|cs|, j requires 0 <= j < |cs| => Some(cs[j].GetOr(v)))
  }

  /** `fillna(v)`: every missing cell becomes `v`, every present cell stays. */
  function FillNa(f: Frame, v: real): (r: Frame)
    ensures r.columns == f.columns && r.Index() == f.Index()
    ensures f.WellFormed() ==> r.WellFormed()
    ensures !AnyMissing(r)
    ensures forall t :: 0 <= t < |f.rows| ==> r.rows[t].cells == FillCells(f.rows[t].cells, v)
  {
    Frame(f.columns, seq(|f.rows|, t requires 0 <= t < |f.rows| =>
      Row(f.rows[t].ts, FillCells(f.rows[t].cells, v))))
  }

  /** Column `j` of the current row, or of `prev` where the current one is missing. */
  function Carry(prev: seq<Cell>, cur: seq<Cell>): (r: seq<Cell>)
    requires |prev| == |cur|
    ensures |r| == |cur|
    ensures forall j :: 0 <= j < |cur| ==> r[j] == if cur[j].Some? then cur[j] else prev[j]
    ensures PositiveCells(prev) && PositiveCells(cur) ==> PositiveCells(r)
  {
    seq(|cur|, j requires 0 <= j < |cur| => if cur[j].Some? then cur[j] else prev[j])
  }

  predicate PositiveRows(rows: seq<Row>) {
    forall t :: 0 <= t < |rows| ==> PositiveCells(rows[t].cells)
  }

  /** Forward fill from the top, `prev` being the filled row just above. */
  function ForwardFillFrom(rows: seq<Row>, n: nat, prev: seq<Cell>): (r: seq<Row>)
    requires Width(rows, n) && |prev| == n
    ensures |r| == |rows|
    ensures forall t :: 0 <= t < |rows| ==> r[t].ts == rows[t].ts && |r[t].cells| == n
    ensures PositiveRows(rows) && PositiveCells(prev) ==> PositiveRows(r)
  {
    if rows == [] then []
    else
      var first := Row(rows[0].ts, Carry(prev, rows[0].cells));
      var tail := ForwardFillFrom(rows[1..], n, first.cells);
      assert PositiveRows(rows) ==> PositiveCells(rows[0].cells);
      assert forall t :: 1 <= t < |rows| ==> ([first] + tail)[t] == tail[t - 1];
      [first] + tail
  }

  /** pandas' `ffill`, row by row from the top; nothing is carried into the
      first row. */
  function ForwardFillRows(rows: seq<Row>, n: nat): (r: seq<Row>)
    requires Width(rows, n)
    ensures |r| == |rows|
    ensures forall t :: 0 <= t < |rows| ==> r[t].ts == rows[t].ts && |r[t].cells| == n
    ensures PositiveRows(rows) ==> PositiveRows(r)
  {
    ForwardFillFrom(rows, n, Nones(n))
  }

  /** pandas' `bfill`, row by row from the bottom. */
  function BackwardFillRows(rows: seq<Row>, n: nat): (r: seq<Row>)
    requires Width(rows, n)
    ensures |r| == |rows|
    ensures forall t :: 0 <= t < |rows| ==> r[t].ts == rows[t].ts && |r[t].cells| == n
    ensures PositiveRows(rows) ==> PositiveRows(r)
  {
    if rows == [] then []
    else
      var tail := BackwardFillRows(rows[1..], n);
      var next := if tail == [] then Nones(n) else tail[0].cells;
      var first := Row(rows[0].ts, Carry(next, rows[0].cells));
      assert PositiveRows(rows) ==> PositiveCells(first.cells) by {
        if PositiveRows(rows) {
          assert PositiveCells(rows[0].cells);
          assert tail != [] ==> PositiveCells(tail[0].cells);
        }
      }
      assert forall t :: 1 <= t < |rows| ==> ([first] + tail)[t] == tail[t - 1];
      [first] + tail
  }

  /** `_fill_prices`: forward fill for `"ffill"`, backward fill for every
      other method string. */
  function FillPrices(px: Frame, fillMethod: string): (r: Frame)
    requires px.WellFormed()
    ensures r.columns == px.columns && r.Index() == px.Index() && r.WellFormed()
    ensures PositivePrices(px) ==> PositivePrices(r)
  {
    assert PositivePrices(px) ==> PositiveRows(px.rows);
    if fillMethod == "ffill" then Frame(px.columns, ForwardFillRows(px.rows, |px.columns|))
    else Frame(px.columns, BackwardFillRows(px.rows, |px.columns|))
  }

  /** The most recent present value of column `j` at or above row `t`. */
  function LastObservation(rows: seq<Row>, n: nat, t: nat, j: nat): Cell
    requires Width(rows, n) && t < |rows| && j < n
  {
    if rows[t].cells[j].Some? then rows[t].cells[j]
    else if t == 0 then None
    else LastObservation(rows, n, t - 1, j)
  }

  /** The nearest present value of column `j` at or below row `t`. */
  function NextObservation(rows: seq<Row>, n: nat, t: nat, j: nat): Cell
    requires Width(rows, n) && t < |rows| && j < n
    decreases |rows| - t
  {
    if rows[t].cells[j].Some? then rows[t].cells[j]
    else if t + 1 == |rows| then None
    else NextObservation(rows, n, t + 1, j)
  }

  /** The last observation at or above row `t >= 1` is the one found below
      the first row, or failing that the first row's own cell. */
  lemma {:induction false} LastObservationSuffix(rows: seq<Row>, n: nat, t: nat, j: nat)
    requires Width(rows, n) && 1 <= t < |rows| && j < n
    ensures LastObservation(rows, n, t, j) ==
      if LastObservation(rows[1..], n, t - 1, j).Some? then LastObservation(rows[1..], n, t - 1, j)
      else rows[0].cells[j]
  {
    assert rows[1..][t - 1] == rows[t];
    if rows[t].cells[j].None? && t > 1 {
      LastObservationSuffix(rows, n, t - 1, j);
    }
  }

  lemma {:induction false} NextObservationSuffix(rows: seq<Row>, n: nat, t: nat, j: nat)
    requires Width(rows, n) && 1 <= t < |rows| && j < n
    ensures NextObservation(rows[1..], n, t - 1, j) == NextObservation(rows, n, t, j)
    decreases |rows| - t
  {
    if t + 1 < |rows| {
      NextObservationSuffix(rows, n, t + 1, j);
    }
  }

  /** A cell filled from the top holds the last observation at or above it,
      or the carried-in cell when the column has none. */
  lemma {:induction false} ForwardFillFromAt(rows: seq<Row>, n: nat, prev: seq<Cell>, t: nat, j: nat)
    requires Width(rows, n) && |prev| == n && t < |rows| && j < n
    ensures ForwardFillFrom(rows, n, prev)[t].cells[j] ==
      if LastObservation(rows, n, t, j).Some? then LastObservation(rows, n, t, j) else prev[j]
  {
    if t > 0 {
      var first := Carry(prev, rows[0].cells);
      assert ForwardFillFrom(rows, n, prev)[t] == ForwardFillFrom(rows[1..], n, first)[t - 1];
      ForwardFillFromAt(rows[1..], n, first, t - 1, j);
      LastObservationSuffix(rows, n, t, j);
    }
  }

  /** Forward fill writes into each cell the last value observed at or above
      it, and leaves it missing when there is none. */
  lemma ForwardFillIsLastObservation(rows: seq<Row>, n: nat, t: nat, j: nat)
    requires Width(rows, n) && t < |rows| && j < n
    ensures ForwardFillRows(rows, n)[t].cells[j] == LastObservation(rows, n, t, j)
  {
    ForwardFillFromAt(rows, n, Nones(n), t, j);
  }

  /** Backward fill writes into each cell the next value observed at or below
      it, and leaves it missing when there is none. */
  lemma {:induction false} BackwardFillIsNextObservation(rows: seq<Row>, n: nat, t: nat, j: nat)
    requires Width(rows, n) && t < |rows| && j < n
    ensures BackwardFillRows(rows, n)[t].cells[j] == NextObservation(rows, n, t, j)
    decreases |rows|
  {
    if t > 0 {
      BackwardFillIsNextObservation(rows[1..], n, t - 1, j);
      NextObservationSuffix(rows, n, t, j);
    } else if |rows| > 1 {
      BackwardFillIsNextObservation(rows[1..], n, 0, j);
      NextObservationSuffix(rows, n, 1, j);
    }
  }

  /** Some cell of the table is missing (`isna().any().any()`). */
  predicate AnyMissing(f: Frame) {
    exists t :: 0 <= t < |f.rows| && !AllPresent(f.rows[t].cells)
  }

  /** `_raise_on_nans(a, b)`: the first table is tested first. */
  function RaiseOnNans(a: Frame, b: Frame): (r: Option<EngineError>)
    ensures r.None? <==> !AnyMissing(a) && !AnyMissing(b)
    ensures AnyMissing(a) ==> r == Some(NansInPricesOrReturns)
    ensures !AnyMissing(a) && AnyMissing(b) ==> r == Some(NansInWeights)
  {
    if AnyMissing(a) then Some(NansInPricesOrReturns)
    else if AnyMissing(b) then Some(NansInWeights)
    else None
  }

  // ---------------------------------------------------------------------
  // ReturnComputer and WeightLagger

  function ReturnCells(prev: seq<Cell>, cur: seq<Cell>): (r: seq<Cell>)
    requires |prev| == |cur| && PositiveCells(prev)
    ensures |r| == |cur|
  {
    seq(|cur|, j requires 0 <= j < |cur| =>
      if prev[j].Some? && cur[j].Some? then Some(cur[j].value / prev[j].value - 1.0) else None)
  }

  /** Row `t` of `pct_change()`; the first row has no predecessor. */
  function ReturnRow(px: Frame, t: nat): (r: Row)
    requires px.WellFormed() && PositivePrices(px) && t < |px.rows|
    ensures r.ts == px.rows[t].ts && |r.cells| == |px.columns|
  {
    if t == 0 then Row(px.rows[0].ts, Nones(|px.columns|))
    else
      assert PositiveCells(px.rows[t - 1].cells);
      Row(px.rows[t].ts, ReturnCells(px.rows[t - 1].cells, px.rows[t].cells))
  }

  /** `pct_change()`: the simple return of each asset over each period. */
  function PctChange(px: Frame): (r: Frame)
    requires px.WellFormed() && PositivePrices(px)
    ensures r.columns == px.columns && r.Index() == px.Index() && r.WellFormed()
  {
    Frame(px.columns, seq(|px.rows|, t requires 0 <= t < |px.rows| => ReturnRow(px, t)))
  }

  /** `shift(k)`: row `t` takes the cells of row `t - k`; the first `k` rows
      become missing. */
  function Shift(f: Frame, k: nat): (r: Frame)
    requires f.WellFormed()
    ensures r.columns == f.columns && r.Index() == f.Index() && r.WellFormed()
  {
    Frame(f.columns, seq(|f.rows|, t requires 0 <= t < |f.rows| =>
      Row(f.rows[t].ts, if t >= k then f.rows[t - k].cells else Nones(|f.columns|))))
  }

  // ---------------------------------------------------------------------
  // LeverageEnforcer

  /** `abs().sum(axis=1)`: gross exposure of each row, skipping missing cells. */
  function Gross(f: Frame): (r: seq<real>)
    ensures |r| == |f.rows|
  {
    seq(|f.rows|, t requires 0 <= t < |f.rows| => SumPresent(AbsCells(f.rows[t].cells)))
  }

  /** The first position whose value exceeds `bound`. */
  function FirstAbove(xs: seq<real>, bound: real): (i: nat)
    requires exists k :: 0 <= k < |xs| && xs[k] > bound
    ensures i < |xs| && xs[i] > bound
    ensures forall k :: 0 <= k < i ==> xs[k] <= bound
  {
    if xs[0] > bound then 0
    else
      assert exists k :: 0 <= k < |xs[1..]| && xs[1..][k] > bound by {
        var k :| 0 <= k < |xs| && xs[k] > bound;
        assert xs[1..][k - 1] == xs[k];
      }
      1 + FirstAbove(xs[1..], bound)
  }

  /** `_enforce_gross_leverage`: a non-positive ceiling is rejected; otherwise
      the check fails iff some row's gross exposure exceeds the ceiling by more
      than the tolerance, and then reports the FIRST row whose gross exposure
      exceeds the ceiling itself, with no tolerance. */
  function EnforceGrossLeverage(w: Frame, grossMax: real): (r: Option<EngineError>)
    ensures grossMax <= 0.0 ==> r == Some(NonPositiveLeverageMax)
    ensures grossMax > 0.0 ==>
      (r.Some? <==> exists t :: 0 <= t < |w.rows| && Gross(w)[t] > grossMax + LeverageTolerance)
    ensures grossMax > 0.0 && r.Some? ==>
      && r.value.GrossLeverageExceeded?
      && r.value.limit == grossMax
      && exists t :: 0 <= t < |w.rows|
           && r.value.ts == w.rows[t].ts && r.value.gross == Gross(w)[t]
           && Gross(w)[t] > grossMax
           && forall s :: 0 <= s < t ==> Gross(w)[s] <= grossMax
  {
    if grossMax <= 0.0 then Some(NonPositiveLeverageMax)
    else
      var gross := Gross(w);
      if exists t :: 0 <= t < |gross| && gross[t] > grossMax + LeverageTolerance then
        var first := FirstAbove(gross, grossMax);
        Some(GrossLeverageExceeded(w.rows[first].ts, gross[first], grossMax))
      else None
  }

  // ---------------------------------------------------------------------
  // The `drop` mask

  /** Row `t` has every asset return and every lagged weight present. */
  predicate Complete(ret: Frame, wu: Frame, t: nat)
    requires t < |ret.rows| && t < |wu.rows|
  {
    AllPresent(ret.rows[t].cells) && AllPresent(wu.rows[t].cells)
  }

  /** Positions, from `from` on, of the rows the `drop` mask keeps, in order. */
  function CompleteRows(ret: Frame, wu: Frame, from: nat): (ks: seq<nat>)
    requires |ret.rows| == |wu.rows|
    ensures forall k :: k in ks <==> from <= k < |ret.rows| && Complete(ret, wu, k)
    ensures forall i, j :: 0 <= i < j < |ks| ==> ks[i] < ks[j]
    decreases |ret.rows| - from
  {
    if from >= |ret.rows| then []
    else
      var rest := CompleteRows(ret, wu, from + 1);
      if Complete(ret, wu, from) then
        assert forall i :: 0 <= i < |rest| ==> rest[i] in rest;
        [from] + rest
      else rest
  }

  /** The `drop` mask applied to both tables (lines 46-49); every other
      policy keeps every row. */
  function MaskRows(ret: Frame, wu: Frame, cfg: Config): (r: (Frame, Frame))
    requires ret.WellFormed() && wu.WellFormed()
    requires ret.columns == wu.columns && ret.Index() == wu.Index()
    ensures r.0.columns == ret.columns && r.1.columns == wu.columns
    ensures r.0.WellFormed() && r.1.WellFormed() && r.0.Index() == r.1.Index()
    ensures cfg.nanPolicy != "drop" ==> r == (ret, wu)
  {
    if cfg.nanPolicy == "drop" then
      var ks := CompleteRows(ret, wu, 0);
      assert forall i :: 0 <= i < |ks| ==> ks[i] < |ret.rows| by {
        assert forall i :: 0 <= i < |ks| ==> ks[i] in ks;
      }
      assert Keep(ret, ks).Index() == Keep(wu, ks).Index() by {
        assert forall i :: 0 <= i < |ks| ==> Keep(ret, ks).rows[i].ts == Keep(wu, ks).rows[i].ts;
      }
      (Keep(ret, ks), Keep(wu, ks))
    else (ret, wu)
  }

  /** `df.loc[mask]`: the rows at positions `ks`, in order. */
  function Keep(f: Frame, ks: seq<nat>): (r: Frame)
    requires forall i :: 0 <= i < |ks| ==> ks[i] < |f.rows|
    ensures r.columns == f.columns && |r.rows| == |ks|
    ensures forall i :: 0 <= i < |ks| ==> r.rows[i] == f.rows[ks[i]]
    ensures f.WellFormed() ==> r.WellFormed()
  {
    Frame(f.columns, seq(|ks|, i requires 0 <= i < |ks| => f.rows[ks[i]]))
  }

  // ---------------------------------------------------------------------
  // ExposureAndTurnoverComputer and EquityCompounder

  /** `sum(axis=1)`: net exposure of each row. */
  function NetExposure(f: Frame): (r: seq<real>)
    ensures |r| == |f.rows|
  {
    seq(|f.rows|, t requires 0 <= t < |f.rows| => SumPresent(f.rows[t].cells))
  }

  /** Elementwise `cur - prev`, missing where either side is. */
  function DiffCells(cur: seq<Cell>, prev: seq<Cell>): (r: seq<Cell>)
    requires |cur| == |prev|
    ensures |r| == |cur|
  {
    seq(|cur|, j requires 0 <= j < |cur| =>
      if cur[j].Some? && prev[j].Some? then Some(cur[j].value - prev[j].value) else None)
  }

  /** `0.5 * diff().abs().sum(axis=1)`, before row 0 is overwritten. The
      first row of `diff()` is entirely missing. */
  function RawTurnover(f: Frame): (r: seq<real>)
    requires f.WellFormed()
    ensures |r| == |f.rows|
  {
    seq(|f.rows|, t requires 0 <= t < |f.rows| =>
      0.5 * SumPresent(AbsCells(
        if t == 0 then Nones(|f.columns|) else DiffCells(f.rows[t].cells, f.rows[t - 1].cells))))
  }

  /** Elementwise product `w_used * asset_ret`, missing where either side is. */
  function MulCells(a: seq<Cell>, b: seq<Cell>): (r: seq<Cell>)
    requires |a| == |b|
    ensures |r| == |a|
  {
    seq(|a|, j requires 0 <= j < |a| =>
      if a[j].Some? && b[j].Some? then Some(a[j].value * b[j].value) else None)
  }

  /** `(w_used * asset_ret).sum(axis=1)`: the portfolio return of each row. */
  function PortfolioReturns(wu: Frame, ret: Frame): (r: seq<real>)
    requires wu.WellFormed() && ret.WellFormed()
    requires wu.columns == ret.columns && |wu.rows| == |ret.rows|
    ensures |r| == |wu.rows|
  {
    seq(|wu.rows|, t requires 0 <= t < |wu.rows| =>
      SumPresent(MulCells(wu.rows[t].cells, ret.rows[t].cells)))
  }

  /** `cumprod()`: each entry is the previous one times the next factor. */
  function CumProd(xs: seq<real>): (r: seq<real>)
    ensures |r| == |xs|
    ensures |xs| > 0 ==> r[0] == xs[0]
    ensures forall t {:trigger xs[t]} :: 0 < t < |xs| ==> r[t] == r[t - 1] * xs[t]
  {
    if xs == [] then []
    else
      var init := CumProd(xs[..|xs| - 1]);
      init + [(if init == [] then 1.0 else init[|init| - 1]) * xs[|xs| - 1]]
  }

  /** An amount after one period that returned `r`. */
  function Compound(amount: real, r: real): real {
    amount * (1.0 + r)
  }

  /** `(1.0 + strat_ret).cumprod() * initial_equity`. */
  function Equity(initialEquity: real, rets: seq<real>): (r: seq<real>)
    ensures |r| == |rets|
  {
    var growth := CumProd(seq(|rets|, t requires 0 <= t < |rets| => 1.0 + rets[t]));
    seq(|rets|, t requires 0 <= t < |rets| => growth[t] * initialEquity)
  }

  // ---------------------------------------------------------------------
  // ResultAssembler and the whole pipeline

  /** Packs the post-mask tables into the result; `turnover.iloc[0] = 0.0`
      is the update of position 0. */
  function Assemble(ret: Frame, wu: Frame, cfg: Config): (r: BacktestResult)
    requires ret.WellFormed() && wu.WellFormed()
    requires ret.columns == wu.columns && ret.Index() == wu.Index() && |wu.rows| >= 1
    ensures |ret.rows| == |wu.rows|
    ensures var n := |wu.rows|;
      && |r.equity| == n && |r.periodReturns| == n && |r.grossExposure| == n
      && |r.netExposure| == n && |r.turnover| == n
    ensures r.weightsUsed == wu && r.assetReturns == ret
    ensures r.metadata.nAssets == |ret.columns|
    ensures r.metadata.start == ret.rows[0].ts && r.metadata.end == ret.rows[|ret.rows| - 1].ts
  {
    assert |ret.rows| == |ret.Index()| == |wu.Index()| == |wu.rows|;
    var strat := PortfolioReturns(wu, ret);
    BacktestResult(
      Equity(cfg.initialEquity, strat),
      strat,
      wu,
      ret,
      Gross(wu),
      NetExposure(wu),
      RawTurnover(wu)[0 := 0.0],
      Metadata(cfg.initialEquity, cfg.weightLag, cfg.nanPolicy, cfg.priceFillMethod,
               cfg.grossLeverageMax, |ret.columns|, ret.rows[0].ts, ret.rows[|ret.rows| - 1].ts))
  }

  /** The tables after the first policy stage (lines 28-30). */
  function PolicyPrices(px: Frame, cfg: Config): (r: Frame)
    requires px.WellFormed()
    ensures r.columns == px.columns && r.Index() == px.Index() && r.WellFormed()
    ensures PositivePrices(px) ==> PositivePrices(r)
  {
    if cfg.nanPolicy == "fill" then FillPrices(px, cfg.priceFillMethod) else px
  }

  function PolicyWeights(w: Frame, cfg: Config): (r: Frame)
    requires w.WellFormed()
    ensures r.columns == w.columns && r.Index() == w.Index() && r.WellFormed()
  {
    if cfg.nanPolicy == "fill" then FillNa(w, 0.0) else w
  }

  /** `w.shift(weight_lag)`, then `fillna(0.0)` under `fill` (lines 36-39). */
  function LaggedWeights(w: Frame, cfg: Config): (r: Frame)
    requires w.WellFormed() && cfg.weightLag >= 0
    ensures r.columns == w.columns && r.Index() == w.Index() && r.WellFormed()
  {
    var shifted := Shift(PolicyWeights(w, cfg), cfg.weightLag as nat);
    if cfg.nanPolicy == "fill" then FillNa(shifted, 0.0) else shifted
  }

  /** The lines of `backtest_engine` after `_align` (lines 28-80). */
  function RunAligned(px: Frame, w: Frame, cfg: Config): (r: Result<BacktestResult, EngineError>)
    requires Aligned(px, w) && PositivePrices(px) && cfg.weightLag >= 0
  {
    var early := if cfg.nanPolicy == "raise" then RaiseOnNans(px, w) else None;
    if early.Some? then Failure(early.value)
    else
      var ret := PctChange(PolicyPrices(px, cfg));
      var wu := LaggedWeights(w, cfg);
      var late := if cfg.nanPolicy == "raise" then RaiseOnNans(ret, wu) else None;
      if late.Some? then Failure(late.value)
      else
        var lev := if cfg.grossLeverageMax.Some? then EnforceGrossLeverage(wu, cfg.grossLeverageMax.value) else None;
        if lev.Some? then Failure(lev.value)
        else
          var (ret2, wu2) := MaskRows(ret, wu, cfg);
          if |wu2.rows| == 0 then Failure(EmptyAfterMask)
          else Success(Assemble(ret2, wu2, cfg))
  }

  /** `backtest_engine` on two tables, as a function of their values before
      the call. */
  function Backtest(prices: Frame, weights: Frame, cfg: Config): (r: Result<BacktestResult, EngineError>)
    requires prices.WellFormed() && weights.WellFormed() && PositivePrices(prices)
  {
    var invalid := ValidationError(prices, weights, cfg.initialEquity, cfg.weightLag);
    if invalid.Some? then Failure(invalid.value)
    else
      var (p, w) := NormalizeInputs(prices, weights);
      NormalizePreserves(prices);
      NormalizePreserves(weights);
      ValidatedIncreasing(prices, weights, cfg.initialEquity, cfg.weightLag);
      var aligned := Align(p, w);
      if aligned.Failure? then Failure(aligned.error)
      else
        AlignKeepsCommonDates(p, w);
        AlignKeepsPositive(p, w);
        RunAligned(aligned.value.0, aligned.value.1, cfg)
  }

  // ---------------------------------------------------------------------
  // The engine on the caller's objects

  /** `_validate_inputs`: a missing table is a type error; otherwise the
      errors of `ValidationError`, and, when both tables are non-empty, each one
      whose index is not monotonic is sorted in place, on the caller's object,
      before the duplicate test. The two arguments may be the same object. */
  method ValidateInputs(prices: DataFrame?, weights: DataFrame?, initialEquity: real, weightLag: int)
    returns (err: Option<EngineError>)
    modifies prices, weights
    ensures prices == null || weights == null ==>
      err == Some(NotADataFrame) && (prices != null ==> unchanged(prices)) && (weights != null ==> unchanged(weights))
    ensures prices != null && weights != null ==>
      && err == ValidationError(old(prices.Value()), old(weights.Value()), initialEquity, weightLag)
      && prices.Value() == NormalizeInputs(old(prices.Value()), old(weights.Value())).0
      && weights.Value() == NormalizeInputs(old(prices.Value()), old(weights.Value())).1
  {
    if prices == null || weights == null {
      return Some(NotADataFrame);
    }
    if prices.Value().Empty() || weights.Value().Empty() {
      return Some(EmptyInput);
    }
    ghost var p0, w0 := prices.Value(), weights.Value();
    if !NonDecreasing(prices.Value().Index()) {
      prices.SortIndex();
    }
    assert prices.Value() == Normalize(p0);
    assert weights != prices ==> weights.Value() == w0;
    if !NonDecreasing(weights.Value().Index()) {
      weights.SortIndex();
    }
    assert weights.Value() == Normalize(w0);
    assert prices.Value() == Normalize(p0);
    if !Distinct(prices.Value().Index()) || !Distinct(weights.Value().Index()) {
      return Some(DuplicateTimestamps);
    }
    if initialEquity <= 0.0 {
      return Some(NonPositiveInitialEquity);
    }
    if weightLag < 0 {
      return Some(NegativeWeightLag);
    }
    return None;
  }

  /** `backtest_engine` on the caller's objects: the result is `Backtest` of
      the tables as they were before the call, and the objects are left
      sorted as `_validate_inputs` leaves them. The later stages rebind local
      tables one after another, as the source does. */
  method BacktestEngine(prices: DataFrame?, weights: DataFrame?, cfg: Config)
    returns (r: Result<BacktestResult, EngineError>)
    requires prices != null ==> prices.Value().WellFormed() && PositivePrices(prices.Value())
    requires weights != null ==> weights.Value().WellFormed()
    modifies prices, weights
    ensures prices == null || weights == null ==>
      r == Failure(NotADataFrame) && (prices != null ==> unchanged(prices)) && (weights != null ==> unchanged(weights))
    ensures prices != null && weights != null ==>
      && r == Backtest(old(prices.Value()), old(weights.Value()), cfg)
      && prices.Value() == NormalizeInputs(old(prices.Value()), old(weights.Value())).0
      && weights.Value() == NormalizeInputs(old(prices.Value()), old(weights.Value())).1
  {
    ghost var p0 := if prices == null then Frame([], []) else prices.Value();
    ghost var w0 := if weights == null then Frame([], []) else weights.Value();
    var invalid := ValidateInputs(prices, weights, cfg.initialEquity, cfg.weightLag);
    if invalid.Some? {
      return Failure(invalid.value);
    }
    NormalizePreserves(p0);
    NormalizePreserves(w0);
    ValidatedIncreasing(p0, w0, cfg.initialEquity, cfg.weightLag);
    var aligned := Align(prices.Value(), weights.Value());
    if aligned.Failure? {
      return Failure(aligned.error);
    }
    AlignKeepsCommonDates(prices.Value(), weights.Value());
    AlignKeepsPositive(prices.Value(), weights.Value());
    var px, w := aligned.value.0, aligned.value.1;
    if cfg.nanPolicy == "raise" {
      var nans := RaiseOnNans(px, w);
      if nans.Some? {
        return Failure(nans.value);
      }
    }
    px := PolicyPrices(px, cfg);
    var assetRet := PctChange(px);
    var wUsed := LaggedWeights(w, cfg);
    if cfg.nanPolicy == "raise" {
      var nans := RaiseOnNans(assetRet, wUsed);
      if nans.Some? {
        return Failure(nans.value);
      }
    }
    if cfg.grossLeverageMax.Some? {
      var lev := EnforceGrossLeverage(wUsed, cfg.grossLeverageMax.value);
      if lev.Some? {
        return Failure(lev.value);
      }
    }
    if cfg.nanPolicy == "drop" {
      assetRet, wUsed := MaskRows(assetRet, wUsed, cfg).0, MaskRows(assetRet, wUsed, cfg).1;
    }
    if |wUsed.rows| == 0 {
      return Failure(EmptyAfterMask);
    }
    r := Success(Assemble(assetRet, wUsed, cfg));
  }
}
