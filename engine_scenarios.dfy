/** One asset held at full weight with a one-period lag: the equity curve
    follows the asset's price under both `fill` and `drop`, and the example
    tables of the engine's own test file. */
module EngineScenarios {
  import opened Wrappers
  import opened Frames
  import opened Engine
  import opened EngineProperties

  // ---------------------------------------------------------------------
  // A single asset held at full weight

  /** A price table over one asset with every price present and positive. */
  predicate SingleAssetPrices(px: Frame) {
    px.WellFormed() && PositivePrices(px) && |px.columns| == 1 && !AnyMissing(px)
  }

  /** Aligned tables over one asset with a weight of 1 on every row, run with
      a lag of 1 and no ceiling. */
  predicate FullyInvested(px: Frame, w: Frame, cfg: Config) {
    && Aligned(px, w) && SingleAssetPrices(px)
    && (forall s :: 0 <= s < |w.rows| ==> w.rows[s].cells[0] == Some(1.0))
    && (cfg.nanPolicy == "fill" || cfg.nanPolicy == "drop")
    && cfg.weightLag == 1 && cfg.grossLeverageMax.None?
  }

  /** The price path of the single asset. */
  function Path(px: Frame): (p: seq<real>)
    requires SingleAssetPrices(px)
    ensures |p| == |px.rows|
    ensures forall s :: 0 <= s < |p| ==> p[s] == px.rows[s].cells[0].value && p[s] > 0.0
  {
    seq(|px.rows|, s requires 0 <= s < |px.rows| =>
      assert AllPresent(px.rows[s].cells) && PositiveCells(px.rows[s].cells);
      px.rows[s].cells[0].value)
  }

  /** The simple return of the price path from row `t - 1` to row `t`. */
  function PathReturn(px: Frame, t: nat): real
    requires SingleAssetPrices(px) && 1 <= t < |px.rows|
  {
    Path(px)[t] / Path(px)[t - 1] - 1.0
  }

  /** The return of a one-asset row whose price and previous price are both
      present is their simple return. */
  lemma ReturnOfPresentPrices(q: Frame, t: nat, a: real, b: real)
    requires q.WellFormed() && PositivePrices(q) && |q.columns| == 1 && 1 <= t < |q.rows|
    requires q.rows[t - 1].cells[0] == Some(a) && q.rows[t].cells[0] == Some(b)
    ensures PctChange(q).rows[t].cells[0] == Some(b / a - 1.0)
  {
    assert PctChange(q).rows[t] == ReturnRow(q, t);
    assert PositiveCells(q.rows[t - 1].cells);
  }

  /** Under `fill` or `drop`, a price table without gaps keeps every price. */
  lemma FullyInvestedPrice(px: Frame, w: Frame, cfg: Config, t: nat)
    requires FullyInvested(px, w, cfg) && t < |px.rows|
    ensures px.rows[t].cells[0].Some?
    ensures PolicyPrices(px, cfg).rows[t].cells[0] == px.rows[t].cells[0]
  {
    assert AllPresent(px.rows[t].cells);
    if cfg.nanPolicy == "fill" {
      FillPricesObservations(px, cfg.priceFillMethod, t, 0);
    }
  }

  /** Under `fill` or `drop`, the asset return of every row but the first is
      the simple return of the price. */
  lemma FullyInvestedAssetReturn(px: Frame, w: Frame, cfg: Config, t: nat)
    requires FullyInvested(px, w, cfg) && 1 <= t < |px.rows|
    ensures PctChange(PolicyPrices(px, cfg)).rows[t].cells[0] ==
      Some(px.rows[t].cells[0].value / px.rows[t - 1].cells[0].value - 1.0)
  {
    FullyInvestedPrice(px, w, cfg, t);
    FullyInvestedPrice(px, w, cfg, t - 1);
    ReturnOfPresentPrices(PolicyPrices(px, cfg), t, px.rows[t - 1].cells[0].value, px.rows[t].cells[0].value);
  }

  /** Every row but the first holds a weight of 1 after the lag. */
  lemma FullyInvestedWeight(px: Frame, w: Frame, cfg: Config, t: nat)
    requires FullyInvested(px, w, cfg) && 1 <= t < |px.rows|
    ensures LaggedWeights(w, cfg).rows[t].cells[0] == Some(1.0)
  {
    LaggedWeightsAt(w, cfg, t, 0);
  }

  /** A successful run without the `raise` checks and without a ceiling
      compounds the initial equity by the period returns, each the
      weight-times-return sum of its kept row. */
  lemma SuccessfulRunCompounds(px: Frame, w: Frame, cfg: Config)
    requires Aligned(px, w) && PositivePrices(px) && cfg.weightLag >= 0
    requires cfg.nanPolicy != "raise" && cfg.grossLeverageMax.None?
    requires RunAligned(px, w, cfg).Success?
    ensures var res := RunAligned(px, w, cfg).value; var n := |res.weightsUsed.rows|;
      && res.weightsUsed.WellFormed() && res.assetReturns.WellFormed()
      && res.weightsUsed.columns == res.assetReturns.columns == px.columns
      && |res.assetReturns.rows| == n >= 1
      && |res.equity| == |res.periodReturns| == n
      && res.equity[0] == Compound(cfg.initialEquity, res.periodReturns[0])
      && (forall t {:trigger res.periodReturns[t]} :: 0 < t < n ==>
            res.equity[t] == Compound(res.equity[t - 1], res.periodReturns[t]))
      && (forall t :: 0 <= t < n ==>
            res.periodReturns[t] == SumPresent(MulCells(res.weightsUsed.rows[t].cells, res.assetReturns.rows[t].cells)))
  {
    RunAlignedWithoutChecks(px, w, cfg);
    PreMaskTables(px, w, cfg);
    var ret := PctChange(PolicyPrices(px, cfg));
    var wu := LaggedWeights(w, cfg);
    var (r, u) := MaskRows(ret, wu, cfg);
    AssembleEquity(r, u, cfg);
  }

  /** At a weight of 1, the portfolio return of a one-asset row is the asset
      return. */
  lemma FullWeightPortfolioReturn(ret: Frame, wu: Frame, t: nat, b: real)
    requires wu.WellFormed() && ret.WellFormed()
    requires wu.columns == ret.columns && |wu.rows| == |ret.rows| && |ret.columns| == 1
    requires t < |wu.rows| && wu.rows[t].cells[0] == Some(1.0) && ret.rows[t].cells[0] == Some(b)
    ensures SumPresent(MulCells(wu.rows[t].cells, ret.rows[t].cells)) == b
    ensures PortfolioReturns(wu, ret)[t] == b
  {
    var x, y := wu.rows[t].cells, ret.rows[t].cells;
    var prod := MulCells(x, y);
    assert |x| == 1 && |y| == 1;
    assert prod[0].Some? && prod[0].value == 1.0 * b == b;
    assert prod == [Some(b)];
    assert SumPresent(prod) == b + SumPresent([]);
  }

  lemma Telescope(ie: real, a: real, b: real, c: real)
    requires a > 0.0 && c > 0.0
    ensures Compound(ie * (a / c), b / a - 1.0) == ie * (b / c)
  {
    assert 1.0 + (b / a - 1.0) == b / a;
    assert (a / c) * (b / a) == b / c;
  }

  /** `eq[t]` is the amount `ie` scaled by the price relative `p[t] / p[0]`. */
  predicate Tracks(eq: seq<real>, p: seq<real>, ie: real, t: nat)
    requires t < |eq| && t < |p| && p[0] != 0.0
  {
    eq[t] == ie * (p[t] / p[0])
  }

  /** Starting from `ie` and compounding by the simple returns of a positive
      price path tracks the path. */
  lemma {:induction false} TracksPath(eq: seq<real>, rets: seq<real>, p: seq<real>, ie: real, t: nat)
    requires |eq| == |rets| == |p| && t < |p|
    requires forall s :: 0 <= s < |p| ==> p[s] > 0.0
    requires |eq| > 0 ==> eq[0] == ie
    requires forall s :: 0 < s < |eq| ==> eq[s] == Compound(eq[s - 1], rets[s])
    requires forall s :: 0 < s < |rets| ==> rets[s] == p[s] / p[s - 1] - 1.0
    ensures Tracks(eq, p, ie, t)
  {
    if t == 0 {
      assert p[0] > 0.0;
      assert p[0] / p[0] == 1.0;
    } else {
      TracksPath(eq, rets, p, ie, t - 1);
      TrackStep(eq, rets, p, ie, t);
    }
  }

  /** One step of `TracksPath`: compounding a tracked amount by the next
      simple return tracks the next price. */
  lemma TrackStep(eq: seq<real>, rets: seq<real>, p: seq<real>, ie: real, t: nat)
    requires |eq| == |rets| == |p| && 0 < t < |p|
    requires forall s :: 0 <= s < |p| ==> p[s] > 0.0
    requires forall s :: 0 < s < |eq| ==> eq[s] == Compound(eq[s - 1], rets[s])
    requires forall s :: 0 < s < |rets| ==> rets[s] == p[s] / p[s - 1] - 1.0
    requires Tracks(eq, p, ie, t - 1)
    ensures Tracks(eq, p, ie, t)
  {
    assert p[0] > 0.0 && p[t - 1] > 0.0;
    assert eq[t] == Compound(eq[t - 1], rets[t]);
    assert rets[t] == p[t] / p[t - 1] - 1.0;
    Telescope(ie, p[t - 1], p[t], p[0]);
  }

  // ---------------------------------------------------------------------
  // Under `fill`: every row is kept

  lemma FillReturn(px: Frame, w: Frame, cfg: Config, t: nat)
    requires FullyInvested(px, w, cfg) && cfg.nanPolicy == "fill" && 1 <= t < |px.rows|
    ensures RunAligned(px, w, cfg).Success?
    ensures RunAligned(px, w, cfg).value.periodReturns[t] ==
      px.rows[t].cells[0].value / px.rows[t - 1].cells[0].value - 1.0
  {
    PreMaskTables(px, w, cfg);
    RunAlignedWithoutChecks(px, w, cfg);
    FullyInvestedAssetReturn(px, w, cfg, t);
    FullyInvestedWeight(px, w, cfg, t);
    var ret := PctChange(PolicyPrices(px, cfg));
    var wu := LaggedWeights(w, cfg);
    AssembleEquity(ret, wu, cfg);
    var r := px.rows[t].cells[0].value / px.rows[t - 1].cells[0].value - 1.0;
    FullWeightPortfolioReturn(ret, wu, t, r);
  }

  /** Under `fill`, holding one asset at full weight with a lag of 1 makes
      the equity curve the initial equity scaled by the price relative to
      the first row, on every row. */
  lemma FillTracksPrice(px: Frame, w: Frame, cfg: Config, t: nat)
    requires FullyInvested(px, w, cfg) && cfg.nanPolicy == "fill" && t < |px.rows|
    ensures RunAligned(px, w, cfg).Success?
    ensures |RunAligned(px, w, cfg).value.equity| == |px.rows|
    ensures Tracks(RunAligned(px, w, cfg).value.equity, Path(px), cfg.initialEquity, t)
  {
    PreMaskTables(px, w, cfg);
    RunAlignedWithoutChecks(px, w, cfg);
    FirstEquityIsInitial(px, w, cfg);
    SuccessfulRunCompounds(px, w, cfg);
    var res := RunAligned(px, w, cfg).value;
    var eq, rets, p := res.equity, res.periodReturns, Path(px);
    forall s | 0 < s < |rets|
      ensures rets[s] == p[s] / p[s - 1] - 1.0
    {
      FillReturn(px, w, cfg, s);
    }
    assert forall s :: 0 < s < |eq| ==> eq[s] == Compound(eq[s - 1], rets[s]);
    TracksPath(eq, rets, p, cfg.initialEquity, t);
  }

  // ---------------------------------------------------------------------
  // Under `drop`: the first row goes

  lemma FullyInvestedWeightsPresent(px: Frame, w: Frame, cfg: Config)
    requires FullyInvested(px, w, cfg)
    ensures !AnyMissing(w)
  {
    forall s | 0 <= s < |w.rows|
      ensures AllPresent(w.rows[s].cells)
    {
      assert |w.rows[s].cells| == 1 && w.rows[s].cells[0] == Some(1.0);
    }
  }

  /** A result of `n` kept rows over the columns `cols`. */
  predicate Shaped(res: BacktestResult, n: nat, cols: seq<string>) {
    && |res.equity| == |res.periodReturns| == n
    && |res.assetReturns.rows| == |res.weightsUsed.rows| == n
    && res.assetReturns.WellFormed() && res.weightsUsed.WellFormed()
    && res.assetReturns.columns == res.weightsUsed.columns == cols
  }

  /** With a lag of 1 and no gaps, kept row `i` under `drop` is row `i + 1`
      of the aligned tables. */
  lemma DropShiftsByOne(px: Frame, w: Frame, cfg: Config, i: nat)
    requires Aligned(px, w) && PositivePrices(px) && !AnyMissing(px) && !AnyMissing(w)
    requires cfg.nanPolicy == "drop" && cfg.weightLag == 1 && cfg.grossLeverageMax.None?
    requires i + 1 < |px.rows|
    ensures var r := RunAligned(px, w, cfg);
      && r.Success? && i < |r.value.assetReturns.rows| && i < |r.value.weightsUsed.rows|
      && r.value.assetReturns.rows[i] == PctChange(px).rows[i + 1]
      && r.value.weightsUsed.rows[i] == LaggedWeights(w, cfg).rows[i + 1]
  {
    assert FirstComplete(cfg) == 1;
    CompleteWithoutGaps(px, w, cfg);
    DropMaskWithoutGaps(px, w, cfg);
    RunAlignedWithoutChecks(px, w, cfg);
    var ret, wu := PctChange(px), LaggedWeights(w, cfg);
    var masked := MaskRows(ret, wu, cfg);
    KeepsFromAt(ret, wu, masked.0, masked.1, 1, i);
  }

  /** With a lag of 1 and no gaps, `drop` keeps all rows but the first. */
  lemma DropShape(px: Frame, w: Frame, cfg: Config)
    requires Aligned(px, w) && PositivePrices(px) && !AnyMissing(px) && !AnyMissing(w)
    requires cfg.nanPolicy == "drop" && cfg.weightLag == 1 && cfg.grossLeverageMax.None?
    requires 1 < |px.rows|
    ensures RunAligned(px, w, cfg).Success?
    ensures Shaped(RunAligned(px, w, cfg).value, |px.rows| - 1, px.columns)
  {
    assert FirstComplete(cfg) == 1;
    DropWithoutGaps(px, w, cfg);
    SuccessfulRunCompounds(px, w, cfg);
  }

  /** A kept row that holds price row `i + 1`'s return at a weight of 1
      earns that return. */
  lemma KeptRowReturn(res: BacktestResult, px: Frame, i: nat)
    requires SingleAssetPrices(px) && i + 1 < |px.rows|
    requires Shaped(res, |px.rows| - 1, px.columns)
    requires res.assetReturns.rows[i] == PctChange(px).rows[i + 1]
    requires res.weightsUsed.rows[i].cells[0] == Some(1.0)
    requires res.periodReturns[i] == SumPresent(MulCells(res.weightsUsed.rows[i].cells, res.assetReturns.rows[i].cells))
    ensures res.periodReturns[i] == PathReturn(px, i + 1)
  {
    var p := Path(px);
    ReturnOfPresentPrices(px, i + 1, p[i], p[i + 1]);
    FullWeightPortfolioReturn(res.assetReturns, res.weightsUsed, i, PathReturn(px, i + 1));
  }

  /** Kept row `i` under `drop` earns the return of price row `i + 1` at a
      weight of 1. */
  lemma DropReturn(px: Frame, w: Frame, cfg: Config, i: nat)
    requires FullyInvested(px, w, cfg) && cfg.nanPolicy == "drop" && i + 1 < |px.rows|
    ensures RunAligned(px, w, cfg).Success?
    ensures Shaped(RunAligned(px, w, cfg).value, |px.rows| - 1, px.columns)
    ensures RunAligned(px, w, cfg).value.periodReturns[i] == PathReturn(px, i + 1)
  {
    FullyInvestedWeightsPresent(px, w, cfg);
    DropShiftsByOne(px, w, cfg, i);
    DropShape(px, w, cfg);
    SuccessfulRunCompounds(px, w, cfg);
    FullyInvestedWeight(px, w, cfg, i + 1);
    KeptRowReturn(RunAligned(px, w, cfg).value, px, i);
  }

  /** Equity that compounds `ie` by the returns of a path from its second
      point on tracks the path once `ie` is put in front of it. */
  lemma ShiftedTracks(eq: seq<real>, rets: seq<real>, p: seq<real>, ie: real, i: nat)
    requires |eq| == |rets| && |p| == |eq| + 1 && i < |eq|
    requires forall s :: 0 <= s < |p| ==> p[s] > 0.0
    requires eq[0] == Compound(ie, rets[0])
    requires forall s :: 0 < s < |eq| ==> eq[s] == Compound(eq[s - 1], rets[s])
    requires forall s :: 0 <= s < |rets| ==> rets[s] == p[s + 1] / p[s] - 1.0
    ensures Tracks([ie] + eq, p, ie, i + 1)
  {
    var eq', rets' := [ie] + eq, [0.0] + rets;
    forall s | 0 < s < |rets'|
      ensures rets'[s] == p[s] / p[s - 1] - 1.0
    {
      assert rets'[s] == rets[s - 1];
    }
    forall s | 0 < s < |eq'|
      ensures eq'[s] == Compound(eq'[s - 1], rets'[s])
    {
      assert eq'[s] == eq[s - 1] && rets'[s] == rets[s - 1];
    }
    TracksPath(eq', rets', p, ie, i + 1);
  }

  lemma PathShiftedTracks(eq: seq<real>, rets: seq<real>, px: Frame, ie: real, i: nat)
    requires SingleAssetPrices(px)
    requires |eq| == |rets| && |px.rows| == |eq| + 1 && i < |eq|
    requires eq[0] == Compound(ie, rets[0])
    requires forall s :: 0 < s < |eq| ==> eq[s] == Compound(eq[s - 1], rets[s])
    requires forall s :: 0 <= s < |rets| ==> rets[s] == PathReturn(px, s + 1)
    ensures Tracks([ie] + eq, Path(px), ie, i + 1)
  {
    ShiftedTracks(eq, rets, Path(px), ie, i);
  }

  /** Under `drop`, the same holding loses the first row to the mask; the
      equity at kept row `i` is the initial equity scaled by the price
      relative of row `i + 1` to the first row. */
  lemma DropTracksPrice(px: Frame, w: Frame, cfg: Config, i: nat)
    requires FullyInvested(px, w, cfg) && cfg.nanPolicy == "drop" && i + 1 < |px.rows|
    ensures RunAligned(px, w, cfg).Success?
    ensures |RunAligned(px, w, cfg).value.equity| == |px.rows| - 1
    ensures Tracks([cfg.initialEquity] + RunAligned(px, w, cfg).value.equity, Path(px), cfg.initialEquity, i + 1)
  {
    DropReturn(px, w, cfg, i);
    SuccessfulRunCompounds(px, w, cfg);
    var res := RunAligned(px, w, cfg).value;
    forall s | 0 <= s < |res.periodReturns|
      ensures res.periodReturns[s] == PathReturn(px, s + 1)
    {
      DropReturn(px, w, cfg, s);
    }
    PathShiftedTracks(res.equity, res.periodReturns, px, cfg.initialEquity, i);
  }

  // ---------------------------------------------------------------------
  // The engine's own test cases, with timestamps 1, 2 and 3 for the three
  // days

  function Column(name: string, xs: seq<real>): (f: Frame)
    ensures f.columns == [name] && |f.rows| == |xs|
    ensures forall t :: 0 <= t < |xs| ==> f.rows[t] == Row(t + 1, [Some(xs[t])])
  {
    Frame([name], seq(|xs|, t requires 0 <= t < |xs| => Row(t + 1, [Some(xs[t])])))
  }

  /** The single-asset tables of the first two test cases. */
  function BitcoinPrices(): Frame { Column("BTC", [100.0, 110.0, 121.0]) }
  function BitcoinWeights(): Frame { Column("BTC", [1.0, 1.0, 1.0]) }

  lemma BitcoinFullyInvested(cfg: Config)
    requires cfg.nanPolicy == "fill" || cfg.nanPolicy == "drop"
    requires cfg.weightLag == 1 && cfg.grossLeverageMax.None?
    ensures FullyInvested(BitcoinPrices(), BitcoinWeights(), cfg)
    ensures Path(BitcoinPrices()) == [100.0, 110.0, 121.0]
  {
    var px, w := BitcoinPrices(), BitcoinWeights();
    assert px.Index() == [1, 2, 3] == w.Index();
    assert StrictlyIncreasing([1, 2, 3]);
    assert forall t :: 0 <= t < 3 ==> PositiveCells(px.rows[t].cells) && AllPresent(px.rows[t].cells);
  }

  lemma TrackedValue(eq: seq<real>, p: seq<real>, ie: real, t: nat, first: real, last: real)
    requires t < |eq| && t < |p| && p[0] == first != 0.0 && p[t] == last
    requires Tracks(eq, p, ie, t)
    ensures eq[t] == ie * (last / first)
  {
  }

  /** Any three-row price path 100, 110, 121 held at full weight: under
      `fill` the equity runs from 100 to 121 over three points. */
  lemma FillGrowsTo121(px: Frame, w: Frame, cfg: Config)
    requires FullyInvested(px, w, cfg) && cfg.nanPolicy == "fill" && cfg.initialEquity == 100.0
    requires Path(px) == [100.0, 110.0, 121.0]
    ensures Backtest(px, w, cfg).Success?
    ensures |Backtest(px, w, cfg).value.equity| == 3
    ensures Backtest(px, w, cfg).value.equity[0] == 100.0
    ensures Backtest(px, w, cfg).value.equity[2] == 121.0
  {
    BacktestOfAligned(px, w, cfg);
    FillTracksPrice(px, w, cfg, 0);
    FillTracksPrice(px, w, cfg, 2);
    var eq := RunAligned(px, w, cfg).value.equity;
    TrackedValue(eq, Path(px), 100.0, 0, 100.0, 100.0);
    TrackedValue(eq, Path(px), 100.0, 2, 100.0, 121.0);
  }

  /** The same path under `drop`: two points are left and the last is 121. */
  lemma DropGrowsTo121(px: Frame, w: Frame, cfg: Config)
    requires FullyInvested(px, w, cfg) && cfg.nanPolicy == "drop" && cfg.initialEquity == 100.0
    requires Path(px) == [100.0, 110.0, 121.0]
    ensures Backtest(px, w, cfg).Success?
    ensures |Backtest(px, w, cfg).value.equity| == 2
    ensures Backtest(px, w, cfg).value.equity[1] == 121.0
  {
    BacktestOfAligned(px, w, cfg);
    DropTracksPrice(px, w, cfg, 1);
    var eq := RunAligned(px, w, cfg).value.equity;
    TrackedValue([100.0] + eq, Path(px), 100.0, 2, 100.0, 121.0);
    assert ([100.0] + eq)[2] == eq[1];
  }

  /** The first test case: `fill`, a lag of 1 and an initial equity of 100
      give an equity curve from 100 to 121. */
  lemma FillExample()
    ensures var r := Backtest(BitcoinPrices(), BitcoinWeights(), Config(100.0, 1, "fill", "ffill", None));
      && r.Success? && |r.value.equity| == 3
      && r.value.equity[0] == 100.0 && r.value.equity[2] == 121.0
  {
    var cfg := Config(100.0, 1, "fill", "ffill", None);
    BitcoinFullyInvested(cfg);
    FillGrowsTo121(BitcoinPrices(), BitcoinWeights(), cfg);
  }

  /** The second test case: under `drop` the first row has no return and no
      weight, so two points are left and the last is 121. */
  lemma DropExample()
    ensures var r := Backtest(BitcoinPrices(), BitcoinWeights(), Config(100.0, 1, "drop", "ffill", None));
      && r.Success? && |r.value.equity| == 2 && r.value.equity[1] == 121.0
  {
    var cfg := Config(100.0, 1, "drop", "ffill", None);
    BitcoinFullyInvested(cfg);
    DropGrowsTo121(BitcoinPrices(), BitcoinWeights(), cfg);
  }

  // ---------------------------------------------------------------------
  // A ceiling breached by the first lagged row

  lemma {:induction false} SumOfZeros(cs: seq<Cell>)
    requires forall j :: 0 <= j < |cs| ==> cs[j].GetOr(0.0) == 0.0
    ensures SumPresent(cs) == 0.0
  {
    if cs != [] {
      SumOfZeros(cs[1..]);
    }
  }

  /** Under `fill` with a lag of 1, the first lagged row is all zero and the
      second is the first row of weights. */
  lemma FillLagOneGross(w: Frame, cfg: Config)
    requires w.WellFormed() && |w.rows| >= 2
    requires cfg.nanPolicy == "fill" && cfg.weightLag == 1
    requires AllPresent(w.rows[0].cells)
    ensures var wu := LaggedWeights(w, cfg);
      && |wu.rows| == |w.rows| && wu.rows[1].ts == w.rows[1].ts
      && Gross(wu)[0] == 0.0 && Gross(wu)[1] == Gross(w)[0]
  {
    var wu := LaggedWeights(w, cfg);
    forall j | 0 <= j < |w.columns|
      ensures wu.rows[0].cells[j] == Some(0.0) && wu.rows[1].cells[j] == w.rows[0].cells[j]
    {
      LaggedWeightsAt(w, cfg, 0, j);
      LaggedWeightsAt(w, cfg, 1, j);
    }
    assert wu.rows[1].cells == w.rows[0].cells;
    var zero := AbsCells(wu.rows[0].cells);
    assert forall j :: 0 <= j < |zero| ==> zero[j] == Some(0.0);
    SumOfZeros(zero);
  }

  /** A ceiling kept by the first row and breached by the second is
      reported at the second row. */
  lemma BreachAtSecondRow(wu: Frame, m: real)
    requires wu.WellFormed() && |wu.rows| >= 2 && m > 0.0
    requires Gross(wu)[0] <= m && Gross(wu)[1] > m + LeverageTolerance
    ensures EnforceGrossLeverage(wu, m) == Some(GrossLeverageExceeded(wu.rows[1].ts, Gross(wu)[1], m))
  {
    var g := Gross(wu);
    var e := EnforceGrossLeverage(wu, m);
    assert e.Some?;
    var t :| 0 <= t < |wu.rows| && e.value.ts == wu.rows[t].ts && e.value.gross == g[t]
      && g[t] > m && forall s :: 0 <= s < t ==> g[s] <= m;
    assert t == 1;
  }

  /** Under `fill` with a lag of 1, the first lagged row is all zero and the
      second is the first row of weights; if that row's gross exposure is
      over the ceiling, the run raises for the second timestamp. */
  lemma FillBreachAtSecondRow(px: Frame, w: Frame, cfg: Config)
    requires Aligned(px, w) && PositivePrices(px)
    requires cfg.nanPolicy == "fill" && cfg.weightLag == 1
    requires cfg.grossLeverageMax.Some? && cfg.grossLeverageMax.value > 0.0
    requires AllPresent(w.rows[0].cells)
    requires Gross(w)[0] > cfg.grossLeverageMax.value + LeverageTolerance
    ensures RunAligned(px, w, cfg) ==
      Failure(GrossLeverageExceeded(w.rows[1].ts, Gross(w)[0], cfg.grossLeverageMax.value))
  {
    FillLagOneGross(w, cfg);
    BreachAtSecondRow(LaggedWeights(w, cfg), cfg.grossLeverageMax.value);
    RunAlignedLeverage(px, w, cfg);
  }

  /** Two assets priced at 100 on three days, weighted 2 and 1. */
  function PairPrices(): Frame {
    Frame(["A", "B"], seq(3, t requires 0 <= t < 3 => Row(t + 1, [Some(100.0), Some(100.0)])))
  }
  function PairWeights(): Frame {
    Frame(["A", "B"], seq(3, t requires 0 <= t < 3 => Row(t + 1, [Some(2.0), Some(1.0)])))
  }

  lemma PairTables()
    ensures Aligned(PairPrices(), PairWeights()) && PositivePrices(PairPrices())
    ensures AllPresent(PairWeights().rows[0].cells) && Gross(PairWeights())[0] == 3.0
    ensures PairWeights().rows[1].ts == 2
  {
    var px, w := PairPrices(), PairWeights();
    assert px.Index() == [1, 2, 3] == w.Index();
    assert StrictlyIncreasing([1, 2, 3]);
    assert Distinct(["A", "B"]);
    assert forall t :: 0 <= t < 3 ==> PositiveCells(px.rows[t].cells);
    var a := AbsCells(w.rows[0].cells);
    assert a == [Some(2.0), Some(1.0)];
    assert SumPresent(a) == 2.0 + SumPresent([Some(1.0)]);
  }

  /** The third test case: a gross exposure of 3 against a ceiling of 2
      raises, naming the second timestamp. */
  lemma LeverageExample()
    ensures Backtest(PairPrices(), PairWeights(), Config(100.0, 1, "fill", "ffill", Some(2.0)))
      == Failure(GrossLeverageExceeded(2, 3.0, 2.0))
  {
    var cfg := Config(100.0, 1, "fill", "ffill", Some(2.0));
    PairTables();
    BacktestOfAligned(PairPrices(), PairWeights(), cfg);
    FillBreachAtSecondRow(PairPrices(), PairWeights(), cfg);
  }
}
