/** Properties of the backtest pipeline: the weight lag, the returns, the
    `raise` and `drop` policies, the leverage ceiling, exposures, turnover,
    the equity curve and the metadata. */
module EngineProperties {
  import opened Wrappers
  import opened Frames
  import opened Engine

  // ---------------------------------------------------------------------
  // Weight lag

  /** `shift(0)` leaves the table unchanged. */
  lemma ShiftZero(f: Frame)
    requires f.WellFormed()
    ensures Shift(f, 0) == f
  {
    assert Shift(f, 0).rows == f.rows;
  }

  /** Shifting by `a` and then by `b` is shifting by `a + b`. */
  lemma ShiftCompose(f: Frame, a: nat, b: nat)
    requires f.WellFormed()
    ensures Shift(Shift(f, a), b) == Shift(f, a + b)
  {
    var g := Shift(Shift(f, a), b);
    var h := Shift(f, a + b);
    forall t | 0 <= t < |f.rows| ensures g.rows[t] == h.rows[t] {
      ShiftRow(Shift(f, a), b, t);
      ShiftRow(f, a + b, t);
      if t >= b {
        ShiftRow(f, a, t - b);
      }
    }
    assert g.rows == h.rows;
  }

  lemma ShiftRow(f: Frame, k: nat, t: nat)
    requires f.WellFormed() && t < |f.rows|
    ensures Shift(f, k).rows[t] == Row(f.rows[t].ts, if t >= k then f.rows[t - k].cells else Nones(|f.columns|))
  {
  }

  lemma LaggedWeightsKeepGaps(w: Frame, cfg: Config, t: nat, j: nat)
    requires w.WellFormed() && cfg.weightLag >= 0 && cfg.nanPolicy != "fill"
    requires t < |w.rows| && j < |w.columns|
    ensures LaggedWeights(w, cfg).rows[t].cells[j] ==
      (if t >= cfg.weightLag then w.rows[t - cfg.weightLag].cells[j] else None)
  {
    ShiftRow(w, cfg.weightLag as nat, t);
  }

  lemma LaggedWeightsFillGaps(w: Frame, cfg: Config, t: nat, j: nat)
    requires w.WellFormed() && cfg.weightLag >= 0 && cfg.nanPolicy == "fill"
    requires t < |w.rows| && j < |w.columns|
    ensures LaggedWeights(w, cfg).rows[t].cells[j] ==
      Some(if t >= cfg.weightLag then w.rows[t - cfg.weightLag].cells[j].GetOr(0.0) else 0.0)
  {
    var lag := cfg.weightLag as nat;
    var filled := FillNa(w, 0.0);
    var shifted := Shift(filled, lag);
    assert LaggedWeights(w, cfg) == FillNa(shifted, 0.0);
    ShiftRow(filled, lag, t);
    var c := shifted.rows[t].cells[j];
    assert LaggedWeights(w, cfg).rows[t].cells[j] == Some(c.GetOr(0.0));
    if t >= lag {
      assert c == Some(w.rows[t - lag].cells[j].GetOr(0.0));
    } else {
      assert c == None;
    }
  }

  /** The weights used at row `t` are the target weights of row `t - lag`
      when that row exists, and are missing otherwise; under `fill` every
      missing weight, before or after the shift, reads as 0. */
  lemma LaggedWeightsAt(w: Frame, cfg: Config, t: nat, j: nat)
    requires w.WellFormed() && cfg.weightLag >= 0
    requires t < |w.rows| && j < |w.columns|
    ensures cfg.nanPolicy != "fill" ==>
      LaggedWeights(w, cfg).rows[t].cells[j] ==
        (if t >= cfg.weightLag then w.rows[t - cfg.weightLag].cells[j] else None)
    ensures cfg.nanPolicy == "fill" ==>
      LaggedWeights(w, cfg).rows[t].cells[j] ==
        Some(if t >= cfg.weightLag then w.rows[t - cfg.weightLag].cells[j].GetOr(0.0) else 0.0)
  {
    if cfg.nanPolicy == "fill" {
      LaggedWeightsFillGaps(w, cfg, t, j);
    } else {
      LaggedWeightsKeepGaps(w, cfg, t, j);
    }
  }

  // ---------------------------------------------------------------------
  // Missing-value policy

  /** `fillna` keeps every present cell and is idempotent. */
  lemma FillNaKeepsPresent(f: Frame, v: real)
    requires f.WellFormed()
    ensures forall t, j :: 0 <= t < |f.rows| && 0 <= j < |f.columns| && f.rows[t].cells[j].Some? ==>
      FillNa(f, v).rows[t].cells[j] == f.rows[t].cells[j]
    ensures FillNa(FillNa(f, v), v) == FillNa(f, v)
  {
    var g := FillNa(f, v);
    forall t | 0 <= t < |f.rows| ensures FillNa(g, v).rows[t] == g.rows[t] {
      assert FillNa(g, v).rows[t].cells == g.rows[t].cells;
    }
    assert FillNa(g, v).rows == g.rows;
  }

  /** The forward-filled prices hold, in every cell, the last price observed
      at or before that row; the backward-filled ones the next price observed
      at or after it. */
  lemma FillPricesObservations(px: Frame, fillMethod: string, t: nat, j: nat)
    requires px.WellFormed() && t < |px.rows| && j < |px.columns|
    ensures fillMethod == "ffill" ==>
      FillPrices(px, fillMethod).rows[t].cells[j] == LastObservation(px.rows, |px.columns|, t, j)
    ensures fillMethod != "ffill" ==>
      FillPrices(px, fillMethod).rows[t].cells[j] == NextObservation(px.rows, |px.columns|, t, j)
  {
    if fillMethod == "ffill" {
      ForwardFillIsLastObservation(px.rows, |px.columns|, t, j);
    } else {
      BackwardFillIsNextObservation(px.rows, |px.columns|, t, j);
    }
  }

  /** A last observation exists once any earlier row has the column present,
      and then it is the value of the latest such row. */
  lemma {:induction false} LastObservationIsLatest(rows: seq<Row>, n: nat, t: nat, j: nat, s: nat)
    requires Width(rows, n) && s <= t < |rows| && j < n
    requires rows[s].cells[j].Some?
    requires forall u :: s < u <= t ==> rows[u].cells[j].None?
    ensures LastObservation(rows, n, t, j) == rows[s].cells[j]
    decreases t
  {
    if t > s {
      LastObservationIsLatest(rows, n, t - 1, j, s);
    }
  }

  // ---------------------------------------------------------------------
  // Returns

  /** `pct_change` has no return for the first row. */
  lemma FirstReturnMissing(px: Frame)
    requires px.WellFormed() && PositivePrices(px) && |px.rows| >= 1
    ensures forall j :: 0 <= j < |px.columns| ==> PctChange(px).rows[0].cells[j] == None
  {
    assert PctChange(px).rows[0] == ReturnRow(px, 0);
  }

  /** A return is present iff both adjacent prices are, and then compounding
      the previous price by it gives back the current price. */
  lemma ReturnRecoversPrice(px: Frame, t: nat, j: nat)
    requires px.WellFormed() && PositivePrices(px)
    requires 1 <= t < |px.rows| && j < |px.columns|
    ensures var ret := PctChange(px).rows[t].cells[j];
      && (ret.Some? <==> px.rows[t - 1].cells[j].Some? && px.rows[t].cells[j].Some?)
      && (ret.Some? ==> px.rows[t].cells[j].value == px.rows[t - 1].cells[j].value * (1.0 + ret.value))
  {
    assert PctChange(px).rows[t] == ReturnRow(px, t);
    assert PositiveCells(px.rows[t - 1].cells);
    var ret := PctChange(px).rows[t].cells[j];
    if ret.Some? {
      var p, q := px.rows[t - 1].cells[j].value, px.rows[t].cells[j].value;
      assert ret.value == q / p - 1.0;
      assert p * (1.0 + q / p - 1.0) == q;
    }
  }

  // ---------------------------------------------------------------------
  // Exposures and turnover

  lemma AbsCellsTail(cs: seq<Cell>)
    requires |cs| > 0
    ensures AbsCells(cs)[1..] == AbsCells(cs[1..])
  {
  }

  /** The absolute value of a sum is at most the sum of absolute values. */
  lemma {:induction false} SumWithinAbsSum(cs: seq<Cell>)
    ensures Abs(SumPresent(cs)) <= SumPresent(AbsCells(cs))
  {
    if cs != [] {
      SumWithinAbsSum(cs[1..]);
      AbsCellsTail(cs);
    }
  }

  /** Gross exposure bounds the magnitude of net exposure on every row. */
  lemma GrossBoundsNet(f: Frame)
    ensures forall t :: 0 <= t < |f.rows| ==> Abs(NetExposure(f)[t]) <= Gross(f)[t]
  {
    forall t | 0 <= t < |f.rows| ensures Abs(NetExposure(f)[t]) <= Gross(f)[t] {
      SumWithinAbsSum(f.rows[t].cells);
    }
  }

  /** A row with no present cell sums to 0. */
  lemma {:induction false} SumOfMissing(cs: seq<Cell>)
    requires forall j :: 0 <= j < |cs| ==> cs[j].None?
    ensures SumPresent(cs) == 0.0
  {
    if cs != [] {
      SumOfMissing(cs[1..]);
    }
  }

  /** The first row of `diff()` is entirely missing, so the raw turnover of
      the first row is already 0 before `turnover.iloc[0] = 0.0`. */
  lemma FirstRawTurnoverIsZero(f: Frame)
    requires f.WellFormed() && |f.rows| >= 1
    ensures RawTurnover(f)[0] == 0.0
  {
    SumOfMissing(AbsCells(Nones(|f.columns|)));
  }

  // ---------------------------------------------------------------------
  // Equity curve

  /** The growth factor `prod (1 + r)` over a sequence of period returns. */
  function Growth(rets: seq<real>): real {
    if rets == [] then 1.0 else Growth(rets[..|rets| - 1]) * (1.0 + rets[|rets| - 1])
  }

  /** Equity compounds: the first point is the initial equity grown by the
      first return, and every later point is the previous one grown by that
      period's return. */
  lemma EquityRecurrence(initialEquity: real, rets: seq<real>)
    ensures |rets| > 0 ==> Equity(initialEquity, rets)[0] == Compound(initialEquity, rets[0])
    ensures forall t {:trigger rets[t]} :: 0 < t < |rets| ==>
      Equity(initialEquity, rets)[t] == Compound(Equity(initialEquity, rets)[t - 1], rets[t])
  {
    var factors := seq(|rets|, t requires 0 <= t < |rets| => 1.0 + rets[t]);
    var growth := CumProd(factors);
    forall t | 0 < t < |rets|
      ensures Equity(initialEquity, rets)[t] == Compound(Equity(initialEquity, rets)[t - 1], rets[t])
    {
      assert factors[t] == 1.0 + rets[t];
      assert growth[t] == growth[t - 1] * (1.0 + rets[t]);
      assert growth[t] * initialEquity == (growth[t - 1] * initialEquity) * (1.0 + rets[t]);
    }
  }

  /** Every point of the equity curve is the initial equity times the growth
      of all returns up to and including that period. */
  lemma {:induction false} EquityIsGrowth(initialEquity: real, rets: seq<real>, t: nat)
    requires t < |rets|
    ensures Equity(initialEquity, rets)[t] == initialEquity * Growth(rets[..t + 1])
  {
    EquityRecurrence(initialEquity, rets);
    assert rets[..t + 1][..t] == rets[..t];
    if t > 0 {
      EquityIsGrowth(initialEquity, rets, t - 1);
    } else {
      assert Growth(rets[..0]) == 1.0;
    }
  }

  // ---------------------------------------------------------------------
  // The `drop` mask

  /** Under `drop` the masked tables are the rows of both tables at the
      positions of the complete rows. */
  lemma DropMaskIsKeep(ret: Frame, wu: Frame, cfg: Config)
    requires ret.WellFormed() && wu.WellFormed()
    requires ret.columns == wu.columns && ret.Index() == wu.Index()
    requires cfg.nanPolicy == "drop"
    ensures |ret.rows| == |wu.rows|
    ensures var ks := CompleteRows(ret, wu, 0); var (r, u) := MaskRows(ret, wu, cfg);
      && |r.rows| == |u.rows| == |ks|
      && (forall i :: 0 <= i < |ks| ==> ks[i] < |ret.rows| && r.rows[i] == ret.rows[ks[i]] && u.rows[i] == wu.rows[ks[i]])
  {
    assert |ret.rows| == |ret.Index()| == |wu.Index()| == |wu.rows|;
    var ks := CompleteRows(ret, wu, 0);
    assert forall i :: 0 <= i < |ks| ==> ks[i] in ks;
  }

  /** Under `drop` every kept row is complete and every complete row is
      kept. */
  lemma DropKeepsExactlyComplete(ret: Frame, wu: Frame, cfg: Config)
    requires ret.WellFormed() && wu.WellFormed()
    requires ret.columns == wu.columns && ret.Index() == wu.Index()
    requires cfg.nanPolicy == "drop"
    ensures var (r, u) := MaskRows(ret, wu, cfg);
      && (forall i :: 0 <= i < |r.rows| ==> AllPresent(r.rows[i].cells) && AllPresent(u.rows[i].cells))
      && (forall t :: 0 <= t < |ret.rows| && Complete(ret, wu, t) ==> ret.rows[t] in r.rows && wu.rows[t] in u.rows)
  {
    DropMaskIsKeep(ret, wu, cfg);
    var ks := CompleteRows(ret, wu, 0);
    var (r, u) := MaskRows(ret, wu, cfg);
    forall i | 0 <= i < |r.rows|
      ensures AllPresent(r.rows[i].cells) && AllPresent(u.rows[i].cells)
    {
      assert ks[i] in ks;
      assert Complete(ret, wu, ks[i]);
    }
    forall t | 0 <= t < |ret.rows| && Complete(ret, wu, t)
      ensures ret.rows[t] in r.rows && wu.rows[t] in u.rows
    {
      var i :| 0 <= i < |ks| && ks[i] == t;
      assert r.rows[i] == ret.rows[t];
      assert u.rows[i] == wu.rows[t];
    }
  }

  /** Under `drop` nothing but original rows appears, in their original
      order. */
  lemma DropKeepsOrder(ret: Frame, wu: Frame, cfg: Config)
    requires ret.WellFormed() && wu.WellFormed()
    requires ret.columns == wu.columns && ret.Index() == wu.Index()
    requires cfg.nanPolicy == "drop"
    ensures var (r, u) := MaskRows(ret, wu, cfg);
      && (forall i :: 0 <= i < |r.rows| ==> r.rows[i] in ret.rows && u.rows[i] in wu.rows)
      && (StrictlyIncreasing(ret.Index()) ==> StrictlyIncreasing(r.Index()))
  {
    DropMaskIsKeep(ret, wu, cfg);
    var ks := CompleteRows(ret, wu, 0);
    var (r, u) := MaskRows(ret, wu, cfg);
    if StrictlyIncreasing(ret.Index()) {
      forall i, j | 0 <= i < j < |r.rows|
        ensures r.Index()[i] < r.Index()[j]
      {
        assert ks[i] < ks[j];
        assert ret.Index()[ks[i]] < ret.Index()[ks[j]];
      }
    }
  }

  /** When exactly the rows from `m` on are complete, the mask keeps the
      consecutive positions from `max(from, m)` to the end. */
  lemma {:induction false} CompleteRowsSuffix(ret: Frame, wu: Frame, from: nat, m: nat)
    requires |ret.rows| == |wu.rows| && m <= |ret.rows|
    requires forall k :: from <= k < |ret.rows| ==> (Complete(ret, wu, k) <==> k >= m)
    ensures var lo := if from >= m then from else m;
      && |CompleteRows(ret, wu, from)| == (if lo >= |ret.rows| then 0 else |ret.rows| - lo)
      && forall i :: 0 <= i < |CompleteRows(ret, wu, from)| ==> CompleteRows(ret, wu, from)[i] == lo + i
    decreases |ret.rows| - from
  {
    if from < |ret.rows| {
      CompleteRowsSuffix(ret, wu, from + 1, m);
    }
  }

  // ---------------------------------------------------------------------
  // The pipeline after alignment

  /** Under `raise` the pipeline never succeeds: the first return row is
      always missing, so the second NaN check rejects every input that the
      first one lets through. */
  lemma RaiseNeverSucceeds(px: Frame, w: Frame, cfg: Config)
    requires Aligned(px, w) && PositivePrices(px) && cfg.weightLag >= 0
    requires cfg.nanPolicy == "raise"
    ensures RunAligned(px, w, cfg) == Failure(NansInPricesOrReturns) || RunAligned(px, w, cfg) == Failure(NansInWeights)
    ensures !AnyMissing(px) && !AnyMissing(w) ==> RunAligned(px, w, cfg) == Failure(NansInPricesOrReturns)
  {
    var ret := PctChange(PolicyPrices(px, cfg));
    FirstReturnMissing(PolicyPrices(px, cfg));
    assert ret.rows[0].cells[0] == None;
    assert AnyMissing(ret);
  }

  /** The leverage ceiling is tested on the lagged weights before the `drop`
      mask: a row over the ceiling fails the run even when the mask would
      have removed it. */
  lemma LeverageBeforeMask(px: Frame, w: Frame, cfg: Config, t: nat)
    requires Aligned(px, w) && PositivePrices(px) && cfg.weightLag >= 0
    requires cfg.nanPolicy == "drop" && cfg.grossLeverageMax.Some? && cfg.grossLeverageMax.value > 0.0
    requires t < |w.rows| && Gross(LaggedWeights(w, cfg))[t] > cfg.grossLeverageMax.value + LeverageTolerance
    ensures RunAligned(px, w, cfg).Failure?
    ensures RunAligned(px, w, cfg).error.GrossLeverageExceeded?
  {
  }

  /** Outside `raise`, a breach found by the ceiling check is the run's
      error. */
  lemma RunAlignedLeverage(px: Frame, w: Frame, cfg: Config)
    requires Aligned(px, w) && PositivePrices(px) && cfg.weightLag >= 0
    requires cfg.nanPolicy != "raise" && cfg.grossLeverageMax.Some?
    requires EnforceGrossLeverage(LaggedWeights(w, cfg), cfg.grossLeverageMax.value).Some?
    ensures RunAligned(px, w, cfg) ==
      Failure(EnforceGrossLeverage(LaggedWeights(w, cfg), cfg.grossLeverageMax.value).value)
  {
  }

  /** Turnover starts at 0 and is half the summed absolute weight change
      afterwards; gross exposure bounds net exposure on every row. */
  lemma AssembleExposures(ret: Frame, wu: Frame, cfg: Config)
    requires ret.WellFormed() && wu.WellFormed()
    requires ret.columns == wu.columns && ret.Index() == wu.Index() && |wu.rows| >= 1
    ensures var res := Assemble(ret, wu, cfg);
      && res.turnover[0] == 0.0
      && (forall t :: 0 < t < |wu.rows| ==>
            res.turnover[t] == 0.5 * SumPresent(AbsCells(DiffCells(wu.rows[t].cells, wu.rows[t - 1].cells))))
      && (forall t :: 0 <= t < |wu.rows| ==> Abs(res.netExposure[t]) <= res.grossExposure[t])
  {
    var res := Assemble(ret, wu, cfg);
    var raw := RawTurnover(wu);
    assert res.turnover == raw[0 := 0.0];
    forall t | 0 < t < |wu.rows|
      ensures res.turnover[t] == 0.5 * SumPresent(AbsCells(DiffCells(wu.rows[t].cells, wu.rows[t - 1].cells)))
    {
      assert res.turnover[t] == raw[t];
    }
    assert res.grossExposure == Gross(wu) && res.netExposure == NetExposure(wu);
    GrossBoundsNet(wu);
  }

  /** The equity curve of the result compounds the initial equity by the
      portfolio return of every kept row. */
  lemma AssembleEquity(ret: Frame, wu: Frame, cfg: Config)
    requires ret.WellFormed() && wu.WellFormed()
    requires ret.columns == wu.columns && ret.Index() == wu.Index() && |wu.rows| >= 1
    ensures var res := Assemble(ret, wu, cfg);
      && res.equity[0] == Compound(cfg.initialEquity, res.periodReturns[0])
      && (forall t {:trigger res.periodReturns[t]} :: 0 < t < |wu.rows| ==>
            res.equity[t] == Compound(res.equity[t - 1], res.periodReturns[t]))
      && (forall t :: 0 <= t < |wu.rows| ==>
            res.periodReturns[t] == SumPresent(MulCells(wu.rows[t].cells, ret.rows[t].cells)))
  {
    var res := Assemble(ret, wu, cfg);
    EquityRecurrence(cfg.initialEquity, res.periodReturns);
  }

  // ---------------------------------------------------------------------
  // Results of the pipeline after alignment

  /** The tables right before the mask: returns of the policy-adjusted prices
      and the lagged weights. */
  lemma PreMaskTables(px: Frame, w: Frame, cfg: Config)
    requires Aligned(px, w) && PositivePrices(px) && cfg.weightLag >= 0
    ensures var ret := PctChange(PolicyPrices(px, cfg)); var wu := LaggedWeights(w, cfg);
      && ret.WellFormed() && wu.WellFormed()
      && ret.columns == wu.columns == px.columns
      && ret.Index() == wu.Index() == px.Index()
  {
  }

  /** Without the `raise` checks and without a ceiling, the pipeline masks the
      tables and assembles the result unless no row is left. */
  lemma RunAlignedWithoutChecks(px: Frame, w: Frame, cfg: Config)
    requires Aligned(px, w) && PositivePrices(px) && cfg.weightLag >= 0
    requires cfg.nanPolicy != "raise" && cfg.grossLeverageMax.None?
    ensures var ret := PctChange(PolicyPrices(px, cfg)); var wu := LaggedWeights(w, cfg);
      var (r, u) := MaskRows(ret, wu, cfg);
      && r.WellFormed() && u.WellFormed() && r.columns == u.columns && r.Index() == u.Index()
      && RunAligned(px, w, cfg) == if |u.rows| == 0 then Failure(EmptyAfterMask) else Success(Assemble(r, u, cfg))
  {
    PreMaskTables(px, w, cfg);
  }

  /** A successful run reports the aligned columns, in both tables, and
      `n_assets` is their number. */
  lemma RunAlignedColumns(px: Frame, w: Frame, cfg: Config)
    requires Aligned(px, w) && PositivePrices(px) && cfg.weightLag >= 0
    requires RunAligned(px, w, cfg).Success?
    ensures var res := RunAligned(px, w, cfg).value;
      && res.weightsUsed.columns == px.columns && res.assetReturns.columns == px.columns
      && res.assetReturns.Index() == res.weightsUsed.Index() && |res.weightsUsed.rows| >= 1
      && res.metadata.nAssets == |px.columns|
  {
    RunAlignedSucceeds(px, w, cfg);
  }

  /** Every row of `f` carries a timestamp of `idx`. */
  predicate DrawnFrom(f: Frame, idx: seq<int>) {
    forall i :: 0 <= i < |f.rows| ==> f.rows[i].ts in idx
  }

  /** Every row of `f` lies between `start` and `end`. */
  predicate Spans(f: Frame, start: int, end: int) {
    forall i :: 0 <= i < |f.rows| ==> start <= f.rows[i].ts <= end
  }

  /** A successful run reports the kept rows in increasing timestamp order,
      all drawn from the aligned index; `start` and `end` are the smallest and
      largest kept timestamps. */
  lemma RunAlignedIndex(px: Frame, w: Frame, cfg: Config)
    requires Aligned(px, w) && PositivePrices(px) && cfg.weightLag >= 0
    requires RunAligned(px, w, cfg).Success?
    ensures var res := RunAligned(px, w, cfg).value;
      && StrictlyIncreasing(res.weightsUsed.Index())
      && DrawnFrom(res.weightsUsed, px.Index())
      && Spans(res.weightsUsed, res.metadata.start, res.metadata.end)
  {
    RunAlignedSucceeds(px, w, cfg);
    var ret := PctChange(PolicyPrices(px, cfg));
    var wu := LaggedWeights(w, cfg);
    var (r, u) := MaskRows(ret, wu, cfg);
    MaskedIndex(px, ret, wu, cfg);
    AssembleMetadata(r, u, cfg);
  }

  /** `start` and `end` of an assembled result over an increasing index are
      its smallest and largest timestamps. */
  lemma AssembleMetadata(ret: Frame, wu: Frame, cfg: Config)
    requires ret.WellFormed() && wu.WellFormed()
    requires ret.columns == wu.columns && ret.Index() == wu.Index() && |wu.rows| >= 1
    requires StrictlyIncreasing(wu.Index())
    ensures var res := Assemble(ret, wu, cfg);
      && res.metadata.start in wu.Index() && res.metadata.end in wu.Index()
      && Spans(wu, res.metadata.start, res.metadata.end)
  {
    var n := |wu.rows|;
    IndexSpans(wu);
    assert |ret.rows| == n;
    assert ret.rows[0].ts == wu.rows[0].ts by {
      assert ret.Index()[0] == wu.Index()[0];
    }
    assert ret.rows[n - 1].ts == wu.rows[n - 1].ts by {
      assert ret.Index()[n - 1] == wu.Index()[n - 1];
    }
  }

  /** A table with an increasing index spans its first to its last timestamp. */
  lemma IndexSpans(f: Frame)
    requires StrictlyIncreasing(f.Index()) && |f.rows| >= 1
    ensures var first, last := f.rows[0].ts, f.rows[|f.rows| - 1].ts;
      first in f.Index() && last in f.Index() && Spans(f, first, last)
  {
    var idx := f.Index();
    MetadataBounds(idx, f.rows[0].ts, f.rows[|f.rows| - 1].ts);
    assert forall i :: 0 <= i < |f.rows| ==> f.rows[i].ts == idx[i];
  }

  /** The masked tables keep increasing timestamps from the aligned index. */
  lemma MaskedIndex(px: Frame, ret: Frame, wu: Frame, cfg: Config)
    requires ret.WellFormed() && wu.WellFormed()
    requires ret.columns == wu.columns && ret.Index() == wu.Index() == px.Index()
    requires StrictlyIncreasing(px.Index())
    ensures var (r, u) := MaskRows(ret, wu, cfg);
      && StrictlyIncreasing(u.Index())
      && DrawnFrom(u, px.Index())
  {
    var (r, u) := MaskRows(ret, wu, cfg);
    if cfg.nanPolicy == "drop" {
      DropKeepsOrder(ret, wu, cfg);
      forall i | 0 <= i < |r.rows| ensures r.rows[i].ts in px.Index() {
        var k :| 0 <= k < |ret.rows| && ret.rows[k] == r.rows[i];
        assert ret.Index()[k] == r.rows[i].ts;
      }
      assert r.Index() == u.Index();
      assert forall i :: 0 <= i < |u.rows| ==> u.rows[i].ts == r.rows[i].ts;
    }
  }

  /** The first and last entries of an increasing index are its minimum and
      maximum. */
  lemma MetadataBounds(idx: seq<int>, start: int, end: int)
    requires StrictlyIncreasing(idx) && |idx| >= 1
    requires start == idx[0] && end == idx[|idx| - 1]
    ensures start in idx && end in idx
    ensures forall i :: 0 <= i < |idx| ==> start <= idx[i] <= end
  {
  }

  /** Under every policy but `drop` the first row survives, and since it has
      no asset return the portfolio return there is 0 and the first equity
      point is the initial equity, whatever the lag. */
  lemma FirstEquityIsInitial(px: Frame, w: Frame, cfg: Config)
    requires Aligned(px, w) && PositivePrices(px) && cfg.weightLag >= 0
    requires cfg.nanPolicy != "drop" && RunAligned(px, w, cfg).Success?
    ensures |RunAligned(px, w, cfg).value.equity| == |px.rows|
    ensures RunAligned(px, w, cfg).value.periodReturns[0] == 0.0
    ensures RunAligned(px, w, cfg).value.equity[0] == cfg.initialEquity
  {
    RunAlignedSucceeds(px, w, cfg);
    FirstReturnMissing(PolicyPrices(px, cfg));
    AssembleFirstEquity(PctChange(PolicyPrices(px, cfg)), LaggedWeights(w, cfg), cfg);
  }

  /** A successful aligned run is the assembly of the masked tables, and the
      mask left at least one row. */
  lemma RunAlignedSucceeds(px: Frame, w: Frame, cfg: Config)
    requires Aligned(px, w) && PositivePrices(px) && cfg.weightLag >= 0
    requires RunAligned(px, w, cfg).Success?
    ensures PctChange(PolicyPrices(px, cfg)).WellFormed() && LaggedWeights(w, cfg).WellFormed()
    ensures PctChange(PolicyPrices(px, cfg)).columns == LaggedWeights(w, cfg).columns == px.columns
    ensures PctChange(PolicyPrices(px, cfg)).Index() == LaggedWeights(w, cfg).Index() == px.Index()
    ensures var masked := MaskRows(PctChange(PolicyPrices(px, cfg)), LaggedWeights(w, cfg), cfg);
      |masked.1.rows| >= 1 && RunAligned(px, w, cfg) == Success(Assemble(masked.0, masked.1, cfg))
  {
    PreMaskTables(px, w, cfg);
  }

  /** When the first return row is missing, the first period returns 0 and
      the first equity point is the initial equity. */
  lemma AssembleFirstEquity(ret: Frame, wu: Frame, cfg: Config)
    requires ret.WellFormed() && wu.WellFormed()
    requires ret.columns == wu.columns && ret.Index() == wu.Index() && |wu.rows| >= 1
    requires forall j :: 0 <= j < |ret.columns| ==> ret.rows[0].cells[j] == None
    ensures Assemble(ret, wu, cfg).periodReturns[0] == 0.0
    ensures Assemble(ret, wu, cfg).equity[0] == cfg.initialEquity
  {
    var res := Assemble(ret, wu, cfg);
    AssembleEquity(ret, wu, cfg);
    FirstPeriodReturnZero(ret, wu);
    assert res.periodReturns == PortfolioReturns(wu, ret);
    assert res.equity[0] == Compound(cfg.initialEquity, 0.0);
  }

  /** A period with no asset return has portfolio return 0. */
  lemma FirstPeriodReturnZero(ret: Frame, wu: Frame)
    requires wu.WellFormed() && ret.WellFormed()
    requires wu.columns == ret.columns && |wu.rows| == |ret.rows| >= 1
    requires forall j :: 0 <= j < |ret.columns| ==> ret.rows[0].cells[j] == None
    ensures PortfolioReturns(wu, ret)[0] == 0.0
  {
    SumOfMissing(MulCells(wu.rows[0].cells, ret.rows[0].cells));
  }

  /** Rows of `pct_change` are complete from row 1 on when no price is missing. */
  lemma ReturnsCompleteFromSecondRow(px: Frame, t: nat)
    requires px.WellFormed() && PositivePrices(px) && !AnyMissing(px)
    requires 1 <= t < |px.rows|
    ensures AllPresent(PctChange(px).rows[t].cells)
  {
    forall j | 0 <= j < |px.columns| ensures PctChange(px).rows[t].cells[j].Some? {
      assert AllPresent(px.rows[t - 1].cells) && AllPresent(px.rows[t].cells);
      ReturnRecoversPrice(px, t, j);
    }
  }

  /** The first row a gap-free pair of tables has complete under a lag. */
  function FirstComplete(cfg: Config): nat {
    if cfg.weightLag >= 1 then cfg.weightLag as nat else 1
  }

  /** With no gap in either aligned table, a row is complete iff it has a
      return (it is not the first) and a lagged weight (it is at least `lag`). */
  lemma CompleteWithoutGaps(px: Frame, w: Frame, cfg: Config)
    requires Aligned(px, w) && PositivePrices(px) && cfg.weightLag >= 0
    requires !AnyMissing(px) && !AnyMissing(w) && cfg.nanPolicy == "drop"
    ensures var ret := PctChange(PolicyPrices(px, cfg)); var wu := LaggedWeights(w, cfg);
      && PolicyPrices(px, cfg) == px
      && |ret.rows| == |wu.rows| == |px.rows|
      && forall k :: 0 <= k < |px.rows| ==> (Complete(ret, wu, k) <==> k >= FirstComplete(cfg))
  {
    PreMaskTables(px, w, cfg);
    forall k | 0 <= k < |px.rows|
      ensures Complete(PctChange(px), LaggedWeights(w, cfg), k) <==> k >= FirstComplete(cfg)
    {
      CompleteAt(px, w, cfg, k);
    }
  }

  lemma CompleteAt(px: Frame, w: Frame, cfg: Config, k: nat)
    requires Aligned(px, w) && PositivePrices(px) && cfg.weightLag >= 0
    requires !AnyMissing(px) && !AnyMissing(w) && cfg.nanPolicy == "drop" && k < |px.rows|
    ensures Complete(PctChange(px), LaggedWeights(w, cfg), k) <==> k >= FirstComplete(cfg)
  {
    var ret := PctChange(px);
    var wu := LaggedWeights(w, cfg);
    if k == 0 {
      FirstReturnMissing(px);
      assert ret.rows[0].cells[0] == None;
    } else {
      ReturnsCompleteFromSecondRow(px, k);
      if k < cfg.weightLag {
        LaggedWeightsAt(w, cfg, k, 0);
        assert wu.rows[k].cells[0] == None;
      } else {
        assert AllPresent(w.rows[k - cfg.weightLag].cells);
        forall j | 0 <= j < |px.columns| ensures wu.rows[k].cells[j].Some? {
          LaggedWeightsAt(w, cfg, k, j);
        }
      }
    }
  }

  /** `r` and `u` are the rows of `ret` and `wu` from position `m` on. */
  predicate KeepsFrom(ret: Frame, wu: Frame, r: Frame, u: Frame, m: nat) {
    && |r.rows| == |u.rows| == (if m < |ret.rows| then |ret.rows| - m else 0)
    && |ret.rows| == |wu.rows|
    && forall i :: 0 <= i < |u.rows| ==> r.rows[i] == ret.rows[i + m] && u.rows[i] == wu.rows[i + m]
  }

  lemma KeepsFromAt(ret: Frame, wu: Frame, r: Frame, u: Frame, m: nat, i: nat)
    requires KeepsFrom(ret, wu, r, u, m) && i + m < |ret.rows|
    ensures i < |r.rows| && r.rows[i] == ret.rows[i + m]
    ensures i < |u.rows| && u.rows[i] == wu.rows[i + m]
  {
  }

  /** With no gap in either aligned table, `drop` keeps exactly the rows from
      `max(1, lag)` on, in order. */
  lemma DropMaskWithoutGaps(px: Frame, w: Frame, cfg: Config)
    requires Aligned(px, w) && PositivePrices(px) && cfg.weightLag >= 0
    requires !AnyMissing(px) && !AnyMissing(w) && cfg.nanPolicy == "drop"
    ensures var ret := PctChange(PolicyPrices(px, cfg)); var wu := LaggedWeights(w, cfg);
      var masked := MaskRows(ret, wu, cfg);
      KeepsFrom(ret, wu, masked.0, masked.1, FirstComplete(cfg))
  {
    CompleteWithoutGaps(px, w, cfg);
    var ret := PctChange(PolicyPrices(px, cfg));
    var wu := LaggedWeights(w, cfg);
    var n, m := |px.rows|, FirstComplete(cfg);
    CompleteRowsSuffix(ret, wu, 0, if m < n then m else n);
  }

  /** With no gap in either aligned table and no ceiling, `drop` keeps the
      rows from `max(1, lag)` on: `n - max(1, lag)` rows when `lag < n`, and
      an empty table (rejected at the turnover update) otherwise. */
  lemma DropWithoutGaps(px: Frame, w: Frame, cfg: Config)
    requires Aligned(px, w) && PositivePrices(px) && cfg.weightLag >= 0
    requires !AnyMissing(px) && !AnyMissing(w)
    requires cfg.nanPolicy == "drop" && cfg.grossLeverageMax.None?
    ensures var n := |px.rows|; var m := FirstComplete(cfg);
      && (m < n ==> RunAligned(px, w, cfg).Success? && |RunAligned(px, w, cfg).value.equity| == n - m)
      && (m < n ==> forall i :: 0 <= i < n - m ==>
            && RunAligned(px, w, cfg).value.assetReturns.rows[i] == PctChange(px).rows[i + m]
            && RunAligned(px, w, cfg).value.weightsUsed.rows[i] == LaggedWeights(w, cfg).rows[i + m])
      && (m >= n ==> RunAligned(px, w, cfg) == Failure(EmptyAfterMask))
  {
    PreMaskTables(px, w, cfg);
    RunAlignedWithoutChecks(px, w, cfg);
    DropMaskWithoutGaps(px, w, cfg);
  }

  // ---------------------------------------------------------------------
  // The whole engine

  /** Sorting the index keeps the same set of timestamps. */
  lemma NormalizeSameTimestamps(f: Frame)
    ensures forall t :: t in Normalize(f).Index() <==> t in f.Index()
  {
    TimestampsOfPermutation(Normalize(f).rows, f.rows);
    forall t ensures t in Normalize(f).Index() <==> t in f.Index() {
      assert t in Normalize(f).Index() <==> t in multiset(Normalize(f).Index());
      assert t in f.Index() <==> t in multiset(f.Index());
    }
  }

  /** Under `raise` the engine never returns a result. */
  lemma BacktestRaiseNeverSucceeds(prices: Frame, weights: Frame, cfg: Config)
    requires prices.WellFormed() && weights.WellFormed() && PositivePrices(prices)
    requires cfg.nanPolicy == "raise"
    ensures Backtest(prices, weights, cfg).Failure?
  {
    if ValidationError(prices, weights, cfg.initialEquity, cfg.weightLag).None? {
      var (p, w) := NormalizeInputs(prices, weights);
      NormalizePreserves(prices);
      NormalizePreserves(weights);
      ValidatedIncreasing(prices, weights, cfg.initialEquity, cfg.weightLag);
      if Align(p, w).Success? {
        AlignKeepsCommonDates(p, w);
        AlignKeepsPositive(p, w);
        RaiseNeverSucceeds(Align(p, w).value.0, Align(p, w).value.1, cfg);
      }
    }
  }

  /** A result of the engine covers exactly the assets both inputs share, and
      reports increasing timestamps that both inputs carry, between `start`
      and `end`. */
  lemma BacktestAssetsAndDates(prices: Frame, weights: Frame, cfg: Config)
    requires prices.WellFormed() && weights.WellFormed() && PositivePrices(prices)
    requires Backtest(prices, weights, cfg).Success?
    ensures var res := Backtest(prices, weights, cfg).value;
      && (forall c :: c in res.weightsUsed.columns <==> c in prices.columns && c in weights.columns)
      && res.assetReturns.columns == res.weightsUsed.columns
      && res.metadata.nAssets == |res.weightsUsed.columns|
      && StrictlyIncreasing(res.weightsUsed.Index())
      && (forall i :: 0 <= i < |res.weightsUsed.rows| ==>
            res.weightsUsed.rows[i].ts in prices.Index() && res.weightsUsed.rows[i].ts in weights.Index())
      && (forall i :: 0 <= i < |res.weightsUsed.rows| ==>
            res.metadata.start <= res.weightsUsed.rows[i].ts <= res.metadata.end)
  {
    var (p, w) := NormalizeInputs(prices, weights);
    NormalizePreserves(prices);
    NormalizePreserves(weights);
    ValidatedIncreasing(prices, weights, cfg.initialEquity, cfg.weightLag);
    NormalizeSameTimestamps(prices);
    NormalizeSameTimestamps(weights);
    AlignKeepsCommonColumns(p, w);
    AlignKeepsCommonDates(p, w);
    AlignKeepsPositive(p, w);
    var (ap, aw) := Align(p, w).value;
    RunAlignedColumns(ap, aw, cfg);
    RunAlignedIndex(ap, aw, cfg);
  }

  // ---------------------------------------------------------------------
  // Alignment is idempotent

  /** Every element of `a` is in `a`, so intersecting `a` with itself gives `a`. */
  lemma {:induction false} IntersectSelf<T(!new)>(a: seq<T>, b: seq<T>)
    requires forall x :: x in a ==> x in b
    ensures Intersect(a, b) == a
  {
    if a != [] {
      assert forall x :: x in a[1..] ==> x in a;
      IntersectSelf(a[1..], b);
      assert a == [a[0]] + a[1..];
    }
  }

  /** Two tables that are already aligned come out of `_align` unchanged. */
  lemma AlignAligned(px: Frame, w: Frame)
    requires Aligned(px, w)
    ensures Align(px, w) == Success((px, w))
  {
    IntersectSelf(px.columns, w.columns);
    IntersectSelf(px.Index(), w.Index());
    SelectAll(px);
    SelectAll(w);
  }

  /** Selecting all of a table's columns and then all of its timestamps gives
      the table back when both are without repeats. */
  lemma SelectAll(f: Frame)
    requires f.WellFormed() && Distinct(f.Index())
    ensures SelectRows(SelectColumns(f, f.columns), f.Index()) == f
  {
    var g := SelectColumns(f, f.columns);
    forall t | 0 <= t < |f.rows| ensures g.rows[t] == f.rows[t] {
      forall j | 0 <= j < |f.columns| ensures g.rows[t].cells[j] == f.rows[t].cells[j] {
        IndexOfDistinct(f.columns, j);
      }
      assert g.rows[t].cells == f.rows[t].cells;
      assert g.rows[t].ts == g.Index()[t] == f.Index()[t] == f.rows[t].ts;
    }
    assert g.rows == f.rows;
    var h := SelectRows(g, f.Index());
    forall k | 0 <= k < |f.rows| ensures h.rows[k] == f.rows[k] {
      IndexOfDistinct(f.Index(), k);
    }
    assert h.rows == f.rows;
  }

  /** On tables that are already sorted and aligned, with a positive initial
      equity and a non-negative lag, the engine is the post-alignment
      pipeline on the tables themselves. */
  lemma BacktestOfAligned(prices: Frame, weights: Frame, cfg: Config)
    requires Aligned(prices, weights) && PositivePrices(prices)
    requires cfg.initialEquity > 0.0 && cfg.weightLag >= 0
    ensures Backtest(prices, weights, cfg) == RunAligned(prices, weights, cfg)
  {
    assert Distinct(prices.Index()) && Distinct(weights.Index());
    assert NonDecreasing(prices.Index()) && NonDecreasing(weights.Index());
    assert NormalizeInputs(prices, weights) == (prices, weights);
    AlignAligned(prices, weights);
  }
}
