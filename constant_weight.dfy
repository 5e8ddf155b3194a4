/** The single-asset constant-weight baseline strategy: a weight table shaped
    like the price table, `weight` in the strategy's column and 0 elsewhere. */
module ConstantWeight {
  import opened Wrappers
  import opened Frames
  import opened Engine
  import opened EngineScenarios

  /** The `ValueError` raised for a symbol the price table lacks; it carries
      the symbol and the price columns, as the message does. */
  datatype StrategyError = SymbolNotFound(symbol: string, columns: seq<string>)

  /** A table over `index` and `columns` holding 0 in every cell. */
  function ZeroFrame(index: seq<int>, columns: seq<string>): (f: Frame)
    ensures f.columns == columns && f.Index() == index && Width(f.rows, |columns|)
    ensures forall t, j :: 0 <= t < |f.rows| && 0 <= j < |columns| ==> f.rows[t].cells[j] == Some(0.0)
  {
    Frame(columns, seq(|index|, t requires 0 <= t < |index| =>
      Row(index[t], seq(|columns|, j requires 0 <= j < |columns| => Some(0.0)))))
  }

  /** Column assignment `f[name] = v`: every column labelled `name` takes `v`
      on every row; nothing else changes. */
  function SetColumn(f: Frame, name: string, v: real): (r: Frame)
    requires Width(f.rows, |f.columns|)
    ensures r.columns == f.columns && r.Index() == f.Index() && Width(r.rows, |r.columns|)
    ensures forall t, j :: 0 <= t < |r.rows| && 0 <= j < |r.columns| ==>
      r.rows[t].cells[j] == if f.columns[j] == name then Some(v) else f.rows[t].cells[j]
  {
    Frame(f.columns, seq(|f.rows|, t requires 0 <= t < |f.rows| =>
      Row(f.rows[t].ts, seq(|f.columns|, j requires 0 <= j < |f.columns| =>
        if f.columns[j] == name then Some(v) else f.rows[t].cells[j]))))
  }

  datatype ConstantWeightStrategy = ConstantWeightStrategy(symbol: string, weight: real) {

    /** `generate_weights`: fails iff the symbol is not a price column;
        otherwise the table has the prices' timestamps and columns, `weight`
        in every cell of the symbol's column and 0 in every other cell. */
    function GenerateWeights(prices: Frame): (r: Result<Frame, StrategyError>)
      ensures r.Failure? <==> symbol !in prices.columns
      ensures r.Failure? ==> r.error == SymbolNotFound(symbol, prices.columns)
      ensures r.Success? ==>
        && r.value.columns == prices.columns && r.value.Index() == prices.Index()
        && Width(r.value.rows, |prices.columns|)
        && (prices.WellFormed() ==> r.value.WellFormed())
        && forall t, j :: 0 <= t < |r.value.rows| && 0 <= j < |prices.columns| ==>
             r.value.rows[t].cells[j] == Some(if prices.columns[j] == symbol then weight else 0.0)
    {
      if symbol !in prices.columns then Failure(SymbolNotFound(symbol, prices.columns))
      else Success(SetColumn(ZeroFrame(prices.Index(), prices.columns), symbol, weight))
    }
  }

  /** The weights depend on the price table's timestamps and columns only,
      never on the prices themselves. */
  lemma WeightsIgnorePrices(s: ConstantWeightStrategy, p: Frame, q: Frame)
    requires p.columns == q.columns && p.Index() == q.Index()
    ensures s.GenerateWeights(p) == s.GenerateWeights(q)
  {
  }

  /** Every row of the weights has gross exposure `|weight|` when the symbol
      labels exactly one column. */
  lemma {:induction false} ConstantGross(cs: seq<Cell>, columns: seq<string>, symbol: string, weight: real)
    requires |cs| == |columns| && Distinct(columns)
    requires forall j :: 0 <= j < |cs| ==> cs[j] == Some(if columns[j] == symbol then weight else 0.0)
    ensures SumPresent(AbsCells(cs)) == if symbol in columns then Abs(weight) else 0.0
  {
    if cs != [] {
      assert AbsCells(cs)[1..] == AbsCells(cs[1..]);
      assert Distinct(columns[1..]);
      ConstantGross(cs[1..], columns[1..], symbol, weight);
      assert symbol in columns <==> columns[0] == symbol || symbol in columns[1..];
      assert columns[0] == symbol ==> symbol !in columns[1..];
    }
  }

  /** The strategy's gross exposure is `|weight|` on every row. */
  lemma StrategyGross(s: ConstantWeightStrategy, prices: Frame)
    requires prices.WellFormed() && s.GenerateWeights(prices).Success?
    ensures forall t :: 0 <= t < |prices.rows| ==> Gross(s.GenerateWeights(prices).value)[t] == Abs(s.weight)
  {
    var w := s.GenerateWeights(prices).value;
    assert |w.rows| == |w.Index()| == |prices.Index()| == |prices.rows|;
    forall t | 0 <= t < |prices.rows|
      ensures Gross(w)[t] == Abs(s.weight)
    {
      ConstantGross(w.rows[t].cells, prices.columns, s.symbol, s.weight);
    }
  }

  /** A constant long of weight 1 in the only asset, run under `fill` with a
      lag of 1, makes the equity follow the price: the baseline the strategy
      exists to provide. */
  lemma ConstantLongTracksPrice(px: Frame, cfg: Config, t: nat)
    requires SingleAssetPrices(px) && |px.rows| >= 2 && StrictlyIncreasing(px.Index())
    requires cfg.nanPolicy == "fill" && cfg.weightLag == 1 && cfg.grossLeverageMax.None?
    requires t < |px.rows|
    ensures var w := ConstantWeightStrategy(px.columns[0], 1.0).GenerateWeights(px);
      && w.Success?
      && RunAligned(px, w.value, cfg).Success?
      && Tracks(RunAligned(px, w.value, cfg).value.equity, Path(px), cfg.initialEquity, t)
  {
    var w := ConstantWeightStrategy(px.columns[0], 1.0).GenerateWeights(px).value;
    assert |w.rows| == |w.Index()| == |px.Index()| == |px.rows|;
    assert Aligned(px, w);
    assert FullyInvested(px, w, cfg);
    FillTracksPrice(px, w, cfg, t);
  }
}
