/** The table-shaping half of the weights plot: choosing which assets to show
    (the top-ranked columns, or an explicit list that must exist) and checking
    the plot kind. Drawing is not modelled. */
module Visualizer {
  import opened Wrappers
  import opened Frames
  import opened Sorting
  import opened EngineProperties

  /** The two `PlotConfig` fields that shape the table. */
  datatype PlotConfig = PlotConfig(maxAssets: int, topBy: string)

  /** The `ValueError`s of the weights plot. */
  datatype PlotError =
    | UnknownAssets(missing: seq<string>)
    | BadTopBy
    | BadKind

  predicate ValidTopBy(topBy: string) {
    topBy == "avg_abs_weight" || topBy == "avg_weight"
  }

  predicate ValidKind(kind: string) {
    kind == "heatmap" || kind == "area"
  }

  // ---------------------------------------------------------------------
  // Column scores

  function ColumnCells(w: Frame, j: nat): (cs: seq<Cell>)
    requires Width(w.rows, |w.columns|) && j < |w.columns|
    ensures |cs| == |w.rows|
    ensures forall t :: 0 <= t < |w.rows| ==> cs[t] == w.rows[t].cells[j]
  {
    seq(|w.rows|, t requires 0 <= t < |w.rows| => w.rows[t].cells[j])
  }

  /** pandas' `mean` skipping NaN: NaN when no value is present, otherwise
      the value that times the count of present values gives their sum. */
  function Mean(cs: seq<Cell>): (m: Option<real>)
    ensures m.None? <==> CountPresent(cs) == 0
    ensures m.Some? ==> m.value * (CountPresent(cs) as real) == SumPresent(cs)
  {
    if CountPresent(cs) == 0 then None
    else Some(SumPresent(cs) / (CountPresent(cs) as real))
  }

  /** The score of column `j`: mean(|w|) for `avg_abs_weight`, |mean(w)| for
      `avg_weight`; NaN for a column with no value. */
  function Score(w: Frame, topBy: string, j: nat): (s: Option<real>)
    requires Width(w.rows, |w.columns|) && j < |w.columns|
    ensures s.Some? ==> s.value >= 0.0
  {
    var cs := ColumnCells(w, j);
    if topBy == "avg_abs_weight" then
      NonNegativeMean(AbsCells(cs));
      Mean(AbsCells(cs))
    else
      match Mean(cs)
      case None => None
      case Some(m) => Some(Abs(m))
  }

  lemma {:induction false} AbsSumNonNegative(cs: seq<Cell>)
    requires forall j :: 0 <= j < |cs| && cs[j].Some? ==> cs[j].value >= 0.0
    ensures SumPresent(cs) >= 0.0
  {
    if cs != [] {
      AbsSumNonNegative(cs[1..]);
    }
  }

  lemma NonNegativeMean(cs: seq<Cell>)
    requires forall j :: 0 <= j < |cs| && cs[j].Some? ==> cs[j].value >= 0.0
    ensures Mean(cs).Some? ==> Mean(cs).value >= 0.0
  {
    AbsSumNonNegative(cs);
  }

  lemma {:induction false} AbsKeepsCount(cs: seq<Cell>)
    ensures CountPresent(AbsCells(cs)) == CountPresent(cs)
  {
    if cs != [] {
      AbsKeepsCount(cs[1..]);
      AbsCellsTail(cs);
    }
  }

  /** The two scores agree on which columns are NaN, and the `avg_weight`
      score never exceeds the `avg_abs_weight` score. */
  lemma ScoresCompare(w: Frame, j: nat)
    requires Width(w.rows, |w.columns|) && j < |w.columns|
    ensures Score(w, "avg_weight", j).Some? <==> Score(w, "avg_abs_weight", j).Some?
    ensures Score(w, "avg_weight", j).Some? ==>
      Score(w, "avg_weight", j).value <= Score(w, "avg_abs_weight", j).value
  {
    var cs := ColumnCells(w, j);
    AbsKeepsCount(cs);
    if CountPresent(cs) > 0 {
      var n := CountPresent(cs) as real;
      SumWithinAbsSum(cs);
      var s, a := SumPresent(cs), SumPresent(AbsCells(cs));
      assert Score(w, "avg_weight", j) == Some(Abs(s / n));
      assert Score(w, "avg_abs_weight", j) == Some(a / n);
      QuotientWithinBound(s, a, n);
    }
  }

  /** Dividing by the same positive count keeps |s| <= a. */
  lemma QuotientWithinBound(s: real, a: real, n: real)
    requires n > 0.0 && Abs(s) <= a
    ensures Abs(s / n) <= a / n
  {
    assert Abs(s / n) == Abs(s) / n;
  }

  // ---------------------------------------------------------------------
  // Ranking: `score.sort_values(ascending=False)`

  /** `a` ranks at or before `b`: larger scores first, NaN last. */
  predicate RanksBefore(a: Option<real>, b: Option<real>) {
    match a
    case None => b.None?
    case Some(x) => b.None? || b.value <= x
  }

  predicate PairBefore(p: (string, Option<real>), q: (string, Option<real>)) {
    RanksBefore(p.1, q.1)
  }

  lemma PairBeforeIsTotalPreorder()
    ensures TotalPreorder(PairBefore)
  {
  }

  /** Every column paired with its score, in column order. */
  function Scored(w: Frame, topBy: string): (ps: seq<(string, Option<real>)>)
    requires Width(w.rows, |w.columns|)
    ensures |ps| == |w.columns|
    ensures forall j :: 0 <= j < |ps| ==> ps[j] == (w.columns[j], Score(w, topBy, j))
  {
    seq(|w.columns|, j requires 0 <= j < |w.columns| => (w.columns[j], Score(w, topBy, j)))
  }

  /** The scored columns in ranking order (ties keep column order). */
  function Ranking(w: Frame, topBy: string): (r: seq<(string, Option<real>)>)
    requires Width(w.rows, |w.columns|)
    ensures SortedBy(r, PairBefore)
    ensures multiset(r) == multiset(Scored(w, topBy))
    ensures |r| == |w.columns|
  {
    PairBeforeIsTotalPreorder();
    InsertionSort(Scored(w, topBy), PairBefore)
  }

  function Labels(ps: seq<(string, Option<real>)>): (r: seq<string>)
    ensures |r| == |ps| && forall i :: 0 <= i < |ps| ==> r[i] == ps[i].0
  {
    seq(|ps|, i requires 0 <= i < |ps| => ps[i].0)
  }

  /** Every ranked entry is some column with its own score. */
  lemma RankedEntry(w: Frame, topBy: string, i: nat)
    requires w.WellFormed() && i < |w.columns|
    ensures var p := Ranking(w, topBy)[i];
      && p.0 in w.columns && p == (p.0, Score(w, topBy, IndexOf(w.columns, p.0)))
  {
    var ps, r := Scored(w, topBy), Ranking(w, topBy);
    assert r[i] in multiset(ps) by {
      assert r[i] in r;
    }
    var k :| 0 <= k < |ps| && ps[k] == r[i];
    assert IndexOf(w.columns, w.columns[k]) == k;
  }

  lemma ScoredDistinct(w: Frame, topBy: string)
    requires w.WellFormed()
    ensures Distinct(Scored(w, topBy))
  {
    var ps := Scored(w, topBy);
    forall a, b | 0 <= a < b < |ps| ensures ps[a] != ps[b] {
      assert ps[a].0 == w.columns[a] != w.columns[b] == ps[b].0;
    }
  }

  lemma RankingDistinct(w: Frame, topBy: string)
    requires w.WellFormed()
    ensures Distinct(Ranking(w, topBy))
  {
    ScoredDistinct(w, topBy);
    DistinctIffSingleCounts(Scored(w, topBy));
    DistinctIffSingleCounts(Ranking(w, topBy));
  }

  /** The ranking names every column exactly once. */
  lemma RankingLabelsDistinct(w: Frame, topBy: string)
    requires w.WellFormed()
    ensures Distinct(Labels(Ranking(w, topBy)))
  {
    var r := Ranking(w, topBy);
    RankingDistinct(w, topBy);
    forall i, j | 0 <= i < j < |r|
      ensures r[i].0 != r[j].0
    {
      RankedEntry(w, topBy, i);
      RankedEntry(w, topBy, j);
    }
  }

  /** `head(n)`: the first `n` entries, or all but the last `-n` entries for
      a negative `n`. */
  function HeadCount(len: nat, n: int): (k: nat)
    ensures k <= len
    ensures n >= 0 ==> k == if n < len then n else len
    ensures n < 0 ==> k == if len + n > 0 then len + n else 0
  {
    if n >= 0 then (if n < len then n else len)
    else if len + n > 0 then len + n else 0
  }

  // ---------------------------------------------------------------------
  // `_select_assets`

  /** An empty table comes back unchanged; an unknown `top_by` fails;
      otherwise the table keeps the `head(max_assets)` best-ranked columns,
      with every row and cell as it was. */
  function SelectAssets(w: Frame, maxAssets: int, topBy: string): (r: Result<Frame, PlotError>)
    requires w.WellFormed()
    ensures w.Empty() ==> r == Success(w)
    ensures !w.Empty() ==> (r.Failure? <==> !ValidTopBy(topBy))
    ensures r.Failure? ==> r.error == BadTopBy
    ensures r.Success? ==> r.value.Index() == w.Index() && r.value.WellFormed()
    ensures r.Success? ==> forall c :: c in r.value.columns ==> c in w.columns
    ensures r.Success? && !w.Empty() ==>
      && |r.value.columns| == HeadCount(|w.columns|, maxAssets)
      && forall t, j :: 0 <= t < |w.rows| && 0 <= j < |r.value.columns| ==>
           r.value.rows[t].cells[j] == w.rows[t].cells[IndexOf(w.columns, r.value.columns[j])]
  {
    if w.Empty() then Success(w)
    else if !ValidTopBy(topBy) then Failure(BadTopBy)
    else
      var ranked := Ranking(w, topBy);
      var names := Labels(ranked);
      var cols := names[..HeadCount(|ranked|, maxAssets)];
      assert forall c :: c in cols ==> c in w.columns by {
        forall i | 0 <= i < |cols| ensures cols[i] in w.columns {
          RankedEntry(w, topBy, i);
        }
      }
      RankingLabelsDistinct(w, topBy);
      Success(SelectColumns(w, cols))
  }

  /** Every kept column ranks at or before every column that was left out:
      its score is at least as large, and NaN scores go last. */
  lemma KeptOutrankDropped(w: Frame, maxAssets: int, topBy: string, i: nat, k: nat)
    requires w.WellFormed() && !w.Empty() && ValidTopBy(topBy)
    requires i < |SelectAssets(w, maxAssets, topBy).value.columns| && k < |w.columns|
    requires w.columns[k] !in SelectAssets(w, maxAssets, topBy).value.columns
    ensures var kept := SelectAssets(w, maxAssets, topBy).value.columns[i];
      RanksBefore(Score(w, topBy, IndexOf(w.columns, kept)), Score(w, topBy, k))
  {
    var r, ps := Ranking(w, topBy), Scored(w, topBy);
    var h := HeadCount(|r|, maxAssets);
    var cols := SelectAssets(w, maxAssets, topBy).value.columns;
    assert cols == Labels(r)[..h];
    assert ps[k] in multiset(r) by {
      assert ps[k] in ps;
    }
    var m :| 0 <= m < |r| && r[m] == ps[k];
    RankedEntry(w, topBy, i);
    assert PairBefore(r[i], r[m]);
  }

  // ---------------------------------------------------------------------
  // `plot_weights`: the asset list and the kind

  /** `[a for a in assets if a not in columns]`. */
  function Missing(assets: seq<string>, columns: seq<string>): (r: seq<string>)
    ensures |r| <= |assets|
  {
    if assets == [] then []
    else (if assets[0] in columns then [] else [assets[0]]) + Missing(assets[1..], columns)
  }

  /** A name is listed as missing iff it is requested and is not a column. */
  lemma {:induction false} MissingMembers(assets: seq<string>, columns: seq<string>)
    ensures forall a :: a in Missing(assets, columns) <==> a in assets && a !in columns
  {
    if assets != [] {
      MissingMembers(assets[1..], columns);
      assert assets == [assets[0]] + assets[1..];
    }
  }

  /** The missing names of a concatenation are those of each part, in order. */
  lemma {:induction false} MissingAppend(a: seq<string>, b: seq<string>, columns: seq<string>)
    ensures Missing(a + b, columns) == Missing(a, columns) + Missing(b, columns)
  {
    if a == [] {
      assert a + b == b;
    } else {
      var head := if a[0] in columns then [] else [a[0]];
      MissingAppend(a[1..], b, columns);
      assert (a + b)[1..] == a[1..] + b;
      assert Missing(a + b, columns) == head + Missing(a[1..] + b, columns);
      assert Missing(a, columns) == head + Missing(a[1..], columns);
    }
  }

  /** The table `plot_weights` draws, or the error it raises first: unknown
      explicit assets (listed in order), then a failed selection, then a bad
      `kind`. */
  function WeightsToPlot(w: Frame, assets: Option<seq<string>>, cfg: PlotConfig, kind: string): (r: Result<Frame, PlotError>)
    requires w.WellFormed()
    ensures (r.Failure? && r.error.UnknownAssets?) <==> assets.Some? && Missing(assets.value, w.columns) != []
    ensures r.Failure? && r.error.UnknownAssets? ==> r.error.missing == Missing(assets.value, w.columns)
    ensures assets.None? && SelectAssets(w, cfg.maxAssets, cfg.topBy).Failure? ==> r == Failure(BadTopBy)
    ensures r == Failure(BadKind) <==>
      && !ValidKind(kind)
      && (if assets.None? then SelectAssets(w, cfg.maxAssets, cfg.topBy).Success?
          else Missing(assets.value, w.columns) == [])
    ensures r.Success? ==> ValidKind(kind) && r.value.Index() == w.Index()
    ensures r.Success? ==> |r.value.rows| == |w.rows| && Width(r.value.rows, |r.value.columns|)
    ensures r.Success? && assets.Some? ==> forall a :: a in assets.value ==> a in w.columns
    ensures r.Success? && assets.Some? ==>
      && r.value.columns == assets.value
      && forall t, j :: 0 <= t < |w.rows| && 0 <= j < |assets.value| ==>
           r.value.rows[t].cells[j] == w.rows[t].cells[IndexOf(w.columns, assets.value[j])]
    ensures r.Success? && assets.None? ==> r == SelectAssets(w, cfg.maxAssets, cfg.topBy)
  {
    var chosen: Result<Frame, PlotError> :=
      if assets.None? then SelectAssets(w, cfg.maxAssets, cfg.topBy)
      else
        var missing := Missing(assets.value, w.columns);
        assert forall a :: a in missing <==> a in assets.value && a !in w.columns by {
          MissingMembers(assets.value, w.columns);
        }
        if missing != [] then Failure(UnknownAssets(missing))
        else Success(SelectColumns(w, assets.value));
    if chosen.Failure? then chosen
    else if !ValidKind(kind) then Failure(BadKind)
    else chosen
  }
}
