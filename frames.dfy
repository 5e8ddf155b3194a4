/** Timestamp-by-asset tables: the part of a pandas DataFrame the model uses.
    A table is a column list and a sequence of timestamp-keyed rows; a cell is
    `None` where pandas holds NaN. */
module Frames {
  import opened Wrappers
  import opened Sorting

  type Cell = Option<real>

  datatype Row = Row(ts: int, cells: seq<Cell>)

  datatype Frame = Frame(columns: seq<string>, rows: seq<Row>) {
    /** Rectangular, with distinct column labels. */
    predicate WellFormed() {
      Distinct(columns) && Width(rows, |columns|)
    }

    /** pandas' `DataFrame.empty`: no rows or no columns. */
    predicate Empty() {
      |rows| == 0 || |columns| == 0
    }

    /** The row labels, in row order. */
    function Index(): seq<int> {
      Timestamps(rows)
    }
  }

  /** Every row has `n` cells. */
  predicate Width(rows: seq<Row>, n: nat) {
    forall t :: 0 <= t < |rows| ==> |rows[t].cells| == n
  }

  function Timestamps(rows: seq<Row>): (r: seq<int>)
    ensures |r| == |rows|
    ensures forall i :: 0 <= i < |rows| ==> r[i] == rows[i].ts
  {
    seq(|rows|, i requires 0 <= i < |rows| => rows[i].ts)
  }

  predicate Distinct<T(==)>(s: seq<T>) {
    forall i, j :: 0 <= i < j < |s| ==> s[i] != s[j]
  }

  /** pandas' `is_monotonic_increasing` (ties allowed). */
  predicate NonDecreasing(s: seq<int>) {
    forall i, j :: 0 <= i < j < |s| ==> s[i] <= s[j]
  }

  predicate StrictlyIncreasing(s: seq<int>) {
    forall i, j :: 0 <= i < j < |s| ==> s[i] < s[j]
  }

  /** Position of the first occurrence of `x` in `s`. */
  function IndexOf<T(==)>(s: seq<T>, x: T): (i: nat)
    requires x in s
    ensures i < |s| && s[i] == x
    ensures forall k :: 0 <= k < i ==> s[k] != x
  {
    if s[0] == x then 0 else 1 + IndexOf(s[1..], x)
  }

  /** pandas' `Index.intersection`: the elements of `a` that are also in `b`,
      in the order of `a`. */
  function Intersect<T(==,!new)>(a: seq<T>, b: seq<T>): (r: seq<T>)
    ensures forall x :: x in r <==> x in a && x in b
    ensures |r| <= |a|
    ensures Distinct(a) ==> Distinct(r)
  {
    if a == [] then []
    else
      assert forall x :: x in a[1..] ==> x in a;
      (if a[0] in b then [a[0]] else []) + Intersect(a[1..], b)
  }

  /** In a sequence without repeats, the first occurrence of `s[j]` is `j`. */
  lemma IndexOfDistinct<T>(s: seq<T>, j: nat)
    requires Distinct(s) && j < |s|
    ensures IndexOf(s, s[j]) == j
  {
  }

  /** Each position one further on. */
  function ShiftPositions(ps: seq<int>): (r: seq<int>)
    ensures |r| == |ps| && forall i :: 0 <= i < |ps| ==> r[i] == ps[i] + 1
  {
    seq(|ps|, i requires 0 <= i < |ps| => ps[i] + 1)
  }

  lemma ShiftedIncreasing(ps: seq<int>)
    requires StrictlyIncreasing(ps) && forall i :: 0 <= i < |ps| ==> ps[i] >= 0
    ensures StrictlyIncreasing(ShiftPositions(ps))
    ensures StrictlyIncreasing([0] + ShiftPositions(ps))
  {
    var r := [0] + ShiftPositions(ps);
    forall i, j | 0 <= i < j < |r| ensures r[i] < r[j] {
      if i > 0 {
        assert r[i] == ps[i - 1] + 1 && r[j] == ps[j - 1] + 1;
      } else {
        assert r[j] == ps[j - 1] + 1;
      }
    }
  }

  /** When `a[0]` is in `b` it heads the intersection, followed by the
      intersection of the tail; otherwise the intersection is the tail's. */
  lemma IntersectStep<T(!new)>(a: seq<T>, b: seq<T>)
    requires a != []
    ensures a[0] in b ==> Intersect(a, b) == [a[0]] + Intersect(a[1..], b)
    ensures a[0] !in b ==> Intersect(a, b) == Intersect(a[1..], b)
  {
  }

  /** The intersection is `a` read at increasing positions. */
  lemma {:induction false} IntersectPositions<T(!new)>(a: seq<T>, b: seq<T>) returns (ks: seq<int>)
    ensures |ks| == |Intersect(a, b)| && StrictlyIncreasing(ks)
    ensures forall i :: 0 <= i < |ks| ==> 0 <= ks[i] < |a| && a[ks[i]] == Intersect(a, b)[i]
  {
    if a == [] {
      ks := [];
    } else {
      var r, tail := Intersect(a, b), Intersect(a[1..], b);
      var rest := IntersectPositions(a[1..], b);
      var shifted := ShiftPositions(rest);
      ShiftedIncreasing(rest);
      IntersectStep(a, b);
      if a[0] in b {
        ks := [0] + shifted;
        forall i | 0 <= i < |ks| ensures 0 <= ks[i] < |a| && a[ks[i]] == r[i] {
          if i > 0 {
            assert ks[i] == rest[i - 1] + 1 && r[i] == tail[i - 1];
            assert a[ks[i]] == a[1..][rest[i - 1]];
          }
        }
      } else {
        ks := shifted;
        forall i | 0 <= i < |ks| ensures 0 <= ks[i] < |a| && a[ks[i]] == r[i] {
          assert a[ks[i]] == a[1..][rest[i]];
        }
      }
    }
  }

  lemma IntersectOrderAt<T(!new)>(a: seq<T>, b: seq<T>, i: nat, j: nat)
    requires Distinct(a) && i < j < |Intersect(a, b)|
    ensures IndexOf(a, Intersect(a, b)[i]) < IndexOf(a, Intersect(a, b)[j])
  {
    var ks := IntersectPositions(a, b);
    IndexOfDistinct(a, ks[i]);
    IndexOfDistinct(a, ks[j]);
  }

  /** The intersection lists its elements in the order they have in `a`. */
  lemma IntersectKeepsOrder<T(!new)>(a: seq<T>, b: seq<T>)
    requires Distinct(a)
    ensures var r := Intersect(a, b);
      forall i, j :: 0 <= i < j < |r| ==> IndexOf(a, r[i]) < IndexOf(a, r[j])
  {
    forall i, j | 0 <= i < j < |Intersect(a, b)|
      ensures IndexOf(a, Intersect(a, b)[i]) < IndexOf(a, Intersect(a, b)[j])
    {
      IntersectOrderAt(a, b, i, j);
    }
  }

  /** In a strictly increasing sequence, the elements after the first are
      the elements other than the first. */
  lemma InTail(a: seq<int>, x: int)
    requires StrictlyIncreasing(a) && a != []
    ensures x in a[1..] <==> x in a && x != a[0]
  {
    if x in a[1..] {
      var k :| 0 <= k < |a| - 1 && a[1..][k] == x;
      assert a[k + 1] == x && a[0] < a[k + 1];
    }
    if x in a && x != a[0] {
      var k :| 0 <= k < |a| && a[k] == x;
      assert a[1..][k - 1] == x;
    }
  }

  /** Two non-empty strictly increasing sequences holding each other's first
      element start alike. */
  lemma HeadsAgree(a: seq<int>, b: seq<int>)
    requires StrictlyIncreasing(a) && StrictlyIncreasing(b) && a != [] && b != []
    requires a[0] in b && b[0] in a
    ensures a[0] == b[0]
  {
    var i :| 0 <= i < |b| && b[i] == a[0];
    var k :| 0 <= k < |a| && a[k] == b[0];
    assert b[0] <= b[i] && a[0] <= a[k];
  }

  /** Sequences with the same elements are empty together. */
  lemma EmptyTogether(a: seq<int>, b: seq<int>)
    requires forall x :: x in a <==> x in b
    ensures a == [] <==> b == []
  {
    if |a| > 0 {
      var x := a[0];
      assert x in a;
    }
    if |b| > 0 {
      var x := b[0];
      assert x in b;
    }
  }

  /** Two strictly increasing sequences with the same elements are equal. */
  lemma {:induction false} IncreasingSameElements(a: seq<int>, b: seq<int>)
    requires StrictlyIncreasing(a) && StrictlyIncreasing(b)
    requires forall x :: x in a <==> x in b
    ensures a == b
    decreases |a|
  {
    EmptyTogether(a, b);
    if a != [] {
      var x, y := a[0], b[0];
      assert x in a && y in b;
      HeadsAgree(a, b);
      forall x ensures x in a[1..] <==> x in b[1..] {
        InTail(a, x);
        InTail(b, x);
      }
      IncreasingSameElements(a[1..], b[1..]);
      assert a == [a[0]] + a[1..] && b == [b[0]] + b[1..];
    }
  }

  // ---------------------------------------------------------------------
  // Sorting the row index

  predicate RowLe(a: Row, b: Row) {
    a.ts <= b.ts
  }

  lemma RowLeIsTotalPreorder()
    ensures TotalPreorder(RowLe)
  {
  }

  lemma SortedRowsIncreasing(rows: seq<Row>)
    ensures SortedBy(rows, RowLe) <==> NonDecreasing(Timestamps(rows))
  {
    var ts := Timestamps(rows);
    if SortedBy(rows, RowLe) {
      forall i, j | 0 <= i < j < |ts| ensures ts[i] <= ts[j] {
        assert RowLe(rows[i], rows[j]);
      }
    }
    if NonDecreasing(ts) {
      forall i, j | 0 <= i < j < |rows| ensures RowLe(rows[i], rows[j]) {
        assert ts[i] <= ts[j];
      }
    }
  }

  /** The rows of `f` after `if not index.is_monotonic_increasing:
      sort_index()`: a permutation of the rows with a non-decreasing index,
      and `f` itself when its index is already non-decreasing. */
  function Normalize(f: Frame): (r: Frame)
    ensures r.columns == f.columns
    ensures multiset(r.rows) == multiset(f.rows)
    ensures NonDecreasing(r.Index())
    ensures NonDecreasing(f.Index()) ==> r == f
  {
    if NonDecreasing(f.Index()) then f
    else
      RowLeIsTotalPreorder();
      var sorted := InsertionSort(f.rows, RowLe);
      SortedRowsIncreasing(sorted);
      Frame(f.columns, sorted)
  }

  /** A caller-owned pandas DataFrame, whose index `sort_index(inplace=True)`
      reorders in place. */
  class DataFrame {
    var columns: seq<string>
    var rows: seq<Row>

    function Value(): Frame
      reads this
    {
      Frame(columns, rows)
    }

    constructor (f: Frame)
      ensures Value() == f
    {
      columns := f.columns;
      rows := f.rows;
    }

    /** `sort_index(inplace=True)`: orders the rows by timestamp, keeping
        the same rows and the same columns. */
    method SortIndex()
      modifies this
      ensures columns == old(columns)
      ensures rows == (RowLeIsTotalPreorder(); InsertionSort(old(rows), RowLe))
      ensures multiset(rows) == multiset(old(rows))
      ensures NonDecreasing(Value().Index())
    {
      RowLeIsTotalPreorder();
      rows := InsertionSort(rows, RowLe);
      SortedRowsIncreasing(rows);
    }
  }

  // ---------------------------------------------------------------------
  // Duplicate detection does not depend on row order

  lemma {:induction false} DistinctIffSingleCounts<T>(s: seq<T>)
    ensures Distinct(s) <==> forall x :: multiset(s)[x] <= 1
  {
    if Distinct(s) {
      if s != [] {
        var init := s[..|s| - 1];
        var y := s[|s| - 1];
        assert s == init + [y];
        DistinctIffSingleCounts(init);
        assert Distinct(init);
        forall k | 0 <= k < |init| ensures init[k] != y {
          assert s[k] != s[|s| - 1];
        }
        assert y !in init;
        assert multiset(s) == multiset(init) + multiset{y};
      }
    } else {
      var i, j :| 0 <= i < j < |s| && s[i] == s[j];
      var x := s[i];
      assert s == s[..j] + s[j..];
      assert x in s[..j] && x in s[j..] by {
        assert s[..j][i] == x;
        assert s[j..][0] == x;
      }
      assert multiset(s) == multiset(s[..j]) + multiset(s[j..]);
      assert multiset(s)[x] >= 2;
    }
  }

  lemma TimestampsAppend(a: seq<Row>, b: seq<Row>)
    ensures Timestamps(a + b) == Timestamps(a) + Timestamps(b)
  {
  }

  lemma TimestampsSplit(left: seq<Row>, x: Row, right: seq<Row>)
    ensures multiset(Timestamps(left + [x] + right))
         == multiset(Timestamps(left + right)) + multiset{x.ts}
  {
    TimestampsAppend(left + [x], right);
    TimestampsAppend(left, [x]);
    TimestampsAppend(left, right);
  }

  lemma RemoveFromMultiset(b: seq<Row>, k: nat)
    requires k < |b|
    ensures multiset(b) == multiset(b[..k] + b[k + 1..]) + multiset{b[k]}
    ensures b == b[..k] + [b[k]] + b[k + 1..]
  {
    assert b == b[..k] + [b[k]] + b[k + 1..];
  }

  lemma TimestampsCons(x: Row, tail: seq<Row>)
    ensures multiset(Timestamps([x] + tail)) == multiset{x.ts} + multiset(Timestamps(tail))
  {
    assert Timestamps([x] + tail) == [x.ts] + Timestamps(tail);
  }

  lemma TimestampsRemove(b: seq<Row>, k: nat)
    requires k < |b|
    ensures multiset(Timestamps(b)) == multiset{b[k].ts} + multiset(Timestamps(b[..k] + b[k + 1..]))
  {
    TimestampsSplit(b[..k], b[k], b[k + 1..]);
    assert b == b[..k] + [b[k]] + b[k + 1..];
  }

  /** Taking the first row of `a` out of a permutation `b` of it leaves a
      permutation of the rest of `a`. */
  lemma RemoveMatchingRow(a: seq<Row>, b: seq<Row>, k: nat)
    requires multiset(a) == multiset(b) && a != [] && k < |b| && b[k] == a[0]
    ensures multiset(a[1..]) == multiset(b[..k] + b[k + 1..])
  {
    RemoveFromMultiset(b, k);
    assert a == [a[0]] + a[1..];
    assert multiset(a[1..]) == multiset(a) - multiset{a[0]};
    assert multiset(b[..k] + b[k + 1..]) == multiset(b) - multiset{a[0]};
  }

  /** Permuting rows permutes their timestamps. */
  lemma {:induction false} TimestampsOfPermutation(a: seq<Row>, b: seq<Row>)
    requires multiset(a) == multiset(b)
    ensures multiset(Timestamps(a)) == multiset(Timestamps(b))
    decreases |a|
  {
    if a == [] {
      assert |multiset(b)| == 0;
      assert b == [];
    } else {
      var x := a[0];
      assert x in a;
      assert x in multiset(b);
      var k := IndexOf(b, x);
      var rest := b[..k] + b[k + 1..];
      RemoveMatchingRow(a, b, k);
      TimestampsOfPermutation(a[1..], rest);
      assert a == [x] + a[1..];
      TimestampsCons(x, a[1..]);
      TimestampsRemove(b, k);
    }
  }

  /** Sorting the index before the duplicate check cannot hide or create a
      duplicate timestamp. */
  lemma NormalizeKeepsDuplicates(f: Frame)
    ensures Distinct(Normalize(f).Index()) <==> Distinct(f.Index())
  {
    TimestampsOfPermutation(Normalize(f).rows, f.rows);
    DistinctIffSingleCounts(Normalize(f).Index());
    DistinctIffSingleCounts(f.Index());
  }

  lemma SortedTail(a: seq<Row>)
    requires a != [] && NonDecreasing(Timestamps(a))
    ensures NonDecreasing(Timestamps(a[1..]))
  {
    assert Timestamps(a[1..]) == Timestamps(a)[1..];
  }

  lemma DistinctTail(a: seq<Row>)
    requires a != [] && Distinct(Timestamps(a))
    ensures Distinct(Timestamps(a[1..]))
  {
    assert Timestamps(a[1..]) == Timestamps(a)[1..];
  }

  /** The first rows of two sorted arrangements of the same rows agree when
      the timestamps are distinct. */
  lemma SortedSameHead(a: seq<Row>, b: seq<Row>)
    requires multiset(a) == multiset(b) && a != [] && b != []
    requires NonDecreasing(Timestamps(a)) && NonDecreasing(Timestamps(b))
    requires Distinct(Timestamps(a))
    ensures a[0] == b[0]
  {
    var x, y := a[0], b[0];
    assert x in a && y in b;
    assert x in multiset(b) && y in multiset(a);
    var k :| 0 <= k < |b| && b[k] == x;
    var m :| 0 <= m < |a| && a[m] == y;
    var ta, tb := Timestamps(a), Timestamps(b);
    assert ta[0] <= ta[m] == tb[0] <= tb[k] == ta[0];
    assert m == 0;
  }

  lemma SameHeadTails(a: seq<Row>, b: seq<Row>)
    requires multiset(a) == multiset(b) && a != [] && b != [] && a[0] == b[0]
    ensures multiset(a[1..]) == multiset(b[1..])
  {
    RemoveMatchingRow(a, b, 0);
    assert b[..0] + b[1..] == b[1..];
  }

  lemma SameHeadSameTail(a: seq<Row>, b: seq<Row>)
    requires a != [] && b != [] && a[0] == b[0] && a[1..] == b[1..]
    ensures a == b
  {
    assert a == [a[0]] + a[1..] && b == [b[0]] + b[1..];
  }

  /** Two sorted arrangements of the same rows with distinct timestamps are
      the same sequence: without ties there is only one sorted order. */
  lemma {:induction false} SortedDistinctUnique(a: seq<Row>, b: seq<Row>)
    requires multiset(a) == multiset(b)
    requires NonDecreasing(Timestamps(a)) && NonDecreasing(Timestamps(b))
    requires Distinct(Timestamps(a))
    ensures a == b
    decreases |a|
  {
    assert |a| == |multiset(a)| == |multiset(b)| == |b|;
    if a != [] {
      SortedSameHead(a, b);
      SameHeadTails(a, b);
      SortedTail(a);
      SortedTail(b);
      DistinctTail(a);
      SortedDistinctUnique(a[1..], b[1..]);
      SameHeadSameTail(a, b);
    }
  }

  /** For a table with distinct timestamps, every non-decreasing arrangement
      of its rows is the one `Normalize` picks, so tie order plays no part. */
  lemma NormalizeUniqueWhenDistinct(f: Frame, rows: seq<Row>)
    requires Distinct(f.Index())
    requires multiset(rows) == multiset(f.rows) && NonDecreasing(Timestamps(rows))
    ensures rows == Normalize(f).rows
  {
    NormalizeKeepsDuplicates(f);
    SortedDistinctUnique(Normalize(f).rows, rows);
  }

  // ---------------------------------------------------------------------
  // Selecting by label

  /** The cells of `cs` (labelled by `from`) for the labels `cols`, in that order. */
  function PickCells(cs: seq<Cell>, from: seq<string>, cols: seq<string>): (r: seq<Cell>)
    requires |cs| == |from|
    requires forall c :: c in cols ==> c in from
    ensures |r| == |cols|
    ensures forall j :: 0 <= j < |cols| ==> r[j] == cs[IndexOf(from, cols[j])]
  {
    seq(|cols|, j requires 0 <= j < |cols| => cs[IndexOf(from, cols[j])])
  }

  /** pandas' `df.loc[:, cols]`: the listed columns, in the listed order. */
  function SelectColumns(f: Frame, cols: seq<string>): (r: Frame)
    requires f.WellFormed()
    requires forall c :: c in cols ==> c in f.columns
    ensures r.columns == cols
    ensures |r.rows| == |f.rows| && r.Index() == f.Index()
    ensures Width(r.rows, |cols|)
    ensures forall t, j :: 0 <= t < |f.rows| && 0 <= j < |cols| ==>
      r.rows[t].cells[j] == f.rows[t].cells[IndexOf(f.columns, cols[j])]
  {
    var rows := seq(|f.rows|, t requires 0 <= t < |f.rows| =>
      Row(f.rows[t].ts, PickCells(f.rows[t].cells, f.columns, cols)));
    Frame(cols, rows)
  }

  /** pandas' `df.loc[idx]`: the row labelled by each timestamp of `idx`, in
      the order of `idx`. */
  function SelectRows(f: Frame, idx: seq<int>): (r: Frame)
    requires forall t :: t in idx ==> t in f.Index()
    ensures r.columns == f.columns
    ensures r.Index() == idx
    ensures forall k :: 0 <= k < |idx| ==> r.rows[k] == f.rows[IndexOf(f.Index(), idx[k])]
    ensures Width(f.rows, |f.columns|) ==> Width(r.rows, |f.columns|)
    ensures PositivePrices(f) ==> PositivePrices(r)
  {
    Frame(f.columns, seq(|idx|, k requires 0 <= k < |idx| => f.rows[IndexOf(f.Index(), idx[k])]))
  }

  // ---------------------------------------------------------------------
  // Row reductions with pandas' NaN-skipping semantics

  function Abs(x: real): real {
    if x < 0.0 then -x else x
  }

  function Nones(n: nat): (r: seq<Cell>)
    ensures |r| == n
    ensures forall j :: 0 <= j < n ==> r[j] == None
  {
    seq(n, _ => None)
  }

  predicate AllPresent(cs: seq<Cell>) {
    forall j :: 0 <= j < |cs| ==> cs[j].Some?
  }

  /** pandas' `sum` with `skipna=True`: missing cells are skipped and a row
      with no present cell sums to 0. */
  function SumPresent(cs: seq<Cell>): real {
    if cs == [] then 0.0
    else cs[0].GetOr(0.0) + SumPresent(cs[1..])
  }

  /** Number of present cells, the divisor of pandas' `mean`. */
  function CountPresent(cs: seq<Cell>): (n: nat)
    ensures n <= |cs|
  {
    if cs == [] then 0
    else (if cs[0].Some? then 1 else 0) + CountPresent(cs[1..])
  }

  /** Elementwise `abs`; a missing cell stays missing. */
  function AbsCells(cs: seq<Cell>): (r: seq<Cell>)
    ensures |r| == |cs|
    ensures forall j :: 0 <= j < |cs| ==> r[j].Some? == cs[j].Some?
    ensures forall j :: 0 <= j < |cs| && cs[j].Some? ==> r[j].value == Abs(cs[j].value)
  {
    seq(|cs|, j requires 0 <= j < |cs| =>
      match cs[j]
      case Some(v) => Some(Abs(v))
      case None => None)
  }

  /** Every present cell is a positive number. */
  predicate PositiveCells(cs: seq<Cell>) {
    forall j :: 0 <= j < |cs| && cs[j].Some? ==> cs[j].value > 0.0
  }

  predicate PositivePrices(f: Frame) {
    forall t :: 0 <= t < |f.rows| ==> PositiveCells(f.rows[t].cells)
  }
}
