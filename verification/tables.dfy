/** The abstract data frame the pipeline passes around: an ordered header and
    an ordered sequence of rows, each row holding one optional cell per column. */
module Tables {
  import opened Wrappers
  import opened Seqs

  /** A parsed datetime: its calendar year and, opaquely, its offset inside that year. */
  datatype Timestamp = Timestamp(year: int, withinYear: int)

  /** A non-missing cell value: a number (pandas int or float), a string, or a datetime. */
  datatype Value = Num(x: real) | Text(s: string) | Time(stamp: Timestamp)

  /** `None` is pandas' missing value (NaN / NaT / None). */
  type Cell = Option<Value>

  type Row = seq<Cell>

  datatype Table = Table(columns: seq<string>, rows: seq<Row>)

  /** Every row has one cell per column. */
  predicate Rectangular(t: Table) {
    forall i :: 0 <= i < |t.rows| ==> |t.rows[i]| == |t.columns|
  }

  /** A frame as `read_csv` produces it: rectangular with distinct column labels. */
  predicate WellFormed(t: Table) {
    NoDup(t.columns) && Rectangular(t)
  }

  /** `frame[c]` as a sequence of cells, one per row. */
  function Column(t: Table, c: string): (cells: seq<Cell>)
    requires Rectangular(t) && c in t.columns
    ensures |cells| == |t.rows|
  {
    var k := IndexOf(t.columns, c);
    seq(|t.rows|, i requires 0 <= i < |t.rows| => t.rows[i][k])
  }

  /** `frame[c] = cells`: an existing column is overwritten in place, a new
      one is appended after the last column. No other column changes. */
  function SetColumn(t: Table, c: string, cells: seq<Cell>): (r: Table)
    requires Rectangular(t) && |cells| == |t.rows|
    ensures Rectangular(r) && |r.rows| == |t.rows|
    ensures r.columns == if c in t.columns then t.columns else t.columns + [c]
    ensures NoDup(t.columns) ==> NoDup(r.columns)
    ensures Column(r, c) == cells
    ensures forall d :: d in t.columns && d != c ==> Column(r, d) == Column(t, d)
  {
    if c in t.columns then
      var k := IndexOf(t.columns, c);
      var r := Table(t.columns, seq(|t.rows|, i requires 0 <= i < |t.rows| => t.rows[i][k := cells[i]]));
      assert forall d :: d in t.columns && d != c ==> IndexOf(t.columns, d) != k;
      r
    else
      var r := Table(t.columns + [c], seq(|t.rows|, i requires 0 <= i < |t.rows| => t.rows[i] + [cells[i]]));
      assert forall d :: d in t.columns ==> IndexOf(r.columns, d) == IndexOf(t.columns, d) by {
        forall d | d in t.columns
          ensures IndexOf(r.columns, d) == IndexOf(t.columns, d)
        {
          IndexOfPrefix(r.columns, |t.columns|, d);
          assert r.columns[..|t.columns|] == t.columns;
        }
      }
      assert IndexOf(r.columns, c) == |t.columns|;
      r
  }

  /** `frame.rename(columns={from: to})` on a frame whose labels are distinct
      and do not yet include `to`: the header changes, the rows do not. */
  function RenameColumn(t: Table, from: string, to: string): (r: Table)
    requires WellFormed(t) && from in t.columns && to !in t.columns
    ensures WellFormed(r) && r.rows == t.rows
    ensures |r.columns| == |t.columns|
    ensures forall k :: 0 <= k < |t.columns| ==>
      r.columns[k] == if t.columns[k] == from then to else t.columns[k]
    ensures to in r.columns && from !in r.columns
    ensures Column(r, to) == Column(t, from)
    ensures forall d :: d in t.columns && d != from ==> d in r.columns && Column(r, d) == Column(t, d)
  {
    var cols := seq(|t.columns|, k requires 0 <= k < |t.columns| =>
      if t.columns[k] == from then to else t.columns[k]);
    var r := Table(cols, t.rows);
    var ko := IndexOf(t.columns, from);
    IndexOfNoDup(cols, ko);
    forall d | d in t.columns && d != from
      ensures d in r.columns && IndexOf(r.columns, d) == IndexOf(t.columns, d)
    {
      var kd := IndexOf(t.columns, d);
      assert cols[kd] == d;
      IndexOfNoDup(cols, kd);
    }
    r
  }

  /** The values of the non-missing cells, in row order (what `dropna` keeps). */
  function Present(cells: seq<Cell>): (vs: seq<Value>)
    ensures |vs| <= |cells|
    decreases |cells|
  {
    if |cells| == 0 then []
    else
      var p := Present(cells[..|cells| - 1]);
      if cells[|cells| - 1].Some? then p + [cells[|cells| - 1].value] else p
  }

  /** The distinct non-missing values of a column. */
  function PresentSet(cells: seq<Cell>): set<Value> {
    set i | 0 <= i < |cells| && cells[i].Some? :: cells[i].value
  }

  /** The numeric non-missing values of a column, in row order. */
  function Numbers(cells: seq<Cell>): (xs: seq<real>)
    decreases |cells|
  {
    if |cells| == 0 then []
    else
      var p := Numbers(cells[..|cells| - 1]);
      match cells[|cells| - 1]
      case Some(Num(x)) => p + [x]
      case _ => p
  }

  /** Every non-missing cell is a number: the column has a numeric dtype. */
  predicate NumericOrMissing(cells: seq<Cell>) {
    forall i :: 0 <= i < |cells| && cells[i].Some? ==> cells[i].value.Num?
  }

  /** `Present` is exact: the occurrences of `v` among the present values are
      the occurrences of `Some(v)` among the cells. */
  lemma {:induction false} PresentCounts(cells: seq<Cell>, v: Value)
    ensures multiset(Present(cells))[v] == multiset(cells)[Some(v)]
    decreases |cells|
  {
    if |cells| > 0 {
      var n := |cells| - 1;
      PresentCounts(cells[..n], v);
      assert cells == cells[..n] + [cells[n]];
    }
  }

  /** `Present` keeps exactly the values of the non-missing cells. */
  lemma {:induction false} PresentMembers(cells: seq<Cell>)
    ensures forall v :: v in Present(cells) <==> v in PresentSet(cells)
    decreases |cells|
  {
    if |cells| > 0 {
      var n := |cells| - 1;
      PresentMembers(cells[..n]);
      assert forall i :: 0 <= i < n ==> cells[..n][i] == cells[i];
      assert PresentSet(cells) == PresentSet(cells[..n]) + (if cells[n].Some? then {cells[n].value} else {});
    }
  }

  /** A numeric column has a number for each non-missing cell and nothing else. */
  lemma {:induction false} NumbersOfNumeric(cells: seq<Cell>)
    requires NumericOrMissing(cells)
    ensures |Numbers(cells)| == |Present(cells)|
    ensures |Numbers(cells)| == 0 <==> forall i :: 0 <= i < |cells| ==> cells[i].None?
    ensures forall x :: x in Numbers(cells) <==> Num(x) in PresentSet(cells)
    decreases |cells|
  {
    if |cells| > 0 {
      var n := |cells| - 1;
      assert forall i :: 0 <= i < n ==> cells[..n][i] == cells[i];
      NumbersOfNumeric(cells[..n]);
      assert PresentSet(cells) == PresentSet(cells[..n]) + (if cells[n].Some? then {cells[n].value} else {});
    }
  }
}
