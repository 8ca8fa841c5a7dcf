/** `clean_data`: header stripping, the artist alias, the derived `year` and
    `duration_min` columns, and keep-first deduplication. */
module Clean {
  import opened Wrappers
  import opened Seqs
  import opened Text
  import opened Tables
  import opened Duplicates

  /** `pd.to_datetime(value, errors="coerce")` on one value: `None` when the
      value cannot be read as a date. Supplied by the caller. */
  type DateParser = Value -> Option<Timestamp>

  function StripAll(cols: seq<string>): (r: seq<string>)
    ensures |r| == |cols|
  {
    seq(|cols|, k requires 0 <= k < |cols| => Strip(cols[k]))
  }

  /** Step 1: every header name is replaced by its stripped form, in place. */
  function StripColumns(t: Table): (r: Table)
    ensures r.rows == t.rows && |r.columns| == |t.columns|
    ensures forall k :: 0 <= k < |t.columns| ==> r.columns[k] == Strip(t.columns[k])
    ensures Rectangular(t) ==> Rectangular(r)
  {
    Table(StripAll(t.columns), t.rows)
  }

  /** Step 2: `artists` becomes `artist_name` only when `artist_name` is not
      already a column; when both exist neither is touched. */
  function UnifyArtist(t: Table): (r: Table)
    requires WellFormed(t)
    ensures WellFormed(r) && r.rows == t.rows && |r.columns| == |t.columns|
    ensures "artist_name" in r.columns <==> "artist_name" in t.columns || "artists" in t.columns
    ensures "artists" in r.columns <==> "artists" in t.columns && "artist_name" in t.columns
    ensures "artists" !in t.columns || "artist_name" in t.columns ==> r == t
    ensures "artists" in t.columns && "artist_name" !in t.columns ==>
      && Column(r, "artist_name") == Column(t, "artists")
      && forall d :: d in t.columns && d != "artists" ==> d in r.columns && Column(r, d) == Column(t, d)
    ensures forall k :: 0 <= k < |t.columns| ==>
      r.columns[k] == if t.columns[k] == "artists" && "artist_name" !in t.columns then "artist_name" else t.columns[k]
  {
    if "artists" in t.columns && "artist_name" !in t.columns then RenameColumn(t, "artists", "artist_name")
    else t
  }

  /** One cell of `pd.to_datetime(frame["release_date"], errors="coerce")`. */
  function ParseDate(parse: DateParser, c: Cell): (d: Cell)
    ensures d.Some? <==> c.Some? && parse(c.value).Some?
    ensures d.Some? ==> d == Some(Time(parse(c.value).value))
  {
    match c
    case None => None
    case Some(v) =>
      match parse(v)
      case None => None
      case Some(ts) => Some(Time(ts))
  }

  /** One cell of `.dt.year`: the calendar year of a datetime, missing for NaT. */
  function YearOf(d: Cell): (y: Cell)
    ensures y.Some? <==> d.Some? && d.value.Time?
    ensures y.Some? ==> y == Some(Num(d.value.stamp.year as real))
  {
    match d
    case Some(Time(ts)) => Some(Num(ts.year as real))
    case _ => None
  }

  /** Step 3: when `release_date` is a column it is replaced by its parsed
      datetimes and `year` is set to their calendar years (overwritten in
      place if `year` exists, appended otherwise). Without `release_date`
      the frame is unchanged. */
  function DeriveYear(t: Table, parse: DateParser): (r: Table)
    requires WellFormed(t)
    ensures WellFormed(r) && |r.rows| == |t.rows|
    ensures "release_date" !in t.columns ==> r == t
    ensures "release_date" in t.columns ==>
      && r.columns == (if "year" in t.columns then t.columns else t.columns + ["year"])
      && (forall i :: 0 <= i < |t.rows| ==>
            Column(r, "release_date")[i] == ParseDate(parse, Column(t, "release_date")[i]))
      && (forall i :: 0 <= i < |t.rows| ==>
            Column(r, "year")[i] == YearOf(Column(r, "release_date")[i]))
    ensures forall d :: d in t.columns && d != "release_date" && d != "year" ==> Column(r, d) == Column(t, d)
  {
    if "release_date" in t.columns then
      var src := Column(t, "release_date");
      var dates := seq(|t.rows|, i requires 0 <= i < |t.rows| => ParseDate(parse, src[i]));
      var t1 := SetColumn(t, "release_date", dates);
      var years := seq(|t.rows|, i requires 0 <= i < |t.rows| => YearOf(dates[i]));
      SetColumn(t1, "year", years)
    else t
  }

  /** `duration_ms / 60000.0` on one cell; a missing cell stays missing. */
  function ToMinutes(c: Cell): (m: Cell)
    ensures m.Some? <==> c.Some? && c.value.Num?
    ensures m.Some? ==> m.value.Num? && m.value.x * 60000.0 == c.value.x
  {
    match c
    case Some(Num(ms)) => Some(Num(ms / 60000.0))
    case _ => None
  }

  /** Step 4: when `duration_ms` is a column, `duration_min` is set to it
      divided by 60000, row by row. (The division raises on a non-numeric
      column; `CleanDemands` rules that out.) */
  function DeriveDuration(t: Table): (r: Table)
    requires WellFormed(t)
    ensures WellFormed(r) && |r.rows| == |t.rows|
    ensures "duration_ms" !in t.columns ==> r == t
    ensures "duration_ms" in t.columns ==>
      && r.columns == (if "duration_min" in t.columns then t.columns else t.columns + ["duration_min"])
      && forall i :: 0 <= i < |t.rows| ==> Column(r, "duration_min")[i] == ToMinutes(Column(t, "duration_ms")[i])
    ensures forall d :: d in t.columns && d != "duration_min" ==> Column(r, d) == Column(t, d)
  {
    if "duration_ms" in t.columns then
      var src := Column(t, "duration_ms");
      SetColumn(t, "duration_min", seq(|t.rows|, i requires 0 <= i < |t.rows| => ToMinutes(src[i])))
    else t
  }

  const DEDUP_COLUMNS: seq<string> := ["track_name", "artist_name", "year"]

  lemma DedupColumnsDistinct()
    ensures NoDup(DEDUP_COLUMNS)
  {
    var c := DEDUP_COLUMNS;
    assert |c[0]| == 10 && |c[1]| == 11 && |c[2]| == 4;
  }

  /** The deduplication subset: the members of `DEDUP_COLUMNS` that are
      columns, each once, in that order. */
  function DedupSubset(cols: seq<string>): (s: seq<string>)
    ensures forall k :: 0 <= k < |s| ==> s[k] in DEDUP_COLUMNS && s[k] in cols
    ensures forall c :: c in DEDUP_COLUMNS && c in cols ==> c in s
    ensures NoDup(s)
    ensures forall i, j :: 0 <= i < j < |s| ==> IndexOf(DEDUP_COLUMNS, s[i]) < IndexOf(DEDUP_COLUMNS, s[j])
  {
    DedupColumnsDistinct();
    KeepSelection(DEDUP_COLUMNS, cols);
    Keep(DEDUP_COLUMNS, cols)
  }

  /** The cells of a row at the subset columns. */
  function SubsetKey(cols: seq<string>): Row -> seq<Cell> {
    var subset := DedupSubset(cols);
    var pos := seq(|subset|, j requires 0 <= j < |subset| => IndexOf(cols, subset[j]));
    (row: Row) => seq(|pos|, j requires 0 <= j < |pos| => if pos[j] < |row| then row[pos[j]] else None)
  }

  /** Step 5: with an empty subset nothing happens; otherwise only the first
      row of each combination of subset values is kept. */
  function DropDuplicates(t: Table): (r: Table)
    requires WellFormed(t)
    ensures WellFormed(r) && r.columns == t.columns && |r.rows| <= |t.rows|
    ensures |DedupSubset(t.columns)| == 0 ==> r == t
    ensures |DedupSubset(t.columns)| > 0 ==> r.rows == KeepFirst(t.rows, SubsetKey(t.columns))
  {
    var subset := DedupSubset(t.columns);
    if |subset| == 0 then t
    else
      var key := SubsetKey(t.columns);
      var rows := KeepFirst(t.rows, key);
      KeepFirstRowsFromInput(t.rows, key);
      Table(t.columns, rows)
  }

  /** What `clean_data` needs of its input for none of its steps to raise:
      distinct labels after stripping, and a numeric `duration_ms`. */
  predicate CleanDemands(t: Table) {
    && WellFormed(t)
    && NoDup(StripAll(t.columns))
    && var s := StripColumns(t);
       "duration_ms" in s.columns ==> NumericOrMissing(Column(s, "duration_ms"))
  }

  /** The frame after the steps before deduplication. */
  function Derived(t: Table, parse: DateParser): (u: Table)
    requires CleanDemands(t)
    ensures WellFormed(u) && |u.rows| == |t.rows|
  {
    var s := StripColumns(t);
    var a := UnifyArtist(s);
    DeriveDuration(DeriveYear(a, parse))
  }

  /** `clean_data`: the five steps in order. Rows never grow, and the header
      starts with the stripped original names in their original order
      (with `artists` renamed when the alias applies); derived columns that
      were not already there come after them. */
  function CleanData(t: Table, parse: DateParser): (r: Table)
    requires CleanDemands(t)
    ensures WellFormed(r) && |r.rows| <= |t.rows|
  {
    DropDuplicates(Derived(t, parse))
  }

  /** Rows `i` and `j` of `t` differ in at least one column of `subset`. */
  predicate DifferOn(t: Table, subset: seq<string>, i: nat, j: nat)
    requires Rectangular(t) && i < |t.rows| && j < |t.rows|
    requires forall k :: 0 <= k < |subset| ==> subset[k] in t.columns
  {
    exists k :: 0 <= k < |subset| && Column(t, subset[k])[i] != Column(t, subset[k])[j]
  }

  /** After deduplication on a non-empty subset, no two rows agree on every
      subset column. */
  lemma DropDuplicatesLeavesNoTwins(t: Table)
    requires WellFormed(t) && |DedupSubset(t.columns)| > 0
    ensures var r := DropDuplicates(t);
      forall i, j :: 0 <= i < j < |r.rows| ==> DifferOn(r, DedupSubset(t.columns), i, j)
  {
    var r := DropDuplicates(t);
    var subset := DedupSubset(t.columns);
    var key := SubsetKey(t.columns);
    assert UniqueKeys(r.rows, key);
    forall i, j | 0 <= i < j < |r.rows|
      ensures DifferOn(r, subset, i, j)
    {
      var a := key(r.rows[i]);
      var b := key(r.rows[j]);
      assert a != b;
      var k :| 0 <= k < |subset| && a[k] != b[k];
      assert Column(r, subset[k])[i] == a[k];
      assert Column(r, subset[k])[j] == b[k];
    }
  }

  /** Deduplication keeps exactly the first row of each subset-value
      combination, in the original row order. */
  lemma DropDuplicatesKeepsFirst(t: Table)
    requires WellFormed(t) && |DedupSubset(t.columns)| > 0
    ensures DropDuplicates(t).rows == Filter(t.rows, FirstOccurrenceMask(t.rows, SubsetKey(t.columns)))
  {
    KeepFirstIsMaskSelection(t.rows, SubsetKey(t.columns));
  }

  /** Deduplicating a deduplicated frame changes nothing. */
  lemma DropDuplicatesIdempotent(t: Table)
    requires WellFormed(t)
    ensures DropDuplicates(DropDuplicates(t)) == DropDuplicates(t)
  {
    if |DedupSubset(t.columns)| > 0 {
      KeepFirstIdempotent(t.rows, SubsetKey(t.columns));
    }
  }

  /** The header after cleaning starts with the stripped original names in
      their original positions, `artists` renamed when the alias applies;
      any derived column that was not already present comes after them. */
  lemma CleanHeader(t: Table, parse: DateParser)
    requires CleanDemands(t)
    ensures var r := CleanData(t, parse); var s := StripAll(t.columns);
      && |s| <= |r.columns| <= |s| + 2
      && forall k :: 0 <= k < |s| ==>
           r.columns[k] == if s[k] == "artists" && "artist_name" !in s then "artist_name" else s[k]
    ensures var r := CleanData(t, parse); var u := UnifyArtist(StripColumns(t)).columns;
      var y := if "release_date" in u && "year" !in u then u + ["year"] else u;
      r.columns == if "duration_ms" in y && "duration_min" !in y then y + ["duration_min"] else y
  {
    var a := UnifyArtist(StripColumns(t));
    var y := DeriveYear(a, parse);
    var d := DeriveDuration(y);
    DeriveYearExtends(a, parse);
    DeriveDurationExtends(y);
    HeaderGrows(a, y);
    HeaderGrows(y, d);
    assert CleanData(t, parse).columns == d.columns;
  }

  lemma DeriveYearExtends(a: Table, parse: DateParser)
    requires WellFormed(a)
    ensures Extends(a.columns, DeriveYear(a, parse).columns)
  {
  }

  lemma DeriveDurationExtends(a: Table)
    requires WellFormed(a)
    ensures Extends(a.columns, DeriveDuration(a).columns)
  {
  }

  /** The header of `b` is that of `a`, possibly followed by one more name. */
  predicate Extends(a: seq<string>, b: seq<string>) {
    |a| <= |b| <= |a| + 1 && b[..|a|] == a
  }

  lemma HeaderGrows(a: Table, b: Table)
    requires Extends(a.columns, b.columns)
    ensures forall k :: 0 <= k < |a.columns| ==> b.columns[k] == a.columns[k]
  {
    assert forall k :: 0 <= k < |a.columns| ==> b.columns[..|a.columns|][k] == b.columns[k];
  }

  // Idempotence: a cleaned frame is a fixed point of `clean_data`, provided
  // the date parser returns a datetime unchanged (as `pd.to_datetime` does).

  ghost predicate ParserKeepsTimestamps(parse: DateParser) {
    forall ts :: parse(Time(ts)) == Some(ts)
  }

  /** No header name has whitespace at either end. */
  predicate Trimmed(cols: seq<string>) {
    forall k :: 0 <= k < |cols| ==> NoEdgeSpace(cols[k])
  }

  /** The alias rule can no longer fire. */
  predicate AliasSettled(cols: seq<string>) {
    "artists" in cols ==> "artist_name" in cols
  }

  predicate DateCell(c: Cell) {
    c.None? || c.value.Time?
  }

  /** `release_date` holds datetimes and `year` holds their years. */
  predicate DatesSettled(t: Table)
    requires Rectangular(t)
  {
    "release_date" in t.columns ==>
      && "year" in t.columns
      && forall i :: 0 <= i < |t.rows| ==>
           DateCell(Column(t, "release_date")[i]) && Column(t, "year")[i] == YearOf(Column(t, "release_date")[i])
  }

  /** `duration_min` holds `duration_ms` in minutes, and `duration_ms` is numeric. */
  predicate DurationSettled(t: Table)
    requires Rectangular(t)
  {
    "duration_ms" in t.columns ==>
      && "duration_min" in t.columns
      && NumericOrMissing(Column(t, "duration_ms"))
      && forall i :: 0 <= i < |t.rows| ==> Column(t, "duration_min")[i] == ToMinutes(Column(t, "duration_ms")[i])
  }

  predicate Settled(t: Table) {
    && WellFormed(t) && Trimmed(t.columns) && AliasSettled(t.columns)
    && DatesSettled(t) && DurationSettled(t)
  }

  lemma StripAllTrimmed(cols: seq<string>)
    ensures Trimmed(StripAll(cols))
  {
  }

  lemma StripColumnsOfTrimmed(t: Table)
    requires Trimmed(t.columns)
    ensures StripColumns(t) == t
  {
    forall k | 0 <= k < |t.columns|
      ensures Strip(t.columns[k]) == t.columns[k]
    {
      StripOfTrimmed(t.columns[k]);
    }
    assert StripColumns(t).columns == t.columns;
  }

  lemma UnifyArtistSettles(t: Table)
    requires WellFormed(t) && Trimmed(t.columns)
    ensures Trimmed(UnifyArtist(t).columns) && AliasSettled(UnifyArtist(t).columns)
  {
  }

  lemma DeriveYearSettles(a: Table, parse: DateParser)
    requires WellFormed(a) && Trimmed(a.columns) && AliasSettled(a.columns)
    ensures var y := DeriveYear(a, parse);
      Trimmed(y.columns) && AliasSettled(y.columns) && DatesSettled(y)
  {
    DeriveYearHeader(a, parse);
    DeriveYearDates(a, parse);
  }

  lemma DeriveYearHeader(a: Table, parse: DateParser)
    requires WellFormed(a) && Trimmed(a.columns) && AliasSettled(a.columns)
    ensures var y := DeriveYear(a, parse); Trimmed(y.columns) && AliasSettled(y.columns)
  {
    var y := DeriveYear(a, parse);
    assert NoEdgeSpace("year");
    assert y.columns == a.columns || y.columns == a.columns + ["year"];
  }

  lemma DeriveYearDates(a: Table, parse: DateParser)
    requires WellFormed(a)
    ensures DatesSettled(DeriveYear(a, parse))
  {
  }

  lemma DeriveDurationSettles(y: Table)
    requires WellFormed(y) && Trimmed(y.columns) && AliasSettled(y.columns) && DatesSettled(y)
    requires "duration_ms" in y.columns ==> NumericOrMissing(Column(y, "duration_ms"))
    ensures Settled(DeriveDuration(y))
  {
    var d := DeriveDuration(y);
    assert NoEdgeSpace("duration_min");
    assert d.columns == y.columns || d.columns == y.columns + ["duration_min"];
    assert Trimmed(d.columns) && AliasSettled(d.columns);
    DeriveDurationKeepsDates(y);
  }

  lemma DeriveDurationKeepsDates(y: Table)
    requires WellFormed(y) && DatesSettled(y)
    ensures DatesSettled(DeriveDuration(y))
  {
    var d := DeriveDuration(y);
    if "release_date" in d.columns {
      assert Column(d, "release_date") == Column(y, "release_date");
      assert Column(d, "year") == Column(y, "year");
    }
  }

  lemma UnifyKeepsOther(t: Table, c: string)
    requires WellFormed(t) && c != "artists" && c != "artist_name"
    ensures c in UnifyArtist(t).columns <==> c in t.columns
    ensures c in t.columns ==> Column(UnifyArtist(t), c) == Column(t, c)
  {
    var r := UnifyArtist(t);
    if c in r.columns {
      var k := IndexOf(r.columns, c);
      assert t.columns[k] == c;
    }
  }

  lemma DeriveYearKeepsOther(t: Table, parse: DateParser, c: string)
    requires WellFormed(t) && c != "release_date" && c != "year"
    ensures c in DeriveYear(t, parse).columns <==> c in t.columns
    ensures c in t.columns ==> Column(DeriveYear(t, parse), c) == Column(t, c)
  {
  }

  /** The frame before deduplication is settled. */
  lemma DerivedSettled(t: Table, parse: DateParser)
    requires CleanDemands(t)
    ensures Settled(Derived(t, parse))
  {
    var s := StripColumns(t);
    StripAllTrimmed(t.columns);
    var a := UnifyArtist(s);
    UnifyArtistSettles(s);
    var y := DeriveYear(a, parse);
    DeriveYearSettles(a, parse);
    UnifyKeepsOther(s, "duration_ms");
    DeriveYearKeepsOther(a, parse, "duration_ms");
    DeriveDurationSettles(y);
  }

  /** Cells of equal rows agree in every column. */
  lemma SameRowSameCells(r: Table, u: Table, i: nat, j: nat)
    requires Rectangular(r) && Rectangular(u) && r.columns == u.columns
    requires i < |r.rows| && j < |u.rows| && r.rows[i] == u.rows[j]
    ensures forall c :: c in r.columns ==> Column(r, c)[i] == Column(u, c)[j]
  {
  }

  /** Dropping rows keeps a frame settled. */
  lemma DropDuplicatesKeepsSettled(u: Table)
    requires Settled(u)
    ensures Settled(DropDuplicates(u))
  {
    var r := DropDuplicates(u);
    if |DedupSubset(u.columns)| > 0 {
      KeepFirstRowsFromInput(u.rows, SubsetKey(u.columns));
      forall i | 0 <= i < |r.rows|
        ensures exists j :: 0 <= j < |u.rows| && r.rows[i] == u.rows[j]
      {
        assert r.rows[i] in u.rows;
      }
      if "release_date" in r.columns {
        forall i | 0 <= i < |r.rows|
          ensures DateCell(Column(r, "release_date")[i]) && Column(r, "year")[i] == YearOf(Column(r, "release_date")[i])
        {
          var j :| 0 <= j < |u.rows| && r.rows[i] == u.rows[j];
          SameRowSameCells(r, u, i, j);
        }
      }
      if "duration_ms" in r.columns {
        forall i | 0 <= i < |r.rows|
          ensures Column(r, "duration_min")[i] == ToMinutes(Column(r, "duration_ms")[i])
          ensures Column(r, "duration_ms")[i].Some? ==> Column(r, "duration_ms")[i].value.Num?
        {
          var j :| 0 <= j < |u.rows| && r.rows[i] == u.rows[j];
          SameRowSameCells(r, u, i, j);
        }
      }
    }
  }

  /** Overwriting a column with its own cells changes nothing. */
  lemma SetColumnSame(t: Table, c: string)
    requires Rectangular(t) && c in t.columns
    ensures SetColumn(t, c, Column(t, c)) == t
  {
    var k := IndexOf(t.columns, c);
    var r := SetColumn(t, c, Column(t, c));
    forall i | 0 <= i < |t.rows|
      ensures r.rows[i] == t.rows[i]
    {
      assert t.rows[i][k := t.rows[i][k]] == t.rows[i];
    }
  }

  lemma DeriveYearOfSettled(c: Table, parse: DateParser)
    requires Settled(c) && ParserKeepsTimestamps(parse)
    ensures DeriveYear(c, parse) == c
  {
    if "release_date" in c.columns {
      var src := Column(c, "release_date");
      var dates := seq(|c.rows|, i requires 0 <= i < |c.rows| => ParseDate(parse, src[i]));
      assert dates == src;
      SetColumnSame(c, "release_date");
      var years := seq(|c.rows|, i requires 0 <= i < |c.rows| => YearOf(dates[i]));
      assert years == Column(c, "year");
      SetColumnSame(c, "year");
    }
  }

  lemma DeriveDurationOfSettled(c: Table)
    requires Settled(c)
    ensures DeriveDuration(c) == c
  {
    if "duration_ms" in c.columns {
      var src := Column(c, "duration_ms");
      assert seq(|c.rows|, i requires 0 <= i < |c.rows| => ToMinutes(src[i])) == Column(c, "duration_min");
      SetColumnSame(c, "duration_min");
    }
  }

  /** The steps before deduplication leave a settled frame as it is. */
  lemma SettledIsFixedPoint(c: Table, parse: DateParser)
    requires Settled(c) && ParserKeepsTimestamps(parse)
    ensures CleanDemands(c) && Derived(c, parse) == c
  {
    StripColumnsOfTrimmed(c);
    assert StripAll(c.columns) == c.columns;
    DeriveYearOfSettled(c, parse);
    DeriveDurationOfSettled(c);
  }

  /** Cleaning a cleaned frame changes nothing. */
  lemma CleanIdempotent(t: Table, parse: DateParser)
    requires CleanDemands(t) && ParserKeepsTimestamps(parse)
    ensures CleanDemands(CleanData(t, parse))
    ensures CleanData(CleanData(t, parse), parse) == CleanData(t, parse)
  {
    var u := Derived(t, parse);
    DerivedSettled(t, parse);
    var c := DropDuplicates(u);
    DropDuplicatesKeepsSettled(u);
    SettledIsFixedPoint(c, parse);
    DropDuplicatesIdempotent(u);
  }
}
