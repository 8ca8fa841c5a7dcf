/** The analysis stage: the presence gates in front of each chart, the series
    each chart is drawn from, the metrics map, and the map of chart paths. */
module Analyze {
  import opened Wrappers
  import opened Seqs
  import opened Text
  import opened Tables
  import opened Stats

  // ---------------------------------------------------------------------------
  // Top artists
  // ---------------------------------------------------------------------------

  /** How many tracks the chart of top artists shows by default. */
  const TOP_N: int := 10

  /** The artist column the chart reads: `artist_name`, else `artists`, else none. */
  function ArtistColumn(cols: seq<string>): (c: Option<string>)
    ensures c.None? <==> "artist_name" !in cols && "artists" !in cols
    ensures c.Some? ==> c.value in cols
    ensures c.Some? && "artist_name" in cols ==> c.value == "artist_name"
    ensures c.Some? && "artist_name" !in cols ==> c.value == "artists"
  {
    if "artist_name" in cols then Some("artist_name")
    else if "artists" in cols then Some("artists")
    else None
  }

  /** The length of `Series.head(n)` on a series of `len` entries: the first
      `n` when `n` is not negative, all but the last `-n` otherwise. */
  function HeadCount(n: int, len: nat): (h: nat)
    ensures h <= len
  {
    if n >= 0 then (if n < len then n else len)
    else if len + n > 0 then len + n else 0
  }

  /** Every entry is a present value paired with the number of cells holding it. */
  predicate CellCounts(cells: seq<Cell>, r: seq<(Value, nat)>) {
    forall i :: 0 <= i < |r| ==> r[i].0 in PresentSet(cells) && r[i].1 == multiset(cells)[Some(r[i].0)]
  }

  /** No present value left out of `r` occurs more often than an entry of `r`. */
  predicate CellsDominated(cells: seq<Cell>, r: seq<(Value, nat)>) {
    forall v :: v in PresentSet(cells) && v !in Labels(r) ==>
      forall i :: 0 <= i < |r| ==> multiset(cells)[Some(v)] <= r[i].1
  }

  /** `cells.value_counts().head(n)`: the most frequent non-missing values,
      each with the number of cells holding it, most frequent first. */
  function TopCounts(cells: seq<Cell>, n: int): (r: seq<(Value, nat)>)
    ensures |r| == HeadCount(n, |PresentSet(cells)|)
    ensures CellCounts(cells, r)
    ensures NoDup(Labels(r))
    ensures Descending(r)
    ensures CellsDominated(cells, r)
  {
    var vs := Present(cells);
    var pool := Distinct(vs);
    TopCountsPool(cells);
    var r := Ranked(vs, pool, HeadCount(n, |pool|));
    RankedIsRanking(vs, pool, HeadCount(n, |pool|));
    TopCountsFromRanking(cells, r, HeadCount(n, |pool|));
    r
  }

  /** `value_counts().head(n)` is a prefix of the full `value_counts()`. */
  lemma TopCountsPrefix(cells: seq<Cell>, n: int)
    ensures TopCounts(cells, n) == TopCounts(cells, |PresentSet(cells)|)[..|TopCounts(cells, n)|]
  {
    var vs := Present(cells);
    var pool := Distinct(vs);
    TopCountsPool(cells);
    RankedPrefix(vs, pool, HeadCount(n, |pool|), |pool|);
    PrefixSlice(TopCounts(cells, n), TopCounts(cells, |PresentSet(cells)|));
  }

  /** The distinct present values are exactly the column's value set. */
  lemma TopCountsPool(cells: seq<Cell>)
    ensures forall v :: v in Distinct(Present(cells)) <==> v in PresentSet(cells)
    ensures |Distinct(Present(cells))| == |PresentSet(cells)|
  {
    var pool := Distinct(Present(cells));
    PresentMembers(cells);
    NoDupCard(pool);
    assert (set x | x in pool) == PresentSet(cells);
  }

  /** A ranking of the distinct present values, read back in terms of cells. */
  lemma TopCountsFromRanking(cells: seq<Cell>, r: seq<(Value, nat)>, k: nat)
    requires IsRanking(Present(cells), Distinct(Present(cells)), k, r)
    ensures CellCounts(cells, r)
    ensures CellsDominated(cells, r)
  {
    var vs := Present(cells);
    var pool := Distinct(vs);
    TopCountsPool(cells);
    forall i | 0 <= i < |r|
      ensures r[i].0 in PresentSet(cells) && r[i].1 == multiset(cells)[Some(r[i].0)]
    {
      PresentCounts(cells, r[i].0);
    }
    forall v | v in PresentSet(cells) && v !in Labels(r)
      ensures forall i :: 0 <= i < |r| ==> multiset(cells)[Some(v)] <= r[i].1
    {
      PresentCounts(cells, v);
      var j :| 0 <= j < |pool| && pool[j] == v;
    }
  }

  /** `top_artists(df, n)` up to drawing: absent when there is no artist
      column, otherwise the top counts of the chosen column. */
  function TopArtists(t: Table, n: int): (r: Option<seq<(Value, nat)>>)
    requires WellFormed(t)
    ensures r.None? <==> "artist_name" !in t.columns && "artists" !in t.columns
    ensures r.Some? && "artist_name" in t.columns ==> r.value == TopCounts(Column(t, "artist_name"), n)
    ensures r.Some? && "artist_name" !in t.columns ==> r.value == TopCounts(Column(t, "artists"), n)
  {
    match ArtistColumn(t.columns)
    case None => None
    case Some(c) => Some(TopCounts(Column(t, c), n))
  }

  /** A two-entry ranking over `pool` whose entries are distinct, carry their
      counts, descend, and beat every value left out, is `a` then `b` when
      `a` is the most frequent value of the pool and `b` the next. */
  lemma TopTwoRanking(r: seq<(Value, nat)>, pool: set<Value>, count: Value -> nat, a: Value, b: Value)
    requires a in pool && b in pool && count(a) > count(b)
    requires forall v :: v in pool && v != a && v != b ==> count(v) < count(b)
    requires |r| == 2 && NoDup(Labels(r)) && Descending(r)
    requires forall i :: 0 <= i < |r| ==> r[i].0 in pool && r[i].1 == count(r[i].0)
    requires forall v :: v in pool && v !in Labels(r) ==> forall i :: 0 <= i < |r| ==> count(v) <= r[i].1
    ensures r == [(a, count(a)), (b, count(b))]
  {
    assert Labels(r)[0] != Labels(r)[1];
    assert r[0].1 >= r[1].1;
    var first, second := r[0], r[1];
    assert a in Labels(r) || count(a) <= first.1;
    assert b in Labels(r) || count(b) <= second.1;
  }

  /** The two most frequent values come first, in order of frequency, when
      every other value is rarer than both. */
  lemma TopOfTwo(cells: seq<Cell>, a: Value, b: Value)
    requires a in PresentSet(cells) && b in PresentSet(cells)
    requires multiset(cells)[Some(a)] > multiset(cells)[Some(b)]
    requires forall v :: v in PresentSet(cells) && v != a && v != b ==> multiset(cells)[Some(v)] < multiset(cells)[Some(b)]
    ensures TopCounts(cells, 2) == [(a, multiset(cells)[Some(a)]), (b, multiset(cells)[Some(b)])]
  {
    var pool := PresentSet(cells);
    assert {a, b} <= pool;
    assert |{a, b}| == 2;
    SubsetCard({a, b}, pool);
    var r := TopCounts(cells, 2);
    assert |r| == 2;
    TopTwoRanking(r, pool, v => multiset(cells)[Some(v)], a, b);
  }

  lemma ExamplePresent(a: Value, b: Value, c: Value)
    ensures PresentSet([Some(a), Some(b), Some(a), Some(c), Some(b), Some(a)]) == {a, b, c}
  {
    var cells := [Some(a), Some(b), Some(a), Some(c), Some(b), Some(a)];
    assert cells[0] == Some(a) && cells[1] == Some(b) && cells[3] == Some(c);
  }

  lemma ExampleCounts(a: Value, b: Value, c: Value)
    requires a != b && b != c && a != c
    ensures var cells := [Some(a), Some(b), Some(a), Some(c), Some(b), Some(a)];
      multiset(cells)[Some(a)] == 3 && multiset(cells)[Some(b)] == 2 && multiset(cells)[Some(c)] == 1
  {
    var cells := [Some(a), Some(b), Some(a), Some(c), Some(b), Some(a)];
    assert multiset(cells) == multiset{Some(a), Some(a), Some(a), Some(b), Some(b), Some(c)};
  }

  /** A column A, B, A, C, B, A: the top two are A three times, then B twice. */
  lemma TopCountsExample(a: Value, b: Value, c: Value)
    requires a != b && b != c && a != c
    ensures TopCounts([Some(a), Some(b), Some(a), Some(c), Some(b), Some(a)], 2) == [(a, 3), (b, 2)]
  {
    var cells := [Some(a), Some(b), Some(a), Some(c), Some(b), Some(a)];
    ExamplePresent(a, b, c);
    ExampleCounts(a, b, c);
    TopOfTwo(cells, a, b);
  }

  // ---------------------------------------------------------------------------
  // Popularity trend
  // ---------------------------------------------------------------------------

  /** The popularity numbers of the rows whose year is `y`, in row order: one
      group of `groupby("year")["popularity"]`. */
  function Group(years: seq<Cell>, pops: seq<Cell>, y: real): seq<real>
    requires |years| == |pops|
    decreases |years|
  {
    if |years| == 0 then []
    else
      var n := |years| - 1;
      var p := Group(years[..n], pops[..n], y);
      match pops[n]
      case Some(Num(x)) => if years[n] == Some(Num(y)) then p + [x] else p
      case _ => p
  }

  /** A group holds exactly the popularity numbers of the rows with that year. */
  lemma {:induction false} GroupMembers(years: seq<Cell>, pops: seq<Cell>, y: real)
    requires |years| == |pops|
    ensures forall x :: x in Group(years, pops, y) <==>
      exists i :: 0 <= i < |years| && years[i] == Some(Num(y)) && pops[i] == Some(Num(x))
    decreases |years|
  {
    if |years| > 0 {
      var n := |years| - 1;
      GroupMembers(years[..n], pops[..n], y);
      assert forall i :: 0 <= i < n ==> years[..n][i] == years[i] && pops[..n][i] == pops[i];
    }
  }

  /** The popularity column with every row whose year is not `y` blanked out. */
  function YearMask(years: seq<Cell>, pops: seq<Cell>, y: real): (m: seq<Cell>)
    requires |years| == |pops|
    ensures |m| == |pops|
  {
    seq(|pops|, i requires 0 <= i < |pops| => if years[i] == Some(Num(y)) then pops[i] else None)
  }

  /** A group is the list of numbers of the popularity column restricted to
      the rows whose year is `y`, repeats and row order included. */
  lemma {:induction false} GroupIsMaskedNumbers(years: seq<Cell>, pops: seq<Cell>, y: real)
    requires |years| == |pops|
    ensures Group(years, pops, y) == Numbers(YearMask(years, pops, y))
    decreases |years|
  {
    if |years| > 0 {
      var n := |years| - 1;
      var m := YearMask(years, pops, y);
      GroupIsMaskedNumbers(years[..n], pops[..n], y);
      assert m[..n] == YearMask(years[..n], pops[..n], y);
      assert m[n] == if years[n] == Some(Num(y)) then pops[n] else None;
    }
  }

  /** The (year, mean popularity) pairs for the candidate `keys`, in key
      order, leaving out the years whose group `groupOf(y)` is empty. */
  function TrendOver(keys: seq<real>, groupOf: real -> seq<real>): (r: seq<(real, real)>)
    ensures forall i :: 0 <= i < |r| ==>
      r[i].0 in keys && |groupOf(r[i].0)| > 0 && r[i].1 == Mean(groupOf(r[i].0))
    decreases |keys|
  {
    if |keys| == 0 then []
    else
      var n := |keys| - 1;
      var p := TrendOver(keys[..n], groupOf);
      var g := groupOf(keys[n]);
      if |g| > 0 then p + [(keys[n], Mean(g))] else p
  }

  /** Every key with a non-empty group gets a point. */
  lemma TrendOverCovers(keys: seq<real>, groupOf: real -> seq<real>)
    ensures forall k :: 0 <= k < |keys| && |groupOf(keys[k])| > 0 ==>
      keys[k] in Labels(TrendOver(keys, groupOf))
  {
    forall k | 0 <= k < |keys| && |groupOf(keys[k])| > 0
      ensures keys[k] in Labels(TrendOver(keys, groupOf))
    {
      TrendOverCoversKey(keys, groupOf, k);
    }
  }

  lemma {:induction false} TrendOverCoversKey(keys: seq<real>, groupOf: real -> seq<real>, k: nat)
    requires k < |keys| && |groupOf(keys[k])| > 0
    ensures keys[k] in Labels(TrendOver(keys, groupOf))
    decreases |keys|
  {
    var n := |keys| - 1;
    TrendOverSnoc(keys, groupOf);
    if k < n {
      assert keys[..n][k] == keys[k];
      TrendOverCoversKey(keys[..n], groupOf, k);
    }
  }

  /** The years of the points for `keys` are those for all but the last key,
      followed by the last key when its group is non-empty. */
  lemma TrendOverSnoc(keys: seq<real>, groupOf: real -> seq<real>)
    requires |keys| > 0
    ensures var n := |keys| - 1; var ys := Labels(TrendOver(keys[..n], groupOf));
      Labels(TrendOver(keys, groupOf)) == if |groupOf(keys[n])| > 0 then ys + [keys[n]] else ys
  {
    var n := |keys| - 1;
    var p := TrendOver(keys[..n], groupOf);
    var g := groupOf(keys[n]);
    if |g| > 0 {
      assert Labels(p + [(keys[n], Mean(g))]) == Labels(p) + [keys[n]];
    }
  }

  /** Increasing keys give points in increasing year order. */
  lemma {:induction false} TrendOverIncreasing(keys: seq<real>, groupOf: real -> seq<real>)
    requires Increasing(keys)
    ensures Increasing(Labels(TrendOver(keys, groupOf)))
    decreases |keys|
  {
    if |keys| > 0 {
      var n := |keys| - 1;
      var p := TrendOver(keys[..n], groupOf);
      assert Increasing(keys[..n]) by {
        assert forall i :: 0 <= i < n ==> keys[..n][i] == keys[i];
      }
      TrendOverIncreasing(keys[..n], groupOf);
      var g := groupOf(keys[n]);
      if |g| > 0 {
        var ys := Labels(p);
        forall i | 0 <= i < |ys|
          ensures ys[i] < keys[n]
        {
          assert p[i].0 in keys[..n];
          var k :| 0 <= k < n && keys[..n][k] == p[i].0;
          assert keys[k] < keys[n];
        }
        IncreasingSnoc(ys, keys[n]);
        TrendOverSnoc(keys, groupOf);
      }
    }
  }

  /** What `popularity_trend` asks of its frame once both columns are there:
      numbers, since the mean of text raises. */
  predicate TrendDemands(t: Table)
    requires Rectangular(t)
  {
    "popularity" in t.columns && "year" in t.columns ==>
      NumericOrMissing(Column(t, "year")) && NumericOrMissing(Column(t, "popularity"))
  }

  /** `popularity_trend(df)` up to drawing: absent unless both `popularity`
      and `year` are columns; otherwise one entry per year, ascending, whose
      group holds a popularity number, carrying that group's mean. */
  function PopularityTrend(t: Table): (r: Option<seq<(real, real)>>)
    requires WellFormed(t) && TrendDemands(t)
    ensures r.None? <==> "popularity" !in t.columns || "year" !in t.columns
    ensures r.Some? ==> Increasing(Labels(r.value))
    ensures r.Some? ==> forall i :: 0 <= i < |r.value| ==>
      var g := Group(Column(t, "year"), Column(t, "popularity"), r.value[i].0);
      && Some(Num(r.value[i].0)) in Column(t, "year")
      && |g| > 0
      && r.value[i].1 == Mean(g)
    ensures r.Some? ==> forall i :: 0 <= i < |t.rows| ==>
      var years := Column(t, "year");
      years[i].Some? && |Group(years, Column(t, "popularity"), years[i].value.x)| > 0 ==>
        years[i].value.x in Labels(r.value)
  {
    if "popularity" !in t.columns || "year" !in t.columns then None
    else
      var years := Column(t, "year");
      var pops := Column(t, "popularity");
      var keys := SortedKeys(Numbers(years));
      var groupOf := y => Group(years, pops, y);
      var r := TrendOver(keys, groupOf);
      TrendOverCovers(keys, groupOf);
      TrendOverIncreasing(keys, groupOf);
      TrendKeys(years, keys);
      Some(r)
  }

  /** The sorted keys of a numeric year column are exactly its present years. */
  lemma TrendKeys(years: seq<Cell>, keys: seq<real>)
    requires NumericOrMissing(years)
    requires forall y :: y in keys <==> y in Numbers(years)
    ensures forall y :: y in keys ==> Some(Num(y)) in years
    ensures forall i :: 0 <= i < |years| && years[i].Some? ==> years[i].value.x in keys
  {
    NumbersOfNumeric(years);
    forall y | y in keys
      ensures Some(Num(y)) in years
    {
      assert Num(y) in PresentSet(years);
      var i :| 0 <= i < |years| && years[i].Some? && years[i].value == Num(y);
    }
    forall i | 0 <= i < |years| && years[i].Some?
      ensures years[i].value.x in keys
    {
      assert Num(years[i].value.x) in PresentSet(years);
    }
  }

  /** Each point of the trend lies within any bounds of the popularity values. */
  lemma TrendWithinBounds(t: Table, lo: real, hi: real)
    requires WellFormed(t) && TrendDemands(t)
    requires "popularity" in t.columns
    requires forall x :: x in Numbers(Column(t, "popularity")) ==> lo <= x <= hi
    ensures PopularityTrend(t).Some? ==>
      forall i :: 0 <= i < |PopularityTrend(t).value| ==> lo <= PopularityTrend(t).value[i].1 <= hi
  {
    var r := PopularityTrend(t);
    if r.Some? {
      var years := Column(t, "year");
      var pops := Column(t, "popularity");
      forall i | 0 <= i < |r.value|
        ensures lo <= r.value[i].1 <= hi
      {
        var g := Group(years, pops, r.value[i].0);
        GroupWithin(years, pops, r.value[i].0);
        assert forall k :: 0 <= k < |g| ==> g[k] in g;
        MeanBounds(g, lo, hi);
      }
    }
  }

  /** A group's numbers are popularity numbers of the column. */
  lemma GroupWithin(years: seq<Cell>, pops: seq<Cell>, y: real)
    requires |years| == |pops|
    ensures forall x :: x in Group(years, pops, y) ==> x in Numbers(pops)
  {
    GroupMembers(years, pops, y);
    forall x | x in Group(years, pops, y)
      ensures x in Numbers(pops)
    {
      var i :| 0 <= i < |years| && years[i] == Some(Num(y)) && pops[i] == Some(Num(x));
      NumbersHas(pops, i);
    }
  }

  /** Every number is read from a numeric cell. */
  lemma {:induction false} NumbersFrom(cells: seq<Cell>, k: nat)
    requires k < |Numbers(cells)|
    ensures Some(Num(Numbers(cells)[k])) in cells
    decreases |cells|
  {
    var n := |cells| - 1;
    var p := Numbers(cells[..n]);
    if k < |p| {
      NumbersFrom(cells[..n], k);
      assert cells == cells[..n] + [cells[n]];
    }
  }

  /** Every numeric cell contributes its number. */
  lemma {:induction false} NumbersHas(cells: seq<Cell>, i: nat)
    requires i < |cells| && cells[i].Some? && cells[i].value.Num?
    ensures cells[i].value.x in Numbers(cells)
    decreases |cells|
  {
    var n := |cells| - 1;
    if i < n {
      NumbersHas(cells[..n], i);
    }
  }

  /** The groups of the worked example: years 2000, 2000, 2001 with
      popularity 10, 20, 40. */
  lemma ExampleGroups(years: seq<Cell>, pops: seq<Cell>)
    requires years == [Some(Num(2000.0)), Some(Num(2000.0)), Some(Num(2001.0))]
    requires pops == [Some(Num(10.0)), Some(Num(20.0)), Some(Num(40.0))]
    ensures Group(years, pops, 2000.0) == [10.0, 20.0]
    ensures Group(years, pops, 2001.0) == [40.0]
  {
    assert years[..2][..1] == years[..1] && pops[..2][..1] == pops[..1];
    assert years[..2][..0] == [] && years[..1][..0] == [];
    assert Group(years[..1], pops[..1], 2000.0) == [10.0];
    assert Group(years[..1], pops[..1], 2001.0) == [];
    assert Group(years[..2], pops[..2], 2000.0) == [10.0, 20.0];
    assert Group(years[..2], pops[..2], 2001.0) == [];
  }

  /** The means of the worked example's groups. */
  lemma ExampleMeans()
    ensures Mean([10.0, 20.0]) == 15.0
    ensures Mean([40.0]) == 40.0
  {
    assert [10.0, 20.0][..1] == [10.0] && [10.0][..0] == [] && [40.0][..0] == [];
    assert Sum([10.0, 20.0]) == 30.0;
  }

  /** A trend over years that occur among 2000, 2000, 2001, increasing and
      covering both, is 2000 then 2001. */
  lemma TwoYearLabels(ls: seq<real>, years: seq<Cell>)
    requires years == [Some(Num(2000.0)), Some(Num(2000.0)), Some(Num(2001.0))]
    requires Increasing(ls)
    requires forall i :: 0 <= i < |ls| ==> Some(Num(ls[i])) in years
    requires 2000.0 in ls && 2001.0 in ls
    ensures ls == [2000.0, 2001.0]
  {
    var both := {2000.0, 2001.0};
    assert forall i :: 0 <= i < |ls| ==> ls[i] in both;
    assert NoDup(ls);
    NoDupCard(ls);
    SubsetCard((set x | x in ls), both);
    assert |ls| == 2;
  }

  /** On the worked example's columns, the years of points that satisfy the
      trend's contract are 2000 then 2001. */
  lemma ExampleLabels(r: seq<(real, real)>, years: seq<Cell>, pops: seq<Cell>)
    requires years == [Some(Num(2000.0)), Some(Num(2000.0)), Some(Num(2001.0))]
    requires pops == [Some(Num(10.0)), Some(Num(20.0)), Some(Num(40.0))]
    requires Increasing(Labels(r))
    requires forall i :: 0 <= i < |r| ==> Some(Num(r[i].0)) in years
    requires forall i :: 0 <= i < |years| ==>
      years[i].Some? && |Group(years, pops, years[i].value.x)| > 0 ==> years[i].value.x in Labels(r)
    ensures Labels(r) == [2000.0, 2001.0]
  {
    var ls := Labels(r);
    assert 2000.0 in ls && 2001.0 in ls by {
      ExampleGroups(years, pops);
      assert years[0].value.x == 2000.0 && years[2].value.x == 2001.0;
    }
    assert forall i :: 0 <= i < |ls| ==> Some(Num(ls[i])) in years by {
      forall i | 0 <= i < |ls|
        ensures Some(Num(ls[i])) in years
      {
        assert ls[i] == r[i].0;
      }
    }
    TwoYearLabels(ls, years);
  }

  /** Points that satisfy the trend's contract on the worked example's
      columns are 2000 at a mean of 15, then 2001 at 40. */
  lemma ExamplePoints(r: seq<(real, real)>, years: seq<Cell>, pops: seq<Cell>)
    requires years == [Some(Num(2000.0)), Some(Num(2000.0)), Some(Num(2001.0))]
    requires pops == [Some(Num(10.0)), Some(Num(20.0)), Some(Num(40.0))]
    requires Increasing(Labels(r))
    requires forall i :: 0 <= i < |r| ==>
      Some(Num(r[i].0)) in years && |Group(years, pops, r[i].0)| > 0 && r[i].1 == Mean(Group(years, pops, r[i].0))
    requires forall i :: 0 <= i < |years| ==>
      years[i].Some? && |Group(years, pops, years[i].value.x)| > 0 ==> years[i].value.x in Labels(r)
    ensures r == [(2000.0, 15.0), (2001.0, 40.0)]
  {
    ExampleLabels(r, years, pops);
    assert |r| == 2;
    var first, second := r[0], r[1];
    assert first.0 == 2000.0 && second.0 == 2001.0 by {
      assert Labels(r)[0] == first.0 && Labels(r)[1] == second.0;
    }
    ExampleGroups(years, pops);
    ExampleMeans();
    assert first.1 == Mean(Group(years, pops, 2000.0)) == 15.0;
    assert second.1 == Mean(Group(years, pops, 2001.0)) == 40.0;
  }

  /** Years 2000, 2000, 2001 with popularity 10, 20, 40: the trend is 2000 at
      a mean of 15, then 2001 at 40. */
  lemma TrendExample(t: Table)
    requires WellFormed(t) && "year" in t.columns && "popularity" in t.columns
    requires Column(t, "year") == [Some(Num(2000.0)), Some(Num(2000.0)), Some(Num(2001.0))]
    requires Column(t, "popularity") == [Some(Num(10.0)), Some(Num(20.0)), Some(Num(40.0))]
    ensures TrendDemands(t)
    ensures PopularityTrend(t) == Some([(2000.0, 15.0), (2001.0, 40.0)])
  {
    var years := Column(t, "year");
    var pops := Column(t, "popularity");
    assert NumericOrMissing(years) && NumericOrMissing(pops);
    var r := PopularityTrend(t);
    ExamplePoints(r.value, years, pops);
  }

  // ---------------------------------------------------------------------------
  // Feature correlation
  // ---------------------------------------------------------------------------

  /** The audio features the correlation chart may use, in chart order. */
  const CORR_CANDIDATES: seq<string> := ["danceability", "energy", "loudness", "speechiness",
    "acousticness", "instrumentalness", "liveness", "valence", "tempo", "popularity"]

  /** `feature_corr(df)` up to the numeric filter: the candidates that are
      columns, in candidate order, or absence when fewer than two are. */
  function FeatureCorr(t: Table): (r: Option<seq<string>>)
    ensures r.Some? ==> |r.value| >= 2
    ensures r.Some? ==> forall k :: 0 <= k < |r.value| ==> r.value[k] in CORR_CANDIDATES && r.value[k] in t.columns
    ensures r.Some? ==> forall c :: c in CORR_CANDIDATES && c in t.columns ==> c in r.value
  {
    var cols := Keep(CORR_CANDIDATES, t.columns);
    if |cols| < 2 then None else Some(cols)
  }

  lemma CandidatesDistinct()
    ensures NoDup(CORR_CANDIDATES)
  {
    var c := CORR_CANDIDATES;
    forall i, j | 0 <= i < j < |c|
      ensures c[i] != c[j]
    {
      assert c[i][..2] != c[j][..2] || |c[i]| != |c[j]| || c[i][2..] != c[j][2..];
    }
  }

  /** The gate counts present candidates, and the selection keeps their order. */
  lemma FeatureCorrSelection(t: Table)
    ensures var present := set c | c in CORR_CANDIDATES && c in t.columns;
      FeatureCorr(t).None? <==> |present| < 2
    ensures FeatureCorr(t).Some? ==> NoDup(FeatureCorr(t).value)
    ensures FeatureCorr(t).Some? ==> forall i, j :: 0 <= i < j < |FeatureCorr(t).value| ==>
      IndexOf(CORR_CANDIDATES, FeatureCorr(t).value[i]) < IndexOf(CORR_CANDIDATES, FeatureCorr(t).value[j])
  {
    CandidatesDistinct();
    KeepSelection(CORR_CANDIDATES, t.columns);
  }

  // ---------------------------------------------------------------------------
  // Summary metrics
  // ---------------------------------------------------------------------------

  /** A value of the metrics map: an integer, the year-range text, a float,
      the float NaN (the mean of a column with nothing in it), or `"N/A"`. */
  datatype Metric = Count(n: nat) | Span(text: string) | Float(x: real) | NaN | NotApplicable

  const SUMMARY_KEYS: set<string> :=
    {"total_tracks", "unique_artists", "years_covered", "avg_popularity", "avg_duration_min"}

  /** Python's `int(x)` on a float: truncation toward zero. */
  function Trunc(x: real): (i: int)
    ensures x >= 0.0 ==> 0 <= i && i as real <= x < i as real + 1.0
    ensures x < 0.0 ==> i <= 0 && i as real - 1.0 < x <= i as real
  {
    if x >= 0.0 then x.Floor else -((-x).Floor)
  }

  /** Truncation keeps order. */
  lemma TruncMonotone(a: real, b: real)
    requires a <= b
    ensures Trunc(a) <= Trunc(b)
  {
  }

  /** `float(cells.mean())`: NaN when no cell holds a number. */
  function Average(cells: seq<Cell>): (m: Metric)
    ensures m.NaN? || m.Float?
    ensures m.NaN? <==> |Numbers(cells)| == 0
    ensures m.Float? ==> m.x == Mean(Numbers(cells))
  {
    var xs := Numbers(cells);
    if |xs| == 0 then NaN else Float(Mean(xs))
  }

  /** At least one cell is present: what `int(min())` needs not to raise. */
  predicate SomePresent(cells: seq<Cell>) {
    exists i :: 0 <= i < |cells| && cells[i].Some?
  }

  /** `f"{int(min)} - {int(max)}"` on a numeric column with a present cell. */
  function YearsCovered(cells: seq<Cell>): (m: Metric)
    requires NumericOrMissing(cells) && SomePresent(cells)
    ensures m.Span?
  {
    NumbersOfNumeric(cells);
    var xs := Numbers(cells);
    Span(FormatSpan(Trunc(MinOf(xs)), Trunc(MaxOf(xs))))
  }

  /** What `summarize` asks of its frame: numeric metric columns and, when
      there is a `year` column, a year in it. */
  predicate SummaryDemands(t: Table)
    requires Rectangular(t)
  {
    && ("year" in t.columns ==> NumericOrMissing(Column(t, "year")) && SomePresent(Column(t, "year")))
    && ("popularity" in t.columns ==> NumericOrMissing(Column(t, "popularity")))
    && ("duration_min" in t.columns ==> NumericOrMissing(Column(t, "duration_min")))
  }

  /** The metric `name` of `summarize(df)`. */
  function SummaryEntry(t: Table, name: string): Metric
    requires WellFormed(t) && SummaryDemands(t)
  {
    if name == "total_tracks" then Count(|t.rows|)
    else if name == "unique_artists" then
      (if "artist_name" in t.columns then Count(|PresentSet(Column(t, "artist_name"))|) else NotApplicable)
    else if name == "years_covered" then
      (if "year" in t.columns then YearsCovered(Column(t, "year")) else NotApplicable)
    else if name == "avg_popularity" then
      (if "popularity" in t.columns then Average(Column(t, "popularity")) else NotApplicable)
    else if "duration_min" in t.columns then Average(Column(t, "duration_min")) else NotApplicable
  }

  /** `summarize(df)`: the five metrics, each `"N/A"` exactly when its own
      column is missing. */
  function Summarize(t: Table): (r: map<string, Metric>)
    requires WellFormed(t) && SummaryDemands(t)
    ensures r.Keys == SUMMARY_KEYS
    ensures r["total_tracks"] == Count(|t.rows|)
    ensures r["unique_artists"].NotApplicable? <==> "artist_name" !in t.columns
    ensures r["years_covered"].NotApplicable? <==> "year" !in t.columns
    ensures r["avg_popularity"].NotApplicable? <==> "popularity" !in t.columns
    ensures r["avg_duration_min"].NotApplicable? <==> "duration_min" !in t.columns
    ensures "popularity" in t.columns ==> r["avg_popularity"] == Average(Column(t, "popularity"))
    ensures "duration_min" in t.columns ==> r["avg_duration_min"] == Average(Column(t, "duration_min"))
  {
    map k | k in SUMMARY_KEYS :: SummaryEntry(t, k)
  }

  /** `unique_artists` counts the distinct present artist names. */
  lemma UniqueArtistsCount(t: Table)
    requires WellFormed(t) && SummaryDemands(t) && "artist_name" in t.columns
    ensures Summarize(t)["unique_artists"] == Count(|Distinct(Present(Column(t, "artist_name")))|)
  {
    TopCountsPool(Column(t, "artist_name"));
  }

  /** `years_covered` reads back as two truncated years of the column, the
      first no later than the second and neither beaten by any other year. */
  lemma YearsCoveredSpan(t: Table)
    requires WellFormed(t) && SummaryDemands(t) && "year" in t.columns
    ensures Summarize(t)["years_covered"].Span?
    ensures var years := Column(t, "year");
      var p := ParseSpan(Summarize(t)["years_covered"].text);
      && p.Some?
      && p.value.0 <= p.value.1
      && (exists i :: 0 <= i < |years| && years[i].Some? && p.value.0 == Trunc(years[i].value.x))
      && (exists i :: 0 <= i < |years| && years[i].Some? && p.value.1 == Trunc(years[i].value.x))
      && (forall i :: 0 <= i < |years| && years[i].Some? ==> p.value.0 <= Trunc(years[i].value.x) <= p.value.1)
  {
    var years := Column(t, "year");
    assert Summarize(t)["years_covered"] == SummaryEntry(t, "years_covered") == YearsCovered(years);
    YearsCoveredText(years);
  }

  /** The year-range text of a column, read back. */
  lemma YearsCoveredText(years: seq<Cell>)
    requires NumericOrMissing(years) && SomePresent(years)
    ensures var p := ParseSpan(YearsCovered(years).text);
      && p.Some?
      && p.value.0 <= p.value.1
      && (exists i :: 0 <= i < |years| && years[i].Some? && p.value.0 == Trunc(years[i].value.x))
      && (exists i :: 0 <= i < |years| && years[i].Some? && p.value.1 == Trunc(years[i].value.x))
      && (forall i :: 0 <= i < |years| && years[i].Some? ==> p.value.0 <= Trunc(years[i].value.x) <= p.value.1)
  {
    NumbersOfNumeric(years);
    var xs := Numbers(years);
    var lo := MinOf(xs);
    var hi := MaxOf(xs);
    YearExtremes(years);
    SpanRoundTrip(Trunc(lo), Trunc(hi));
    TruncMonotone(lo, hi);
    var i :| 0 <= i < |years| && years[i] == Some(Num(lo));
    var j :| 0 <= j < |years| && years[j] == Some(Num(hi));
    forall k | 0 <= k < |years| && years[k].Some?
      ensures Trunc(lo) <= Trunc(years[k].value.x) <= Trunc(hi)
    {
      TruncMonotone(lo, years[k].value.x);
      TruncMonotone(years[k].value.x, hi);
    }
  }

  /** The minimum and maximum of a numeric column are years of it that bound all others. */
  lemma YearExtremes(years: seq<Cell>)
    requires NumericOrMissing(years) && |Numbers(years)| > 0
    ensures Some(Num(MinOf(Numbers(years)))) in years
    ensures Some(Num(MaxOf(Numbers(years)))) in years
    ensures forall k :: 0 <= k < |years| && years[k].Some? ==>
      MinOf(Numbers(years)) <= years[k].value.x <= MaxOf(Numbers(years))
  {
    var xs := Numbers(years);
    NumbersFrom(years, IndexOf(xs, MinOf(xs)));
    NumbersFrom(years, IndexOf(xs, MaxOf(xs)));
    forall k | 0 <= k < |years| && years[k].Some?
      ensures MinOf(xs) <= years[k].value.x <= MaxOf(xs)
    {
      NumbersHas(years, k);
      var m := IndexOf(xs, years[k].value.x);
    }
  }

  /** A present average lies within any bounds of the column's numbers. */
  lemma AverageWithinBounds(cells: seq<Cell>, lo: real, hi: real)
    requires forall x :: x in Numbers(cells) ==> lo <= x <= hi
    ensures Average(cells).Float? ==> lo <= Average(cells).x <= hi
  {
    var xs := Numbers(cells);
    if |xs| > 0 {
      assert forall k :: 0 <= k < |xs| ==> xs[k] in xs;
      MeanBounds(xs, lo, hi);
    }
  }

  // ---------------------------------------------------------------------------
  // Chart paths
  // ---------------------------------------------------------------------------

  const IMAGE_KEYS: set<string> := {"top_artists", "popularity_trend", "feature_corr"}

  /** Where a chart named `name` is saved under `outDir`. */
  function ImagePath(outDir: string, name: string): string {
    outDir + "/" + name + ".png"
  }

  /** What `main` needs of the frame for `popularity_trend` not to raise:
      once both columns are there, the per-year mean must see numbers.
      Unlike `TrendDemands`, the year column itself may hold any values. */
  predicate ChartDemands(t: Table)
    requires Rectangular(t)
  {
    "popularity" in t.columns && "year" in t.columns ==> NumericOrMissing(Column(t, "popularity"))
  }

  /** Whether the chart named `name` gets past its presence gate. */
  function ChartDrawn(t: Table, name: string): bool
    requires WellFormed(t)
  {
    if name == "top_artists" then TopArtists(t, TOP_N).Some?
    else if name == "popularity_trend" then "popularity" in t.columns && "year" in t.columns
    else FeatureCorr(t).Some?
  }

  /** The `imgs` map `main` builds: each chart's path under `outDir`, or
      absence when that chart's presence gate fails. */
  function Images(t: Table, outDir: string): (r: map<string, Option<string>>)
    requires WellFormed(t) && ChartDemands(t)
    ensures r.Keys == IMAGE_KEYS
    ensures forall k :: k in r ==> (r[k].None? <==> !ChartDrawn(t, k))
    ensures forall k :: k in r && r[k].Some? ==> r[k].value == ImagePath(outDir, k)
  {
    map k | k in IMAGE_KEYS :: if ChartDrawn(t, k) then Some(ImagePath(outDir, k)) else None
  }

  /** On a frame whose trend is modelled, the trend entry of the map is
      absent exactly when `PopularityTrend` is. */
  lemma ImagesTrend(t: Table, outDir: string)
    requires WellFormed(t) && TrendDemands(t)
    ensures ChartDemands(t)
    ensures Images(t, outDir)["popularity_trend"].None? <==> PopularityTrend(t).None?
  {
    assert ChartDrawn(t, "popularity_trend") == PopularityTrend(t).Some?;
  }

  /** Each entry of the map is absent exactly when its chart's presence gate fails. */
  lemma ImagesGates(t: Table, outDir: string)
    requires WellFormed(t) && ChartDemands(t)
    ensures var r := Images(t, outDir);
      && (r["top_artists"].None? <==> "artist_name" !in t.columns && "artists" !in t.columns)
      && (r["popularity_trend"].None? <==> "popularity" !in t.columns || "year" !in t.columns)
      && (r["feature_corr"].None? <==> |set c | c in CORR_CANDIDATES && c in t.columns| < 2)
  {
    FeatureCorrSelection(t);
    assert ChartDrawn(t, "top_artists") == TopArtists(t, TOP_N).Some?;
    assert ChartDrawn(t, "popularity_trend") == ("popularity" in t.columns && "year" in t.columns);
    assert ChartDrawn(t, "feature_corr") == FeatureCorr(t).Some?;
  }
}
