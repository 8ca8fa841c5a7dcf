/** The aggregates the analysis stage asks pandas for: sums and means,
    minima and maxima, distinct values, and ranking by occurrence count. */
module Stats {
  import opened Seqs

  function Sum(xs: seq<real>): real
    decreases |xs|
  {
    if |xs| == 0 then 0.0 else Sum(xs[..|xs| - 1]) + xs[|xs| - 1]
  }

  /** The arithmetic mean of a non-empty sequence. */
  function Mean(xs: seq<real>): real
    requires |xs| > 0
  {
    Sum(xs) / (|xs| as real)
  }

  lemma {:induction false} SumBounds(xs: seq<real>, lo: real, hi: real)
    requires forall i :: 0 <= i < |xs| ==> lo <= xs[i] <= hi
    ensures (|xs| as real) * lo <= Sum(xs) <= (|xs| as real) * hi
    decreases |xs|
  {
    if |xs| > 0 {
      var n := |xs| - 1;
      SumBounds(xs[..n], lo, hi);
      assert (n as real + 1.0) * lo == (n as real) * lo + lo;
      assert (n as real + 1.0) * hi == (n as real) * hi + hi;
    }
  }

  /** A mean lies between any lower and upper bound of its values. */
  lemma MeanBounds(xs: seq<real>, lo: real, hi: real)
    requires |xs| > 0
    requires forall i :: 0 <= i < |xs| ==> lo <= xs[i] <= hi
    ensures lo <= Mean(xs) <= hi
  {
    SumBounds(xs, lo, hi);
    var n := |xs| as real;
    assert Sum(xs) / n >= lo by {
      assert Sum(xs) >= n * lo;
    }
    assert Sum(xs) / n <= hi by {
      assert Sum(xs) <= n * hi;
    }
  }

  /** The mean of equal values is that value. */
  lemma MeanOfConstant(xs: seq<real>, c: real)
    requires |xs| > 0
    requires forall i :: 0 <= i < |xs| ==> xs[i] == c
    ensures Mean(xs) == c
  {
    MeanBounds(xs, c, c);
  }

  /** `Series.min()` of a non-empty sequence: a member that no member undercuts. */
  function MinOf(xs: seq<real>): (m: real)
    requires |xs| > 0
    ensures m in xs
    ensures forall i :: 0 <= i < |xs| ==> m <= xs[i]
    decreases |xs|
  {
    if |xs| == 1 then xs[0]
    else
      var p := MinOf(xs[..|xs| - 1]);
      assert forall i :: 0 <= i < |xs| - 1 ==> xs[..|xs| - 1][i] == xs[i];
      if xs[|xs| - 1] < p then xs[|xs| - 1] else p
  }

  /** `Series.max()` of a non-empty sequence: a member that no member exceeds. */
  function MaxOf(xs: seq<real>): (m: real)
    requires |xs| > 0
    ensures m in xs
    ensures forall i :: 0 <= i < |xs| ==> xs[i] <= m
    decreases |xs|
  {
    if |xs| == 1 then xs[0]
    else
      var p := MaxOf(xs[..|xs| - 1]);
      assert forall i :: 0 <= i < |xs| - 1 ==> xs[..|xs| - 1][i] == xs[i];
      if xs[|xs| - 1] > p then xs[|xs| - 1] else p
  }

  /** The distinct members of `s` in order of first appearance. */
  function Distinct<T(==)>(s: seq<T>): (r: seq<T>)
    ensures NoDup(r)
    ensures forall k :: 0 <= k < |r| ==> r[k] in s
    ensures forall i :: 0 <= i < |s| ==> s[i] in r
    decreases |s|
  {
    if |s| == 0 then []
    else
      var p := Distinct(s[..|s| - 1]);
      assert forall i :: 0 <= i < |s| - 1 ==> s[..|s| - 1][i] == s[i];
      if s[|s| - 1] in p then p else p + [s[|s| - 1]]
  }

  /** How many times `v` occurs in `vs`. */
  function Occurrences<T(==)>(vs: seq<T>, v: T): nat {
    multiset(vs)[v]
  }

  /** Position in `pool` of a most frequent member (the first such). */
  function MostFrequent<T(==)>(vs: seq<T>, pool: seq<T>): (m: nat)
    requires |pool| > 0
    ensures m < |pool|
    ensures forall j :: 0 <= j < |pool| ==> Occurrences(vs, pool[j]) <= Occurrences(vs, pool[m])
    decreases |pool|
  {
    if |pool| == 1 then 0
    else
      var m := MostFrequent(vs, pool[1..]);
      assert forall j :: 1 <= j < |pool| ==> pool[j] == pool[1..][j - 1];
      if Occurrences(vs, pool[0]) >= Occurrences(vs, pool[1 + m]) then 0 else 1 + m
  }

  /** `pool` without its member at position `m`. */
  function RemoveAt<T>(pool: seq<T>, m: nat): (r: seq<T>)
    requires m < |pool|
    ensures |r| == |pool| - 1
  {
    pool[..m] + pool[m + 1..]
  }

  lemma RemoveAtMembers<T>(pool: seq<T>, m: nat)
    requires m < |pool| && NoDup(pool)
    ensures NoDup(RemoveAt(pool, m))
    ensures forall k :: 0 <= k < |RemoveAt(pool, m)| ==> RemoveAt(pool, m)[k] in pool && RemoveAt(pool, m)[k] != pool[m]
    ensures forall j :: 0 <= j < |pool| && j != m ==> pool[j] in RemoveAt(pool, m)
  {
    var r := RemoveAt(pool, m);
    assert forall k :: 0 <= k < |r| ==> r[k] == if k < m then pool[k] else pool[k + 1];
    forall j | 0 <= j < |pool| && j != m
      ensures pool[j] in r
    {
      if j < m { assert r[j] == pool[j]; } else { assert r[j - 1] == pool[j]; }
    }
  }

  /** The first components of a sequence of pairs, in order. */
  function Labels<K, V>(r: seq<(K, V)>): (ls: seq<K>)
    ensures |ls| == |r|
  {
    seq(|r|, i requires 0 <= i < |r| => r[i].0)
  }

  /** Every entry is a member of `pool` paired with its count in `vs`. */
  predicate CountsOf<T(==)>(vs: seq<T>, pool: seq<T>, r: seq<(T, nat)>) {
    forall i :: 0 <= i < |r| ==> r[i].0 in pool && r[i].1 == Occurrences(vs, r[i].0)
  }

  /** Counts never increase along `r`. */
  predicate Descending<T>(r: seq<(T, nat)>) {
    forall i, j :: 0 <= i < j < |r| ==> r[i].1 >= r[j].1
  }

  /** No member of `pool` left out of `r` occurs more often than an entry of `r`. */
  predicate Dominates<T(==)>(vs: seq<T>, pool: seq<T>, r: seq<(T, nat)>) {
    forall j :: 0 <= j < |pool| && pool[j] !in Labels(r) ==>
      forall i :: 0 <= i < |r| ==> Occurrences(vs, pool[j]) <= r[i].1
  }

  /** `r` is a ranking of the `k` most frequent members of `pool` by their count in `vs`. */
  predicate IsRanking<T(==)>(vs: seq<T>, pool: seq<T>, k: nat, r: seq<(T, nat)>) {
    && |r| == (if k < |pool| then k else |pool|)
    && CountsOf(vs, pool, r)
    && NoDup(Labels(r))
    && Descending(r)
    && Dominates(vs, pool, r)
  }

  lemma ConsLabels<T>(x: (T, nat), tail: seq<(T, nat)>)
    ensures Labels([x] + tail) == [x.0] + Labels(tail)
  {
  }

  lemma ConsDescending<T>(vs: seq<T>, pool: seq<T>, m: nat, tail: seq<(T, nat)>)
    requires m < |pool|
    requires forall j :: 0 <= j < |pool| ==> Occurrences(vs, pool[j]) <= Occurrences(vs, pool[m])
    requires CountsOf(vs, pool, tail) && Descending(tail)
    ensures Descending([(pool[m], Occurrences(vs, pool[m]))] + tail)
  {
    var r := [(pool[m], Occurrences(vs, pool[m]))] + tail;
    forall i | 0 < i < |r|
      ensures r[i].1 <= r[0].1
    {
      var j :| 0 <= j < |pool| && pool[j] == r[i].0;
    }
  }

  lemma ConsDominates<T>(vs: seq<T>, pool: seq<T>, m: nat, tail: seq<(T, nat)>)
    requires NoDup(pool) && m < |pool|
    requires forall j :: 0 <= j < |pool| ==> Occurrences(vs, pool[j]) <= Occurrences(vs, pool[m])
    requires Dominates(vs, RemoveAt(pool, m), tail)
    ensures Dominates(vs, pool, [(pool[m], Occurrences(vs, pool[m]))] + tail)
  {
    var rest := RemoveAt(pool, m);
    RemoveAtMembers(pool, m);
    var r := [(pool[m], Occurrences(vs, pool[m]))] + tail;
    ConsLabels((pool[m], Occurrences(vs, pool[m])), tail);
    forall j | 0 <= j < |pool| && pool[j] !in Labels(r)
      ensures forall i :: 0 <= i < |r| ==> Occurrences(vs, pool[j]) <= r[i].1
    {
      assert j != m;
      var j' :| 0 <= j' < |rest| && rest[j'] == pool[j];
      assert rest[j'] !in Labels(tail);
    }
  }

  /** Putting a most frequent member in front of a ranking of the others
      ranks the whole pool. */
  lemma RankingCons<T>(vs: seq<T>, pool: seq<T>, k: nat, m: nat, tail: seq<(T, nat)>)
    requires NoDup(pool) && k > 0 && m < |pool|
    requires forall j :: 0 <= j < |pool| ==> Occurrences(vs, pool[j]) <= Occurrences(vs, pool[m])
    requires IsRanking(vs, RemoveAt(pool, m), k - 1, tail)
    ensures IsRanking(vs, pool, k, [(pool[m], Occurrences(vs, pool[m]))] + tail)
  {
    var rest := RemoveAt(pool, m);
    RemoveAtMembers(pool, m);
    var x := (pool[m], Occurrences(vs, pool[m]));
    ConsLabels(x, tail);
    assert forall i :: 0 <= i < |tail| ==> tail[i].0 in rest;
    assert CountsOf(vs, pool, tail);
    ConsDescending(vs, pool, m, tail);
    ConsDominates(vs, pool, m, tail);
  }

  /** The first `k` members of `pool` by descending occurrence count in `vs`,
      each paired with its count; ties go to the earlier member. */
  function Ranked<T(==)>(vs: seq<T>, pool: seq<T>, k: nat): (r: seq<(T, nat)>)
    requires NoDup(pool)
    ensures |r| == (if k < |pool| then k else |pool|)
    decreases k
  {
    if k == 0 || |pool| == 0 then []
    else
      var m := MostFrequent(vs, pool);
      RemoveAtMembers(pool, m);
      [(pool[m], Occurrences(vs, pool[m]))] + Ranked(vs, RemoveAt(pool, m), k - 1)
  }

  /** `Ranked` meets the top-`k` specification `IsRanking`. */
  lemma {:induction false} RankedIsRanking<T>(vs: seq<T>, pool: seq<T>, k: nat)
    requires NoDup(pool)
    ensures IsRanking(vs, pool, k, Ranked(vs, pool, k))
    decreases k
  {
    if k > 0 && |pool| > 0 {
      var m := MostFrequent(vs, pool);
      RemoveAtMembers(pool, m);
      var tail := Ranked(vs, RemoveAt(pool, m), k - 1);
      RankedIsRanking(vs, RemoveAt(pool, m), k - 1);
      RankingCons(vs, pool, k, m, tail);
      assert Ranked(vs, pool, k) == [(pool[m], Occurrences(vs, pool[m]))] + tail;
    } else {
      assert Ranked(vs, pool, k) == [];
    }
  }

  /** A shorter ranking is a prefix of a longer one: the choice of each
      entry does not depend on how many entries are asked for. */
  lemma {:induction false} RankedPrefix<T>(vs: seq<T>, pool: seq<T>, k: nat, k': nat)
    requires NoDup(pool) && k <= k'
    ensures IsPrefix(Ranked(vs, pool, k), Ranked(vs, pool, k'))
    decreases k
  {
    if k > 0 && |pool| > 0 {
      var m := MostFrequent(vs, pool);
      RemoveAtMembers(pool, m);
      var x := (pool[m], Occurrences(vs, pool[m]));
      var short := Ranked(vs, RemoveAt(pool, m), k - 1);
      var long := Ranked(vs, RemoveAt(pool, m), k' - 1);
      RankedPrefix(vs, RemoveAt(pool, m), k - 1, k' - 1);
      PrefixCons(x, short, long);
      assert Ranked(vs, pool, k) == [x] + short;
      assert Ranked(vs, pool, k') == [x] + long;
    } else {
      assert Ranked(vs, pool, k) == [];
    }
  }

  predicate Increasing(s: seq<real>) {
    forall i, j :: 0 <= i < j < |s| ==> s[i] < s[j]
  }

  lemma IncreasingSnoc(s: seq<real>, x: real)
    requires Increasing(s) && forall i :: 0 <= i < |s| ==> s[i] < x
    ensures Increasing(s + [x])
  {
  }

  /** `x` added to an increasing sequence, which stays increasing. */
  function Insert(x: real, s: seq<real>): (r: seq<real>)
    requires Increasing(s)
    ensures Increasing(r)
    ensures forall y :: y in r <==> y == x || y in s
    decreases |s|
  {
    if |s| == 0 then [x]
    else if x < s[0] then [x] + s
    else if x == s[0] then s
    else
      var p := Insert(x, s[1..]);
      assert forall y :: y in s <==> y == s[0] || y in s[1..];
      assert forall k :: 0 <= k < |s| - 1 ==> s[0] < s[1..][k];
      assert forall k :: 0 <= k < |p| ==> s[0] < p[k] by {
        forall k | 0 <= k < |p|
          ensures s[0] < p[k]
        {
          assert p[k] in p;
        }
      }
      [s[0]] + p
  }

  /** The distinct values of `xs` in ascending order (the sorted group keys of a `groupby`). */
  function SortedKeys(xs: seq<real>): (r: seq<real>)
    ensures Increasing(r)
    ensures forall y :: y in r <==> y in xs
    decreases |xs|
  {
    if |xs| == 0 then []
    else
      var n := |xs| - 1;
      assert forall y :: y in xs <==> y == xs[n] || y in xs[..n] by {
        assert xs == xs[..n] + [xs[n]];
      }
      Insert(xs[n], SortedKeys(xs[..n]))
  }
}
