/** Generic facts about sequences: duplicate-freedom, positions and mask filtering. */
module Seqs {

  /** No element occurs twice. */
  predicate NoDup<T(==)>(s: seq<T>) {
    forall i, j :: 0 <= i < j < |s| ==> s[i] != s[j]
  }

  /** `p` is an initial segment of `q`. */
  ghost predicate IsPrefix<T>(p: seq<T>, q: seq<T>) {
    |p| <= |q| && forall i :: 0 <= i < |p| ==> p[i] == q[i]
  }

  lemma PrefixCons<T>(x: T, p: seq<T>, q: seq<T>)
    requires IsPrefix(p, q)
    ensures IsPrefix([x] + p, [x] + q)
  {
    var a, b := [x] + p, [x] + q;
    forall i | 0 < i < |a|
      ensures a[i] == b[i]
    {
      assert a[i] == p[i - 1] && b[i] == q[i - 1];
    }
  }

  lemma PrefixSlice<T>(p: seq<T>, q: seq<T>)
    requires IsPrefix(p, q)
    ensures p == q[..|p|]
  {
  }

  /** Position of the first occurrence of `x` in `s`. */
  function IndexOf<T(==)>(s: seq<T>, x: T): (k: nat)
    requires x in s
    ensures k < |s| && s[k] == x
    ensures forall j :: 0 <= j < k ==> s[j] != x
  {
    if s[0] == x then 0 else 1 + IndexOf(s[1..], x)
  }

  lemma IndexOfNoDup<T>(s: seq<T>, k: nat)
    requires NoDup(s) && k < |s|
    ensures IndexOf(s, s[k]) == k
  {
  }

  /** The first occurrence of an element of a prefix lies in that prefix. */
  lemma {:induction false} IndexOfPrefix<T>(s: seq<T>, n: nat, x: T)
    requires n <= |s| && x in s[..n]
    ensures IndexOf(s, x) == IndexOf(s[..n], x) < n
  {
    var k := IndexOf(s[..n], x);
    var m := IndexOf(s, x);
    assert s[..n][k] == s[k];
  }

  /**
   * Boolean-mask selection, as `frame[mask]` does: the elements whose mask
   * entry is true, in their original order.
   */
  function Filter<T>(s: seq<T>, keep: seq<bool>): (r: seq<T>)
    requires |keep| == |s|
    ensures |r| <= |s|
    ensures forall k :: 0 <= k < |r| ==> r[k] in s
    ensures forall i :: 0 <= i < |s| && keep[i] ==> s[i] in r
    decreases |s|
  {
    if |s| == 0 then []
    else
      var n := |s| - 1;
      var p := Filter(s[..n], keep[..n]);
      assert forall i :: 0 <= i < n ==> s[..n][i] == s[i] && keep[..n][i] == keep[i];
      if keep[n] then p + [s[n]] else p
  }

  /** `x` sits in `s` at a position whose mask entry is true. */
  predicate SelectedFrom<T(==)>(s: seq<T>, keep: seq<bool>, x: T)
    requires |keep| == |s|
  {
    exists i :: 0 <= i < |s| && keep[i] && s[i] == x
  }

  /** Every selected element sits at a position whose mask entry is true. */
  lemma {:induction false} FilterFrom<T>(s: seq<T>, keep: seq<bool>)
    requires |keep| == |s|
    ensures forall k :: 0 <= k < |Filter(s, keep)| ==> SelectedFrom(s, keep, Filter(s, keep)[k])
    decreases |s|
  {
    if |s| > 0 {
      var n := |s| - 1;
      var p := Filter(s[..n], keep[..n]);
      FilterFrom(s[..n], keep[..n]);
      var r := Filter(s, keep);
      assert r == if keep[n] then p + [s[n]] else p;
      forall k | 0 <= k < |r|
        ensures SelectedFrom(s, keep, r[k])
      {
        if k < |p| {
          assert SelectedFrom(s[..n], keep[..n], p[k]);
          var i :| 0 <= i < n && keep[..n][i] && s[..n][i] == p[k];
          assert keep[i] && s[i] == r[k];
        } else {
          assert keep[n] && s[n] == r[k];
        }
      }
    }
  }

  /** Selection keeps the relative order of a duplicate-free sequence. */
  lemma {:induction false} FilterKeepsOrder<T>(s: seq<T>, keep: seq<bool>)
    requires |keep| == |s| && NoDup(s)
    ensures NoDup(Filter(s, keep))
    ensures forall i, j :: 0 <= i < j < |Filter(s, keep)| ==>
      IndexOf(s, Filter(s, keep)[i]) < IndexOf(s, Filter(s, keep)[j])
    decreases |s|
  {
    if |s| > 0 {
      var n := |s| - 1;
      var pre := s[..n];
      var p := Filter(pre, keep[..n]);
      assert NoDup(pre) by {
        assert forall i :: 0 <= i < n ==> pre[i] == s[i];
      }
      FilterKeepsOrder(pre, keep[..n]);
      assert forall i :: 0 <= i < |p| ==> p[i] in pre;
      if keep[n] {
        assert p + [s[n]] == Filter(s, keep);
        OrderedSnoc(s, p);
      } else {
        assert p == Filter(s, keep);
        forall i, j | 0 <= i < j < |p|
          ensures IndexOf(s, p[i]) < IndexOf(s, p[j])
        {
          IndexOfPrefix(s, n, p[i]);
          IndexOfPrefix(s, n, p[j]);
        }
      }
    }
  }

  /** Appending the last element of `s` to an ordered selection from the rest
      keeps it ordered. */
  lemma OrderedSnoc<T>(s: seq<T>, p: seq<T>)
    requires |s| > 0 && NoDup(s)
    requires forall i :: 0 <= i < |p| ==> p[i] in s[..|s| - 1]
    requires NoDup(p)
    requires forall i, j :: 0 <= i < j < |p| ==> IndexOf(s[..|s| - 1], p[i]) < IndexOf(s[..|s| - 1], p[j])
    ensures NoDup(p + [s[|s| - 1]])
    ensures var r := p + [s[|s| - 1]];
      forall i, j :: 0 <= i < j < |r| ==> IndexOf(s, r[i]) < IndexOf(s, r[j])
  {
    var n := |s| - 1;
    var r := p + [s[n]];
    IndexOfNoDup(s, n);
    forall i | 0 <= i < |p|
      ensures IndexOf(s, p[i]) == IndexOf(s[..n], p[i]) < n
    {
      IndexOfPrefix(s, n, p[i]);
    }
    forall i, j | 0 <= i < j < |r|
      ensures r[i] != r[j] && IndexOf(s, r[i]) < IndexOf(s, r[j])
    {
      assert r[i] == p[i];
    }
  }

  /** `[x for x in xs if x in present]`. */
  function Keep<T(==)>(xs: seq<T>, present: seq<T>): (r: seq<T>)
    ensures forall k :: 0 <= k < |r| ==> r[k] in xs && r[k] in present
    ensures forall i :: 0 <= i < |xs| && xs[i] in present ==> xs[i] in r
  {
    var mask := seq(|xs|, i requires 0 <= i < |xs| => xs[i] in present);
    FilterFrom(xs, mask);
    Filter(xs, mask)
  }

  /** Keeping the members of a duplicate-free `xs` that are in `present`
      gives each of them once, in `xs` order. */
  lemma KeepSelection<T>(xs: seq<T>, present: seq<T>)
    requires NoDup(xs)
    ensures NoDup(Keep(xs, present))
    ensures forall i, j :: 0 <= i < j < |Keep(xs, present)| ==>
      IndexOf(xs, Keep(xs, present)[i]) < IndexOf(xs, Keep(xs, present)[j])
    ensures |Keep(xs, present)| == |set x | x in xs && x in present|
  {
    var r := Keep(xs, present);
    FilterKeepsOrder(xs, seq(|xs|, i requires 0 <= i < |xs| => xs[i] in present));
    NoDupCard(r);
    assert (set x | x in r) == (set x | x in xs && x in present);
  }

  /** A duplicate-free sequence has as many elements as its set. */
  lemma {:induction false} NoDupCard<T>(s: seq<T>)
    requires NoDup(s)
    ensures |set x | x in s| == |s|
    decreases |s|
  {
    if |s| > 0 {
      var n := |s| - 1;
      NoDupCard(s[..n]);
      assert s[n] !in s[..n];
      assert (set x | x in s) == (set x | x in s[..n]) + {s[n]} by {
        assert s == s[..n] + [s[n]];
      }
    }
  }

  /** A subset is no larger than the set containing it. */
  lemma SubsetCard<T>(small: set<T>, big: set<T>)
    requires small <= big
    ensures |small| <= |big|
  {
    assert big == small + (big - small);
  }
}
