/** Keep-first deduplication, as `drop_duplicates(subset=..., keep="first")`
    does it, over rows compared through a key projection. */
module Duplicates {
  import opened Seqs

  /** The keys that occur among the rows of `s`. */
  function KeySet<T, K>(s: seq<T>, key: T -> K): set<K> {
    set i | 0 <= i < |s| :: key(s[i])
  }

  /** No two rows agree on their key. */
  predicate UniqueKeys<T, K(==)>(s: seq<T>, key: T -> K) {
    forall i, j :: 0 <= i < j < |s| ==> key(s[i]) != key(s[j])
  }

  lemma KeySetSnoc<T, K>(s: seq<T>, x: T, key: T -> K)
    ensures KeySet(s + [x], key) == KeySet(s, key) + {key(x)}
  {
    var s' := s + [x];
    assert forall i :: 0 <= i < |s| ==> s'[i] == s[i];
    assert s'[|s|] == x;
  }

  /** Scans the rows in order and keeps a row only when its key has not been
      seen before. Never grows, keeps every key, and leaves no two rows with
      the same key. */
  function KeepFirst<T, K(==)>(s: seq<T>, key: T -> K): (r: seq<T>)
    ensures |r| <= |s|
    ensures KeySet(r, key) == KeySet(s, key)
    ensures UniqueKeys(r, key)
    decreases |s|
  {
    if |s| == 0 then []
    else
      var n := |s| - 1;
      var p := KeepFirst(s[..n], key);
      KeySetSnoc(s[..n], s[n], key);
      assert s == s[..n] + [s[n]];
      if key(s[n]) in KeySet(s[..n], key) then p
      else
        KeySetSnoc(p, s[n], key);
        assert forall i :: 0 <= i < |p| ==> key(p[i]) in KeySet(p, key);
        p + [s[n]]
  }

  /** pandas' `~frame.duplicated(subset, keep="first")`: true at the rows whose
      key does not occur at any earlier row. */
  function FirstOccurrenceMask<T, K(==)>(s: seq<T>, key: T -> K): (m: seq<bool>)
    ensures |m| == |s|
  {
    seq(|s|, i requires 0 <= i < |s| => forall j | 0 <= j < i :: key(s[j]) != key(s[i]))
  }

  lemma MaskOfPrefix<T, K>(s: seq<T>, key: T -> K, n: nat)
    requires n < |s|
    ensures FirstOccurrenceMask(s, key)[..n] == FirstOccurrenceMask(s[..n], key)
  {
    var m := FirstOccurrenceMask(s, key);
    var pre := s[..n];
    forall i | 0 <= i < n
      ensures m[..n][i] == FirstOccurrenceMask(pre, key)[i]
    {
      assert forall j :: 0 <= j < i ==> pre[j] == s[j];
    }
  }

  lemma MaskAtEnd<T, K>(s: seq<T>, key: T -> K)
    requires |s| > 0
    ensures FirstOccurrenceMask(s, key)[|s| - 1] <==> key(s[|s| - 1]) !in KeySet(s[..|s| - 1], key)
  {
    var n := |s| - 1;
    if key(s[n]) in KeySet(s[..n], key) {
      var j :| 0 <= j < n && key(s[..n][j]) == key(s[n]);
      assert key(s[j]) == key(s[n]);
    }
  }

  /** The scan agrees with the mask definition: `KeepFirst` is exactly the
      order-preserving selection of the first row of each key. */
  lemma {:induction false} KeepFirstIsMaskSelection<T, K>(s: seq<T>, key: T -> K)
    ensures KeepFirst(s, key) == Filter(s, FirstOccurrenceMask(s, key))
    decreases |s|
  {
    if |s| > 0 {
      var n := |s| - 1;
      var m := FirstOccurrenceMask(s, key);
      var pre := s[..n];
      var p := KeepFirst(pre, key);
      assert KeepFirst(s, key) == if key(s[n]) in KeySet(pre, key) then p else p + [s[n]];
      assert Filter(s, m) == Filter(pre, m[..n]) + (if m[n] then [s[n]] else []);
      KeepFirstIsMaskSelection(pre, key);
      MaskOfPrefix(s, key, n);
      MaskAtEnd(s, key);
    }
  }

  /** Rows that already have distinct keys are left as they are. */
  lemma {:induction false} KeepFirstOfUnique<T, K>(s: seq<T>, key: T -> K)
    requires UniqueKeys(s, key)
    ensures KeepFirst(s, key) == s
    decreases |s|
  {
    if |s| > 0 {
      var n := |s| - 1;
      assert UniqueKeys(s[..n], key);
      KeepFirstOfUnique(s[..n], key);
      assert key(s[n]) !in KeySet(s[..n], key);
      assert s == s[..n] + [s[n]];
    }
  }

  /** Deduplicating twice is deduplicating once. */
  lemma KeepFirstIdempotent<T, K>(s: seq<T>, key: T -> K)
    ensures KeepFirst(KeepFirst(s, key), key) == KeepFirst(s, key)
  {
    KeepFirstOfUnique(KeepFirst(s, key), key);
  }

  /** Every kept row is a row of the input. */
  lemma KeepFirstRowsFromInput<T, K>(s: seq<T>, key: T -> K)
    ensures forall k :: 0 <= k < |KeepFirst(s, key)| ==> KeepFirst(s, key)[k] in s
  {
    KeepFirstIsMaskSelection(s, key);
  }
}
