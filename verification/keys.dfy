/** Keys, their per-depth codes, the string order the builder sorts by, and the sorted key table. */
module Keys {
  import opened Wrappers

  /** A key is the sequence of its symbols (the code points of a string key). */
  type Key = seq<nat>

  /** The key of a string: one symbol per character. */
  function Ord(s: string): (k: Key)
    ensures |k| == |s|
    ensures forall i :: 0 <= i < |s| ==> k[i] == s[i] as nat
  {
    seq(|s|, i requires 0 <= i < |s| => s[i] as nat)
  }

  /** Different strings have different keys, so a key names one string. */
  lemma OrdInjective(s: string, t: string)
    requires Ord(s) == Ord(t)
    ensures s == t
  {
    assert |s| == |t|;
    forall i | 0 <= i < |s|
      ensures s[i] == t[i]
    {
      assert Ord(s)[i] == Ord(t)[i];
    }
  }

  /** A string starts with another exactly when its key starts with the other's key, so prefix
      queries on keys answer prefix questions on strings. */
  lemma OrdPrefix(p: string, s: string)
    ensures IsPrefix(Ord(p), Ord(s)) <==> p <= s
  {
    if IsPrefix(Ord(p), Ord(s)) {
      forall i | 0 <= i < |p|
        ensures p[i] == s[i]
      {
        assert Ord(s)[..|p|][i] == Ord(p)[i];
      }
    }
    if p <= s {
      assert Ord(s)[..|p|] == Ord(p);
    }
  }

  /** The code a key contributes at depth `d`: 0 when the key ends exactly there,
      otherwise its symbol at `d` plus one. */
  function CodeAt(k: Key, d: nat): nat
    requires d <= |k|
  {
    if |k| == d then 0 else k[d] + 1
  }

  predicate IsPrefix(p: Key, k: Key) {
    |p| <= |k| && k[..|p|] == p
  }

  /** Lexicographic order on symbols, a proper prefix coming first: the order of string comparison. */
  predicate Less(a: Key, b: Key)
  {
    |b| > 0 && (|a| == 0 || a[0] < b[0] || (a[0] == b[0] && Less(a[1..], b[1..])))
  }

  lemma {:induction false} LessIrreflexive(a: Key)
    ensures !Less(a, a)
  {
    if |a| > 0 {
      LessIrreflexive(a[1..]);
    }
  }

  lemma {:induction false} LessAsymmetric(a: Key, b: Key)
    requires Less(a, b)
    ensures !Less(b, a)
  {
    if |a| > 0 && a[0] == b[0] {
      LessAsymmetric(a[1..], b[1..]);
    }
  }

  lemma {:induction false} LessTransitive(a: Key, b: Key, c: Key)
    requires Less(a, b) && Less(b, c)
    ensures Less(a, c)
  {
    if |a| > 0 && a[0] == b[0] && b[0] == c[0] {
      LessTransitive(a[1..], b[1..], c[1..]);
    }
  }

  lemma {:induction false} LessTotal(a: Key, b: Key)
    requires a != b
    ensures Less(a, b) || Less(b, a)
  {
    if |a| > 0 && |b| > 0 && a[0] == b[0] {
      assert a == [a[0]] + a[1..];
      assert b == [b[0]] + b[1..];
      LessTotal(a[1..], b[1..]);
    }
  }

  /** Two keys that agree on their first `d` symbols are ordered by their codes at depth `d`:
      this is why a sorted range yields its sibling codes in non-decreasing order. */
  lemma {:induction false} LessOrdersCodes(a: Key, b: Key, d: nat)
    requires d <= |a| && d <= |b| && a[..d] == b[..d]
    requires Less(a, b)
    ensures CodeAt(a, d) <= CodeAt(b, d)
  {
    if d > 0 {
      assert a[0] == a[..d][0] == b[..d][0] == b[0];
      assert a[1..][..d - 1] == a[..d][1..] == b[..d][1..] == b[1..][..d - 1];
      LessOrdersCodes(a[1..], b[1..], d - 1);
    }
  }

  /** Strictly ascending, hence duplicate-free. */
  predicate StrictlySorted(ks: seq<Key>) {
    forall i, j {:trigger Less(ks[i], ks[j])} :: 0 <= i < j < |ks| ==> Less(ks[i], ks[j])
  }

  /** A proper prefix sorts first. */
  lemma {:induction false} PrefixLess(a: Key, b: Key)
    requires IsPrefix(a, b) && |a| < |b|
    ensures Less(a, b)
  {
    if |a| > 0 {
      assert a[1..] == b[1..][..|a| - 1];
      PrefixLess(a[1..], b[1..]);
    }
  }

  /** In a sorted table the order of two keys is the order of their positions. */
  lemma SortedPositions(ks: seq<Key>, i: nat, j: nat)
    requires StrictlySorted(ks) && i < |ks| && j < |ks| && Less(ks[i], ks[j])
    ensures i < j
  {
    if j < i {
      LessAsymmetric(ks[j], ks[i]);
    } else if i == j {
      LessIrreflexive(ks[i]);
    }
  }

  lemma SortedDistinct(ks: seq<Key>, i: nat, j: nat)
    requires StrictlySorted(ks)
    requires i < |ks| && j < |ks| && i != j
    ensures ks[i] != ks[j]
  {
    if i < j {
      LessIrreflexive(ks[i]);
    } else {
      LessIrreflexive(ks[j]);
    }
  }

  /** The index of `k` among `ks[lo..hi]`, if it occurs there. */
  function KeyIndex(ks: seq<Key>, lo: nat, hi: nat, k: Key): (r: Option<nat>)
    requires lo <= hi <= |ks|
    ensures r.Some? ==> lo <= r.value < hi && ks[r.value] == k
    ensures r.None? ==> forall i :: lo <= i < hi ==> ks[i] != k
    decreases hi - lo
  {
    if lo == hi then None
    else if ks[lo] == k then Some(lo)
    else KeyIndex(ks, lo + 1, hi, k)
  }

  /** The length of the longest key (0 for an empty table). */
  function MaxLen(ks: seq<Key>): (m: nat)
    ensures forall i :: 0 <= i < |ks| ==> |ks[i]| <= m
    ensures |ks| > 0 ==> exists i :: 0 <= i < |ks| && |ks[i]| == m
  {
    if |ks| == 0 then 0
    else
      var m := MaxLen(ks[1..]);
      assert forall i :: 1 <= i < |ks| ==> ks[i] == ks[1..][i - 1];
      if |ks[0]| >= m then |ks[0]| else m
  }

  // ---------------------------------------------------------------------------
  // The builder's first step: sort the (key, value) pairs of the input mapping.
  // ---------------------------------------------------------------------------

  /** No key occurs twice; a mapping's items always satisfy this. */
  predicate DistinctKeys<V>(es: seq<(Key, V)>) {
    forall i, j :: 0 <= i < |es| && 0 <= j < |es| && i != j ==> es[i].0 != es[j].0
  }

  predicate SortedEntries<V>(es: seq<(Key, V)>) {
    forall i, j :: 0 <= i < j < |es| ==> Less(es[i].0, es[j].0)
  }

  function KeysOf<V>(es: seq<(Key, V)>): (ks: seq<Key>)
    ensures |ks| == |es|
    ensures forall i :: 0 <= i < |es| ==> ks[i] == es[i].0
  {
    seq(|es|, i requires 0 <= i < |es| => es[i].0)
  }

  function ValuesOf<V>(es: seq<(Key, V)>): (vs: seq<V>)
    ensures |vs| == |es|
    ensures forall i :: 0 <= i < |es| ==> vs[i] == es[i].1
  {
    seq(|es|, i requires 0 <= i < |es| => es[i].1)
  }

  /** Places `e` into an ascending table of pairs whose keys all differ from `e`'s. */
  function InsertEntry<V>(e: (Key, V), s: seq<(Key, V)>): (r: seq<(Key, V)>)
    requires SortedEntries(s)
    requires forall i :: 0 <= i < |s| ==> s[i].0 != e.0
    ensures SortedEntries(r)
    ensures multiset(r) == multiset(s) + multiset{e}
  {
    if |s| == 0 then [e]
    else if Less(e.0, s[0].0) then
      LessBeforeHead(e, s);
      [e] + s
    else
      var tail := InsertEntry(e, s[1..]);
      HeadBeforeInsert(e, s, tail);
      assert s == [s[0]] + s[1..];
      [s[0]] + tail
  }

  lemma LessBeforeHead<V>(e: (Key, V), s: seq<(Key, V)>)
    requires SortedEntries(s) && |s| > 0 && Less(e.0, s[0].0)
    ensures SortedEntries([e] + s)
  {
    forall j | 0 < j < |s| {
      LessTransitive(e.0, s[0].0, s[j].0);
    }
  }

  lemma HeadBeforeInsert<V>(e: (Key, V), s: seq<(Key, V)>, tail: seq<(Key, V)>)
    requires SortedEntries(s) && |s| > 0 && !Less(e.0, s[0].0) && s[0].0 != e.0
    requires SortedEntries(tail) && multiset(tail) == multiset(s[1..]) + multiset{e}
    ensures SortedEntries([s[0]] + tail)
  {
    LessTotal(e.0, s[0].0);
    forall j | 0 <= j < |tail|
      ensures Less(s[0].0, tail[j].0)
    {
      assert tail[j] in multiset(tail);
      if tail[j] != e {
        assert tail[j] in multiset(s[1..]);
        var k :| 0 <= k < |s[1..]| && s[1..][k] == tail[j];
        assert s[k + 1] == tail[j];
      }
    }
  }

  /** Sorts the pairs by key, as `sorted(dictionary.items(), key=lambda x: x[0])` does. */
  function SortEntries<V>(es: seq<(Key, V)>): (r: seq<(Key, V)>)
    requires DistinctKeys(es)
    ensures SortedEntries(r)
    ensures multiset(r) == multiset(es)
    ensures |r| == |es|
  {
    if |es| == 0 then []
    else
      var rest := SortEntries(es[1..]);
      assert es == [es[0]] + es[1..];
      forall i | 0 <= i < |rest|
        ensures rest[i].0 != es[0].0
      {
        assert rest[i] in multiset(es[1..]);
        var k :| 0 <= k < |es[1..]| && es[1..][k] == rest[i];
        assert es[k + 1] == rest[i];
      }
      InsertEntry(es[0], rest)
  }

  lemma SortedEntriesKeys<V>(es: seq<(Key, V)>)
    requires SortedEntries(es)
    ensures StrictlySorted(KeysOf(es))
  {
  }
}
