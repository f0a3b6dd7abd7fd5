/** The queries of the static trie that walk along one key: the prefix walk behind `prefixes`,
    `prefix_items`, `longest_prefix` and `has_prefix`, and `modify_value`. The queries that list
    the keys below a prefix live in the Listing module. */
module Query {
  import opened Wrappers
  import opened Keys
  import opened DoubleArray
  import opened Layout
  import opened Builder

  // ---------------------------------------------------------------------------
  // `_prefixes` and the queries built on it.
  // ---------------------------------------------------------------------------

  /** What `_prefixes` reports at anchor `b` after the first `i` symbols of `key`: the pair of
      that prefix and its value when `b` is a terminal, nothing otherwise. */
  function TerminalItem<V>(tr: Trie<V>, b: int, key: Key, i: nat): seq<(Key, V)>
    requires MarkersIndexValues(tr) && i <= |key|
  {
    match Terminal(tr.base, tr.check, b)
    case None => []
    case Some(n) => [(key[..i], tr.values[n])]
  }

  /** `_prefixes` from symbol `i` on, standing at anchor `b`: report the terminal here, then
      follow `key[i]`, stopping at the first missing transition. */
  function PrefixesFrom<V>(tr: Trie<V>, b: int, key: Key, i: nat): seq<(Key, V)>
    requires MarkersIndexValues(tr) && i <= |key|
    decreases |key| - i
  {
    var here := TerminalItem(tr, b, key, i);
    if i == |key| then here
    else
      match Child(tr.base, tr.check, b, key[i] + 1)
      case None => here
      case Some(next) => here + PrefixesFrom(tr, next, key, i + 1)
  }

  /** The prefix of `key` of length `m + 1` walks one transition past the prefix of length `m`. */
  lemma WalkStep(base: seq<int>, check: seq<int>, root: int, key: Key, m: nat)
    requires m < |key|
    ensures Walk(base, check, root, key[..m + 1]) ==
      match Walk(base, check, root, key[..m])
      case None => None
      case Some(b) => Child(base, check, b, key[m] + 1)
  {
    assert key[..m + 1] == key[..m] + [key[m]];
    WalkAppend(base, check, root, key[..m], [key[m]]);
    match Walk(base, check, root, key[..m])
    case None =>
    case Some(b) =>
      assert [key[m]][1..] == [];
  }

  /** Once a walk along `key` falls off the trie it stays off. */
  lemma {:induction false} WalkStaysOff(base: seq<int>, check: seq<int>, root: int, key: Key, i: nat, m: nat)
    requires i <= m <= |key| && Walk(base, check, root, key[..i]).None?
    ensures Walk(base, check, root, key[..m]).None?
    decreases m - i
  {
    if i < m {
      WalkStep(base, check, root, key, i);
      WalkStaysOff(base, check, root, key, i + 1, m);
    }
  }

  /** From the anchor the first `i` symbols lead to, `_prefixes` reports, in order of length,
      exactly the longer-or-equal prefixes of `key` that `get` finds, each with its value. */
  lemma {:induction false} PrefixesFromFacts<V>(tr: Trie<V>, b: int, key: Key, i: nat)
    requires |tr.base| > 0 && MarkersIndexValues(tr) && i <= |key|
    requires Walk(tr.base, tr.check, tr.base[0], key[..i]) == Some(b)
    ensures forall j :: 0 <= j < |PrefixesFrom(tr, b, key, i)| ==>
              && i <= |PrefixesFrom(tr, b, key, i)[j].0| <= |key|
              && PrefixesFrom(tr, b, key, i)[j].0 == key[..|PrefixesFrom(tr, b, key, i)[j].0|]
              && Get(tr, PrefixesFrom(tr, b, key, i)[j].0) == Some(PrefixesFrom(tr, b, key, i)[j].1)
    ensures forall j, j' :: 0 <= j < j' < |PrefixesFrom(tr, b, key, i)| ==>
              |PrefixesFrom(tr, b, key, i)[j].0| < |PrefixesFrom(tr, b, key, i)[j'].0|
    ensures forall m :: i <= m <= |key| && Get(tr, key[..m]).Some? ==>
              (key[..m], Get(tr, key[..m]).value) in PrefixesFrom(tr, b, key, i)
    decreases |key| - i
  {
    var r := PrefixesFrom(tr, b, key, i);
    var here := TerminalItem(tr, b, key, i);
    assert |here| <= 1;
    if |here| == 1 {
      assert Get(tr, key[..i]) == Some(here[0].1);
      assert |key[..i]| == i;
    }
    if i < |key| {
      WalkStep(tr.base, tr.check, tr.base[0], key, i);
      match Child(tr.base, tr.check, b, key[i] + 1)
      case None =>
        forall m | i < m <= |key|
          ensures Get(tr, key[..m]).None?
        {
          WalkStaysOff(tr.base, tr.check, tr.base[0], key, i + 1, m);
        }
      case Some(next) =>
        PrefixesFromFacts(tr, next, key, i + 1);
        var rest := PrefixesFrom(tr, next, key, i + 1);
        assert r == here + rest;
        forall m | i < m <= |key| && Get(tr, key[..m]).Some?
          ensures (key[..m], Get(tr, key[..m]).value) in r
        {
          assert (key[..m], Get(tr, key[..m]).value) in rest;
        }
    }
  }

  /** `prefix_items`: the prefixes of `key` that are keys, shortest first, each with its value. */
  function PrefixItems<V>(tr: Trie<V>, key: Key): (r: seq<(Key, V)>)
    requires |tr.base| > 0 && MarkersIndexValues(tr)
    ensures forall j :: 0 <= j < |r| ==> IsPrefix(r[j].0, key) && Get(tr, r[j].0) == Some(r[j].1)
    ensures forall j, j' :: 0 <= j < j' < |r| ==> |r[j].0| < |r[j'].0|
    ensures forall m :: 0 <= m <= |key| && Get(tr, key[..m]).Some? ==> (key[..m], Get(tr, key[..m]).value) in r
  {
    assert key[..0] == [];
    PrefixesFromFacts(tr, tr.base[0], key, 0);
    PrefixesFrom(tr, tr.base[0], key, 0)
  }

  /** `prefixes`: the keys of `prefix_items`, shortest first. A key is reported exactly when it
      is a prefix of `key` that `get` finds. */
  function Prefixes<V>(tr: Trie<V>, key: Key): (r: seq<Key>)
    requires |tr.base| > 0 && MarkersIndexValues(tr)
    ensures |r| == |PrefixItems(tr, key)|
    ensures forall j :: 0 <= j < |r| ==> r[j] == PrefixItems(tr, key)[j].0
    ensures forall p :: p in r <==> IsPrefix(p, key) && Get(tr, p).Some?
  {
    var items := PrefixItems(tr, key);
    seq(|items|, j requires 0 <= j < |items| => items[j].0)
  }

  /** Python's `max(xs, key=size)`: the first element of greatest size. */
  function MaxBy<T>(xs: seq<T>, size: T -> nat): (r: T)
    requires |xs| > 0
    ensures r in xs
    ensures forall j :: 0 <= j < |xs| ==> size(xs[j]) <= size(r)
    ensures exists k :: 0 <= k < |xs| && xs[k] == r && forall j :: 0 <= j < k ==> size(xs[j]) < size(r)
  {
    if |xs| == 1 then xs[0]
    else
      var m := MaxBy(xs[..|xs| - 1], size);
      assert forall j :: 0 <= j < |xs| - 1 ==> xs[j] == xs[..|xs| - 1][j];
      if size(xs[|xs| - 1]) > size(m) then xs[|xs| - 1] else m
  }

  /** When sizes strictly increase, the largest is the last. */
  lemma MaxByLast<T>(xs: seq<T>, size: T -> nat)
    requires |xs| > 0
    requires forall j, j' :: 0 <= j < j' < |xs| ==> size(xs[j]) < size(xs[j'])
    ensures MaxBy(xs, size) == xs[|xs| - 1]
  {
    var r := MaxBy(xs, size);
    var k :| 0 <= k < |xs| && xs[k] == r;
  }

  function KeyLength(k: Key): nat {
    |k|
  }

  function ItemLength<V>(e: (Key, V)): nat {
    |e.0|
  }

  /** `longest_prefix`: the longest prefix of `key` that is a key, if any. */
  function LongestPrefix<V>(tr: Trie<V>, key: Key): (r: Option<Key>)
    requires |tr.base| > 0 && MarkersIndexValues(tr)
    ensures r.None? <==> forall m :: 0 <= m <= |key| ==> Get(tr, key[..m]).None?
    ensures r.Some? ==> IsPrefix(r.value, key) && Get(tr, r.value).Some?
    ensures r.Some? ==> forall m :: |r.value| < m <= |key| ==> Get(tr, key[..m]).None?
  {
    var ps := Prefixes(tr, key);
    var items := PrefixItems(tr, key);
    if |ps| == 0 then
      None
    else
      MaxByLast(ps, KeyLength);
      var last := ps[|ps| - 1];
      assert forall m :: |last| < m <= |key| && Get(tr, key[..m]).Some? ==>
        (key[..m], Get(tr, key[..m]).value) in items;
      Some(MaxBy(ps, KeyLength))
  }

  /** `longest_prefix_item`: the longest prefix of `key` that is a key, with its value. */
  function LongestPrefixItem<V>(tr: Trie<V>, key: Key): (r: Option<(Key, V)>)
    requires |tr.base| > 0 && MarkersIndexValues(tr)
    ensures r.None? <==> forall m :: 0 <= m <= |key| ==> Get(tr, key[..m]).None?
    ensures r.Some? ==> IsPrefix(r.value.0, key) && Get(tr, r.value.0) == Some(r.value.1)
    ensures r.Some? ==> forall m :: |r.value.0| < m <= |key| ==> Get(tr, key[..m]).None?
  {
    var items := PrefixItems(tr, key);
    if |items| == 0 then
      None
    else
      MaxByLast(items, ItemLength);
      var last := items[|items| - 1];
      assert forall m :: |last.0| < m <= |key| && Get(tr, key[..m]).Some? ==>
        (key[..m], Get(tr, key[..m]).value) in items;
      Some(MaxBy(items, ItemLength))
  }

  /** `has_prefix`: some prefix of `key` (the empty one and `key` itself included) is a key. */
  function HasPrefix<V>(tr: Trie<V>, key: Key): (r: bool)
    requires |tr.base| > 0 && MarkersIndexValues(tr)
    ensures r <==> exists m :: 0 <= m <= |key| && Get(tr, key[..m]).Some?
  {
    var items := PrefixItems(tr, key);
    if |Prefixes(tr, key)| != 0 then
      assert IsPrefix(items[0].0, key) && key[..|items[0].0|] == items[0].0;
      true
    else
      false
  }

  // ---------------------------------------------------------------------------
  // `modify_value`.
  // ---------------------------------------------------------------------------

  /** `modify_value`: when `get` finds `key`, replace the value at its index and report true;
      otherwise report false. The tables are never touched. */
  function ModifyValue<V>(tr: Trie<V>, key: Key, val: V): (r: (Trie<V>, bool))
    requires |tr.base| > 0 && MarkersIndexValues(tr)
    ensures r.1 <==> Get(tr, key).Some?
    ensures r.0.base == tr.base && r.0.check == tr.check && r.0.codes == tr.codes
    ensures r.0.keys == tr.keys && r.0.size == tr.size && |r.0.values| == |tr.values|
    ensures r.1 ==> r.0.values == tr.values[ExactMatch(tr, key) := val]
    ensures !r.1 ==> r.0 == tr
  {
    var index := ExactMatch(tr, key);
    if index >= 0 then
      (tr.(values := tr.values[index := val]), true)
    else
      (tr, false)
  }

  /** After `modify_value` on a built trie, `get` returns the new value for `key` and the old
      answer for every other key, and the trie is still a finished build. */
  lemma ModifyThenGet<V>(tr: Trie<V>, key: Key, val: V, k: Key)
    requires Built(tr)
    ensures Built(ModifyValue(tr, key, val).0)
    ensures ModifyValue(tr, key, val).1 ==> Get(ModifyValue(tr, key, val).0, key) == Some(val)
    ensures k != key ==> Get(ModifyValue(tr, key, val).0, k) == Get(tr, k)
  {
    var tr' := ModifyValue(tr, key, val).0;
    var used :| Realises(TablesOf(tr, used), 1, tr.keys, Root(tr.keys), true, None);
    assert TablesOf(tr', used) == TablesOf(tr, used);
    GetBuilt(tr, key);
    GetBuilt(tr, k);
    GetBuilt(tr', key);
    GetBuilt(tr', k);
  }
}
