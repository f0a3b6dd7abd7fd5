/** The DARTS-style double-array trie: builders that take the keys in the order given, a sibling
    scan without the order check, optional value-derived leaf markers, and lookups that answer
    with key indices (or with the values attached to the trie). */
module Darts {
  import opened Wrappers
  import opened Keys
  import opened Siblings
  import opened Tables
  import opened DoubleArray
  import opened Layout
  import opened Builder
  import Query

  // ---------------------------------------------------------------------------
  // The scan without the order check.
  // ---------------------------------------------------------------------------

  /** Where the checked scan succeeds, dropping the check changes nothing. */
  lemma {:induction false} UncheckedFromAgrees(keys: seq<Key>, parent: Node, s: Scan)
    requires InRange(keys, parent, s) && FetchFrom(keys, parent, true, s).Success?
    ensures FetchFrom(keys, parent, false, s) == FetchFrom(keys, parent, true, s)
    decreases parent.right - s.i
  {
    if s.i < parent.right {
      UncheckedFromAgrees(keys, parent, Next(keys, parent, s));
    }
  }

  /** `_fetch` with its order check commented out never fails, and it splits a range exactly as
      the checked scan does wherever the codes ascend. */
  lemma UncheckedScan(keys: seq<Key>, node: Node)
    requires ValidRange(keys, node)
    ensures Fetch(keys, node, false).Success?
    ensures CodesAscending(keys, node.left, node.right, node.depth) ==>
              Fetch(keys, node, false) == Fetch(keys, node, true)
  {
    if CodesAscending(keys, node.left, node.right, node.depth) {
      assert Fetch(keys, node, true) == FetchFrom(keys, node, true, Start(node));
      assert Fetch(keys, node, false) == FetchFrom(keys, node, false, Start(node));
      UncheckedFromAgrees(keys, node, Start(node));
    }
  }

  /** Out-of-order input: where the checked scan stops with the order error, the unchecked one
      opens a second group with the smaller code. */
  lemma UncheckedAcceptsDisorder()
    ensures Fetch([[1], [0]], Root([[1], [0]]), true) == Failure(ORDER_ERROR)
    ensures Fetch([[1], [0]], Root([[1], [0]]), false) == Success([Node(2, 1, 0, 1), Node(1, 1, 1, 2)])
  {
    var keys: seq<Key> := [[1], [0]];
    var root := Root(keys);
    var s0 := Start(root);
    var s1 := Next(keys, root, s0);
    assert s1 == Scan(1, 2, [], Some(0));
    assert Fails(keys, root, true, s1);
    var s2 := Next(keys, root, s1);
    assert s2 == Scan(2, 1, [Node(2, 1, 0, 1)], Some(1));
    assert Fetch(keys, root, true) == FetchFrom(keys, root, true, s0) == FetchFrom(keys, root, true, s1);
    assert Groups(s2.closed, s2.open, s2.prev, 0, 2) == [Node(2, 1, 0, 1), Node(1, 1, 1, 2)];
    assert Fetch(keys, root, false) == FetchFrom(keys, root, false, s0) == FetchFrom(keys, root, false, s1)
        == FetchFrom(keys, root, false, s2);
  }

  // ---------------------------------------------------------------------------
  // `_build`.
  // ---------------------------------------------------------------------------

  /** `_build`: start from the initial tables, split the whole range without the order check and
      insert the groups. Without supplied values every terminal holds its key's index and the
      build cannot fail; with them, a value whose marker `-value - 1` is not negative stops it
      with the value error. For sorted keys the tables realise the root, so a successful build
      from values has stored only natural numbers. */
  method BuildTables(keys: seq<Key>, values: Option<seq<int>>) returns (r: Result<Tables, int>)
    requires |keys| > 0 && ValuesCover(keys, values)
    ensures r.Failure? ==> r.error == VALUE_ERROR && values.Some?
    ensures values.None? ==> r.Success?
    ensures r.Success? ==> Sound(r.value) && r.value.base[0] == 1
    ensures r.Success? && values.None? ==> MarkersBelow(r.value, |keys|)
    ensures r.Success? && StrictlySorted(keys) ==> Realises(r.value, 1, keys, Root(keys), false, values)
    ensures r.Success? && StrictlySorted(keys) && values.Some? ==>
              forall i :: 0 <= i < |keys| ==> values.value[i] >= 0
  {
    var t := Initial();
    var root := Root(keys);
    UncheckedScan(keys, root);
    assert Split(keys, root, false) == Fetch(keys, root, false);
    var sibs := Split(keys, root, false).value;
    var first := PartitionCovers(keys, root, sibs, false, 0);
    if StrictlySorted(keys) {
      RootOrdered(keys);
    }
    var ins := Insert(keys, t, root, sibs, false, values, []);
    if ins.Failure? {
      return Failure(ins.error);
    }
    RootAnchor(t, sibs, ins.value.1);
    if StrictlySorted(keys) && values.Some? {
      StoredValuesNatural(ins.value.0, keys, values.value);
    }
    r := Success(ins.value.0);
  }

  /** Every key of a realised sorted table is found with its own value, and what a terminal
      holds is a natural number, so no stored value is negative. */
  lemma StoredValuesNatural(u: Tables, keys: seq<Key>, vs: seq<int>)
    requires StrictlySorted(keys) && Realises(u, 1, keys, Root(keys), false, Some(vs))
    ensures forall i :: 0 <= i < |keys| ==> vs[i] >= 0
  {
    RootOrdered(keys);
    forall i | 0 <= i < |keys|
      ensures vs[i] >= 0
    {
      LookupRealised(u, 1, keys, Root(keys), false, Some(vs), [], keys[i]);
      assert [] + keys[i] == keys[i];
      KeyIndexAt(keys, 0, |keys|, keys[i], i);
    }
  }

  // ---------------------------------------------------------------------------
  // The built trie and its builders.
  // ---------------------------------------------------------------------------

  /** A DARTS trie: the two tables, the used size and the value list `get` reads, when one was
      given. The build's `used`, `key` and `length` lists are dropped. */
  datatype Darts<V> = Darts(base: seq<int>, check: seq<int>, size: nat, v: Option<seq<V>>)

  /** The working tables of a finished trie, with the `used` marks its build dropped. */
  function TablesOfDarts<V>(d: Darts<V>, used: seq<bool>): Tables {
    Tables(d.base, d.check, used, d.size, 0)
  }

  /** Every leaf marker decodes to an index below `n`. */
  predicate MarkersUnder(base: seq<int>, n: nat) {
    forall p :: 0 <= p < |base| && base[p] < 0 ==> -base[p] - 1 < n
  }

  /** A trie built from `keys` taken in the given order: root anchor 1 in `base[0]`, every leaf
      marker a key index, the value list (if any) one per key, and, for sorted keys, tables that
      realise the root for the `used` marks the build kept. */
  ghost predicate Serves<V>(d: Darts<V>, keys: seq<Key>) {
    && |keys| > 0 && |d.base| == |d.check| > 0 && d.base[0] == 1
    && MarkersUnder(d.base, |keys|)
    && (d.v.Some? ==> |d.v.value| == |keys|)
    && (StrictlySorted(keys) ==> exists used :: Realises(TablesOfDarts(d, used), 1, keys, Root(keys), false, None))
  }

  /** The common tail of the public builders: `_build` without values, on a non-empty list. */
  method BuildFrom<V>(keys: seq<Key>, v: Option<seq<V>>) returns (d: Darts<V>)
    requires |keys| > 0 && (v.Some? ==> |v.value| == |keys|)
    ensures Serves(d, keys) && d.v == v
  {
    var r := BuildTables(keys, None);
    var u := r.value;
    d := Darts(u.base, u.check, u.size, v);
    if StrictlySorted(keys) {
      RealisesGrows(u, TablesOfDarts(d, u.used), -1, 1, keys, Root(keys), false, None);
    }
  }

  /** `build_with_keys`: the list must not be empty (an assertion, modelled as no trie). No value
      list is attached. */
  method BuildWithKeys<V>(keys: seq<Key>) returns (r: Option<Darts<V>>)
    ensures r.None? <==> |keys| == 0
    ensures r.Some? ==> Serves(r.value, keys) && r.value.v.None?
  {
    if |keys| == 0 {
      return None;
    }
    var d := BuildFrom<V>(keys, None);
    r := Some(d);
  }

  /** `build_with_keys_and_values`: the two lists must have the same, non-zero length; the values
      are attached in the given order. */
  method BuildWithKeysAndValues<V>(keys: seq<Key>, values: seq<V>) returns (r: Option<Darts<V>>)
    ensures r.None? <==> |keys| != |values| || |keys| == 0
    ensures r.Some? ==> Serves(r.value, keys) && r.value.v == Some(values)
  {
    if |keys| != |values| || |keys| == 0 {
      return None;
    }
    var d := BuildFrom(keys, Some(values));
    r := Some(d);
  }

  /** `build_with_entries`: split the pairs into a key list and a value list, keeping their order. */
  method BuildWithEntries<V>(entries: seq<(Key, V)>) returns (r: Option<Darts<V>>)
    ensures r.None? <==> |entries| == 0
    ensures r.Some? ==> Serves(r.value, KeysOf(entries)) && r.value.v == Some(ValuesOf(entries))
  {
    r := BuildWithKeysAndValues(KeysOf(entries), ValuesOf(entries));
  }

  /** `build_with_dict`: the mapping's pairs in insertion order, without sorting. When that order
      is the key order, `get` answers every key with its own value and nothing else. */
  method BuildWithDict<V(!new)>(entries: seq<(Key, V)>) returns (r: Option<Darts<V>>)
    requires DistinctKeys(entries)
    ensures r.None? <==> |entries| == 0
    ensures r.Some? ==> Serves(r.value, KeysOf(entries)) && r.value.v == Some(ValuesOf(entries))
    ensures r.Some? && StrictlySorted(KeysOf(entries)) ==>
              forall k, v :: Get(r.value, k, false) == One(v) <==> (k, v) in entries
  {
    r := BuildWithEntries(entries);
    if r.Some? && StrictlySorted(KeysOf(entries)) {
      forall k, v
        ensures Get(r.value, k, false) == One(v) <==> (k, v) in entries
      {
        GetFromEntries(entries, r.value, k, v);
      }
    }
  }

  // ---------------------------------------------------------------------------
  // `_exact_match_search`, `_common_prefix_search` and `get`.
  // ---------------------------------------------------------------------------

  /** `_exact_match_search`: what the terminal reached by `key` holds, or -1. */
  function ExactMatchSearch<V>(d: Darts<V>, key: Key): (r: int)
    requires |d.base| > 0
    ensures r >= -1
    ensures r >= 0 ==> exists p :: 0 <= p < |d.base| && d.base[p] < 0 && r == -d.base[p] - 1
  {
    match LookupFrom(d.base, d.check, d.base[0], key)
    case None => -1
    case Some(i) =>
      var e := Walk(d.base, d.check, d.base[0], key).value;
      assert Terminal(d.base, d.check, e) == Some(i);
      i
  }

  /** What the terminal at anchor `b` holds, as a list of zero or one entries. */
  function TerminalIndex(base: seq<int>, check: seq<int>, b: int): seq<nat> {
    match Terminal(base, check, b)
    case None => []
    case Some(n) => [n]
  }

  /** `_common_prefix_search` from symbol `i` on, standing at anchor `b`: follow `key[i]`, report
      the terminal reached, and stop at the first missing transition. */
  function CommonFrom(base: seq<int>, check: seq<int>, b: int, key: Key, i: nat): (r: seq<nat>)
    requires i <= |key|
    ensures |r| <= |key| - i
    decreases |key| - i
  {
    if i == |key| then []
    else
      match Child(base, check, b, key[i] + 1)
      case None => []
      case Some(next) => TerminalIndex(base, check, next) + CommonFrom(base, check, next, key, i + 1)
  }

  /** Every entry of the search is the contents of some leaf marker. */
  lemma {:induction false} CommonBelow(base: seq<int>, check: seq<int>, b: int, key: Key, i: nat, n: nat)
    requires i <= |key| && MarkersUnder(base, n)
    ensures forall j :: 0 <= j < |CommonFrom(base, check, b, key, i)| ==> CommonFrom(base, check, b, key, i)[j] < n
    decreases |key| - i
  {
    if i < |key| {
      match Child(base, check, b, key[i] + 1)
      case None =>
      case Some(next) =>
        CommonBelow(base, check, next, key, i + 1, n);
    }
  }

  /** `r` is what a search reports from symbol `i` on, with `ms` the prefix lengths it stands
      for: in increasing order, each longer than `i`, each a prefix that `LookupFrom` finds with
      that entry, and every such prefix among them. */
  ghost predicate Reports(base: seq<int>, check: seq<int>, root: int, key: Key, i: nat, r: seq<nat>, ms: seq<nat>) {
    && |ms| == |r|
    && Found(base, check, root, key, i, r, ms)
    && Ascending(ms)
    && Complete(base, check, root, key, i, ms)
  }

  ghost predicate Found(base: seq<int>, check: seq<int>, root: int, key: Key, i: nat, r: seq<nat>, ms: seq<nat>)
    requires |ms| == |r|
  {
    forall j :: 0 <= j < |ms| ==>
      i < ms[j] <= |key| && LookupFrom(base, check, root, key[..ms[j]]) == Some(r[j])
  }

  predicate Ascending(ms: seq<nat>) {
    forall j, j' :: 0 <= j < j' < |ms| ==> ms[j] < ms[j']
  }

  ghost predicate Complete(base: seq<int>, check: seq<int>, root: int, key: Key, i: nat, ms: seq<nat>) {
    forall m :: i < m <= |key| && LookupFrom(base, check, root, key[..m]).Some? ==>
      exists j :: 0 <= j < |ms| && ms[j] == m
  }

  /** The length `i + 1` goes first exactly when the terminal there holds an entry. */
  function Lead(here: seq<nat>, i: nat): seq<nat> {
    if |here| == 1 then [i + 1] else []
  }

  /** One transition more: what the terminal after symbol `i` holds comes first, then the rest. */
  lemma ReportsCons(base: seq<int>, check: seq<int>, root: int, key: Key, i: nat, next: int,
                    rest: seq<nat>, ms: seq<nat>)
    returns (ms': seq<nat>)
    requires i < |key| && Walk(base, check, root, key[..i + 1]) == Some(next)
    requires Reports(base, check, root, key, i + 1, rest, ms)
    ensures Reports(base, check, root, key, i, TerminalIndex(base, check, next) + rest, ms')
  {
    var here := TerminalIndex(base, check, next);
    ms' := Lead(here, i) + ms;
    assert LookupFrom(base, check, root, key[..i + 1]) == Terminal(base, check, next);
    FoundCons(base, check, root, key, i, here, rest, ms);
    AscendingCons(Lead(here, i), ms, i);
    CompleteCons(base, check, root, key, i, here, ms);
  }

  lemma FoundCons(base: seq<int>, check: seq<int>, root: int, key: Key, i: nat, here: seq<nat>,
                  rest: seq<nat>, ms: seq<nat>)
    requires i < |key| && |ms| == |rest| && Found(base, check, root, key, i + 1, rest, ms)
    requires LookupFrom(base, check, root, key[..i + 1]) == if |here| == 1 then Some(here[0]) else None
    requires |here| <= 1
    ensures Found(base, check, root, key, i, here + rest, Lead(here, i) + ms)
  {
    var lead := Lead(here, i);
    var r := here + rest;
    var ms' := lead + ms;
    forall j | 0 <= j < |ms'|
      ensures i < ms'[j] <= |key| && LookupFrom(base, check, root, key[..ms'[j]]) == Some(r[j])
    {
      if j < |lead| {
        assert ms'[j] == i + 1 && r[j] == here[0];
      } else {
        assert ms'[j] == ms[j - |lead|] && r[j] == rest[j - |lead|];
      }
    }
  }

  lemma AscendingCons(lead: seq<nat>, ms: seq<nat>, i: nat)
    requires Ascending(ms) && (forall j :: 0 <= j < |ms| ==> i + 1 < ms[j])
    requires lead == [] || lead == [i + 1]
    ensures Ascending(lead + ms)
  {
    var ms' := lead + ms;
    forall j, j' | 0 <= j < j' < |ms'|
      ensures ms'[j] < ms'[j']
    {
      if j < |lead| {
        assert ms'[j'] == ms[j' - |lead|];
      } else {
        assert ms'[j] == ms[j - |lead|] && ms'[j'] == ms[j' - |lead|];
      }
    }
  }

  lemma CompleteCons(base: seq<int>, check: seq<int>, root: int, key: Key, i: nat, here: seq<nat>,
                     ms: seq<nat>)
    requires Complete(base, check, root, key, i + 1, ms)
    requires i < |key| && (LookupFrom(base, check, root, key[..i + 1]).Some? ==> |here| == 1)
    ensures Complete(base, check, root, key, i, Lead(here, i) + ms)
  {
    var lead := Lead(here, i);
    var ms' := lead + ms;
    forall m | i < m <= |key| && LookupFrom(base, check, root, key[..m]).Some?
      ensures exists j :: 0 <= j < |ms'| && ms'[j] == m
    {
      if m == i + 1 {
        assert ms'[0] == m;
      } else {
        var j :| 0 <= j < |ms| && ms[j] == m;
        assert ms'[|lead| + j] == m;
      }
    }
  }

  /** Past a missing transition nothing is found, so nothing is reported. */
  lemma ReportsNone(base: seq<int>, check: seq<int>, root: int, key: Key, i: nat)
    requires i < |key| && Walk(base, check, root, key[..i + 1]).None?
    ensures Reports(base, check, root, key, i, [], [])
  {
    forall m | i < m <= |key|
      ensures Walk(base, check, root, key[..m]).None?
    {
      Query.WalkStaysOff(base, check, root, key, i + 1, m);
    }
  }

  /** From the anchor the first `i` symbols of `key` lead to, the search reports, in order of
      length, what `LookupFrom` finds for exactly the longer prefixes of `key`: `ms` lists their
      lengths. */
  lemma {:induction false} CommonFromFacts(base: seq<int>, check: seq<int>, root: int, b: int, key: Key, i: nat)
    returns (ms: seq<nat>)
    requires i <= |key| && Walk(base, check, root, key[..i]) == Some(b)
    ensures Reports(base, check, root, key, i, CommonFrom(base, check, b, key, i), ms)
    decreases |key| - i
  {
    if i == |key| {
      return [];
    }
    Query.WalkStep(base, check, root, key, i);
    match Child(base, check, b, key[i] + 1)
    case None =>
      ms := [];
      ReportsNone(base, check, root, key, i);
    case Some(next) =>
      var rest := CommonFromFacts(base, check, root, next, key, i + 1);
      assert CommonFrom(base, check, b, key, i) == TerminalIndex(base, check, next) + CommonFrom(base, check, next, key, i + 1);
      ms := ReportsCons(base, check, root, key, i, next, CommonFrom(base, check, next, key, i + 1), rest);
  }

  /** `_common_prefix_search`: the terminals met along `key`, one per non-empty prefix of `key`
      that is a key, in order of length. The empty prefix is never examined. */
  function CommonPrefixSearch<V>(d: Darts<V>, key: Key): (r: seq<nat>)
    requires |d.base| > 0
    ensures |r| <= |key|
  {
    CommonFrom(d.base, d.check, d.base[0], key, 0)
  }

  /** What `get` answers: nothing, one value, or the list of values of a prefix search. */
  datatype Answer<V> = Nothing | One(value: V) | Many(values: seq<V>)

  /** The trie carries a value list and every leaf marker indexes it. */
  predicate Indexes<V>(d: Darts<V>) {
    |d.base| > 0 && d.v.Some? && MarkersUnder(d.base, |d.v.value|)
  }

  /** `get`: with `prefix_search` the values of the keys that are non-empty prefixes of `key`,
      shortest first, or nothing when there are none; otherwise the value of `key` itself, or
      nothing. */
  function Get<V>(d: Darts<V>, key: Key, prefixSearch: bool): (r: Answer<V>)
    requires Indexes(d)
    ensures prefixSearch ==> !r.One? && (r.Many? ==> |r.values| == |CommonPrefixSearch(d, key)| > 0)
    ensures !prefixSearch ==> !r.Many? && (r.One? <==> ExactMatchSearch(d, key) >= 0)
    ensures prefixSearch ==> (r.Nothing? <==> |CommonPrefixSearch(d, key)| == 0)
    ensures r.One? ==> 0 <= ExactMatchSearch(d, key) < |d.v.value| && r.value == d.v.value[ExactMatchSearch(d, key)]
    ensures r.Many? ==> forall j :: 0 <= j < |r.values| ==>
              0 <= CommonPrefixSearch(d, key)[j] < |d.v.value| && r.values[j] == d.v.value[CommonPrefixSearch(d, key)[j]]
  {
    var vs := d.v.value;
    if prefixSearch then
      var idx := CommonPrefixSearch(d, key);
      CommonBelow(d.base, d.check, d.base[0], key, 0, |vs|);
      if |idx| == 0 then Nothing
      else Many(seq(|idx|, j requires 0 <= j < |idx| => vs[idx[j]]))
    else
      var i := ExactMatchSearch(d, key);
      if i >= 0 then One(vs[i]) else Nothing
  }

  // ---------------------------------------------------------------------------
  // The lookups on a trie built from sorted keys.
  // ---------------------------------------------------------------------------

  /** On sorted keys the walk from the root anchor finds exactly the keys of the table, each at
      its own index. */
  lemma LookupServes<V>(d: Darts<V>, keys: seq<Key>, s: Key)
    requires Serves(d, keys) && StrictlySorted(keys)
    ensures LookupFrom(d.base, d.check, 1, s).Some? <==> s in keys
    ensures forall i :: 0 <= i < |keys| && keys[i] == s ==> LookupFrom(d.base, d.check, 1, s) == Some(i)
  {
    var used :| Realises(TablesOfDarts(d, used), 1, keys, Root(keys), false, None);
    RootOrdered(keys);
    LookupRealised(TablesOfDarts(d, used), 1, keys, Root(keys), false, None, [], s);
    assert [] + s == s;
    forall i | 0 <= i < |keys| && keys[i] == s
      ensures LookupFrom(d.base, d.check, 1, s) == Some(i)
    {
      KeyIndexAt(keys, 0, |keys|, s, i);
    }
  }

  /** `_exact_match_search` on sorted keys: the index of `key` in the table, and -1 for any other
      key. */
  lemma ExactMatchBuilt<V>(d: Darts<V>, keys: seq<Key>, key: Key)
    requires Serves(d, keys) && StrictlySorted(keys)
    ensures ExactMatchSearch(d, key) >= 0 <==> key in keys
    ensures forall i :: 0 <= i < |keys| && keys[i] == key ==> ExactMatchSearch(d, key) == i
  {
    LookupServes(d, keys, key);
  }

  /** `_common_prefix_search` on sorted keys: ascending indices of keys that are non-empty
      prefixes of `key`, and every such key among them. */
  lemma CommonPrefixBuilt<V>(d: Darts<V>, keys: seq<Key>, key: Key)
    requires Serves(d, keys) && StrictlySorted(keys)
    ensures forall j :: 0 <= j < |CommonPrefixSearch(d, key)| ==>
              && CommonPrefixSearch(d, key)[j] < |keys|
              && |keys[CommonPrefixSearch(d, key)[j]]| > 0
              && IsPrefix(keys[CommonPrefixSearch(d, key)[j]], key)
    ensures forall j, j' :: 0 <= j < j' < |CommonPrefixSearch(d, key)| ==>
              CommonPrefixSearch(d, key)[j] < CommonPrefixSearch(d, key)[j']
    ensures forall i :: 0 <= i < |keys| && |keys[i]| > 0 && IsPrefix(keys[i], key) ==>
              i in CommonPrefixSearch(d, key)
  {
    var r := CommonPrefixSearch(d, key);
    assert key[..0] == [];
    var ms := CommonFromFacts(d.base, d.check, 1, 1, key, 0);
    forall j | 0 <= j < |r|
      ensures r[j] < |keys| && keys[r[j]] == key[..ms[j]]
    {
      LookupServes(d, keys, key[..ms[j]]);
    }
    forall j, j' | 0 <= j < j' < |r|
      ensures r[j] < r[j']
    {
      PrefixLess(keys[r[j]], keys[r[j']]);
      SortedPositions(keys, r[j], r[j']);
    }
    forall i | 0 <= i < |keys| && |keys[i]| > 0 && IsPrefix(keys[i], key)
      ensures i in r
    {
      var m := |keys[i]|;
      LookupServes(d, keys, key[..m]);
      var j :| 0 <= j < |ms| && ms[j] == m;
    }
  }

  /** `get` on a trie built from a sorted mapping: the exact lookup of `k` answers `v` exactly
      when the mapping holds `(k, v)`. */
  lemma GetFromEntries<V>(entries: seq<(Key, V)>, d: Darts<V>, k: Key, v: V)
    requires StrictlySorted(KeysOf(entries)) && Serves(d, KeysOf(entries)) && d.v == Some(ValuesOf(entries))
    ensures Get(d, k, false) == One(v) <==> (k, v) in entries
  {
    var keys := KeysOf(entries);
    ExactMatchBuilt(d, keys, k);
    if (k, v) in entries {
      var i :| 0 <= i < |entries| && entries[i] == (k, v);
    }
    if Get(d, k, false) == One(v) {
      var i :| 0 <= i < |keys| && keys[i] == k;
    }
  }

  /** `get` with `prefix_search` on a trie built from a sorted mapping: the values of the
      mapping's keys that are non-empty prefixes of `k`, shortest first, and every such value. */
  lemma PrefixGetFromEntries<V>(entries: seq<(Key, V)>, d: Darts<V>, k: Key)
    requires StrictlySorted(KeysOf(entries)) && Serves(d, KeysOf(entries)) && d.v == Some(ValuesOf(entries))
    ensures Get(d, k, true).Many? ==>
              && (forall j :: 0 <= j < |Get(d, k, true).values| ==>
                    exists i :: 0 <= i < |entries| && |entries[i].0| > 0 && IsPrefix(entries[i].0, k) &&
                                Get(d, k, true).values[j] == entries[i].1)
    ensures (forall i :: 0 <= i < |entries| ==> !(|entries[i].0| > 0 && IsPrefix(entries[i].0, k))) <==>
              Get(d, k, true).Nothing?
    ensures forall i :: 0 <= i < |entries| && |entries[i].0| > 0 && IsPrefix(entries[i].0, k) ==>
              Get(d, k, true).Many? && entries[i].1 in Get(d, k, true).values
  {
    var keys := KeysOf(entries);
    var vs := ValuesOf(entries);
    var r := CommonPrefixSearch(d, k);
    CommonPrefixBuilt(d, keys, k);
    var g := Get(d, k, true);
    assert g.Many? ==> forall j :: 0 <= j < |g.values| ==> g.values[j] == vs[r[j]];
    if g.Many? {
      forall j | 0 <= j < |g.values|
        ensures exists i :: 0 <= i < |entries| && |entries[i].0| > 0 && IsPrefix(entries[i].0, k) && g.values[j] == entries[i].1
      {
        var i := r[j];
        assert entries[i].0 == keys[i];
      }
    }
    forall i | 0 <= i < |entries| && |entries[i].0| > 0 && IsPrefix(entries[i].0, k)
      ensures g.Many? && entries[i].1 in g.values
    {
      assert keys[i] == entries[i].0;
      var j :| 0 <= j < |r| && r[j] == i;
      assert g.values[j] == entries[i].1;
    }
    if g.Nothing? {
      forall i | 0 <= i < |entries|
        ensures !(|entries[i].0| > 0 && IsPrefix(entries[i].0, k))
      {
        assert keys[i] == entries[i].0;
      }
    } else {
      var i := r[0];
      assert keys[i] == entries[i].0;
    }
  }
}
