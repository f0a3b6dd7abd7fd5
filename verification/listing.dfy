/** The prefix queries that list or test the keys below a prefix: `has_keys_with_prefix`, and
    `_search` with the recursion behind `keys`, `values`, `items` and `suffixes`. Both walk the
    prefix down from the root; the structure theorem `WalkNode` says where that walk lands in a
    built trie. */
module Listing {
  import opened Wrappers
  import opened Keys
  import opened Siblings
  import opened Tables
  import opened DoubleArray
  import opened Layout
  import opened Builder
  import Query

  // ---------------------------------------------------------------------------
  // Where a walk lands.
  // ---------------------------------------------------------------------------

  /** Group `j` of a well-formed node of a sorted table lies inside the node and holds exactly
      the node's keys whose code at the node's depth is the group's code. */
  lemma GroupRange(keys: seq<Key>, node: Node, sibs: seq<Node>, strict: bool, prefix: Key, j: nat)
    requires StrictlySorted(keys) && WellFormed(keys, node, prefix) && Split(keys, node, strict) == Success(sibs)
    requires j < |sibs|
    ensures node.left <= sibs[j].left < sibs[j].right <= node.right
    ensures forall i :: sibs[j].left <= i < sibs[j].right ==>
      |keys[i]| >= node.depth && KeyCode(keys, i, node.depth) == sibs[j].code
    ensures forall i :: (node.left <= i < node.right && |keys[i]| >= node.depth &&
                         KeyCode(keys, i, node.depth) == sibs[j].code) ==> sibs[j].left <= i < sibs[j].right
    ensures sibs[j].code != 0 ==> WellFormed(keys, sibs[j], prefix + [sibs[j].code - 1])
  {
    assert Split(keys, node, strict) == Fetch(keys, node, strict);
    SortedScan(keys, node, prefix, strict);
    if sibs[j].code != 0 {
      ChildWellFormed(keys, node, sibs, strict, prefix, j);
    }
    forall i | sibs[j].left <= i < sibs[j].right
      ensures |keys[i]| >= node.depth
    {
      assert IsPrefix(prefix, keys[i]);
    }
    forall i | node.left <= i < node.right && |keys[i]| >= node.depth && KeyCode(keys, i, node.depth) == sibs[j].code
      ensures sibs[j].left <= i < sibs[j].right
    {
      KeyInGroup(keys, node, sibs, strict, prefix, i, j);
    }
  }

  /** A key that extends `prefix + s` carries `s[0]` right after `prefix`. */
  lemma PrefixSymbol(prefix: Key, s: Key, k: Key)
    requires |s| > 0 && IsPrefix(prefix + s, k)
    ensures |k| > |prefix| && k[|prefix|] == s[0] && IsPrefix(prefix + [s[0]], k)
  {
    assert k[|prefix|] == k[..|prefix + s|][|prefix|] == (prefix + s)[|prefix|];
    assert k[..|prefix| + 1] == k[..|prefix + s|][..|prefix| + 1] == (prefix + s)[..|prefix| + 1] == prefix + [s[0]];
  }

  /** One step of a walk from a realised node: the transition on `s[0]` exists exactly when some
      key of the node continues with `s[0]`, and it leads to the anchor of the group that holds
      every key of the node extending `prefix + s`. */
  lemma WalkDown(u: Tables, b: int, keys: seq<Key>, node: Node, strict: bool, values: Option<seq<int>>,
                 prefix: Key, s: Key)
    returns (n: Node)
    requires Realises(u, b, keys, node, strict, values)
    requires StrictlySorted(keys) && WellFormed(keys, node, prefix) && |s| > 0
    ensures Child(u.base, u.check, b, s[0] + 1).None? ==>
      forall i :: node.left <= i < node.right ==> !IsPrefix(prefix + s, keys[i])
    ensures Child(u.base, u.check, b, s[0] + 1).Some? ==>
      && Realises(u, Child(u.base, u.check, b, s[0] + 1).value, keys, n, strict, values)
      && WellFormed(keys, n, prefix + [s[0]])
      && node.left <= n.left && n.right <= node.right
      && forall i :: node.left <= i < node.right && IsPrefix(prefix + s, keys[i]) ==> n.left <= i < n.right
  {
    var sibs := RealisesUnfold(u, b, keys, node, strict, values);
    ChildAt(u, b, sibs, s[0] + 1);
    if s[0] + 1 in Codes(sibs) {
      var j :| 0 <= j < |sibs| && sibs[j].code == s[0] + 1;
      n := WalkIntoChild(u, b, keys, node, sibs, strict, values, prefix, s, j);
    } else {
      n := node;
      WalkPastNode(keys, node, sibs, strict, prefix, s);
    }
  }

  /** The step into group `j` when it carries the code of `s[0]`. */
  lemma WalkIntoChild(u: Tables, b: int, keys: seq<Key>, node: Node, sibs: seq<Node>, strict: bool,
                      values: Option<seq<int>>, prefix: Key, s: Key, j: nat)
    returns (n: Node)
    requires StrictlySorted(keys) && WellFormed(keys, node, prefix) && Split(keys, node, strict) == Success(sibs)
    requires 1 <= b && Anchored(u, b, sibs) && |s| > 0 && j < |sibs| && sibs[j].code == s[0] + 1
    requires ChildOk(u, b, keys, node.depth, sibs[j], strict, values)
    ensures Child(u.base, u.check, b, s[0] + 1).Some?
    ensures Realises(u, Child(u.base, u.check, b, s[0] + 1).value, keys, n, strict, values)
    ensures WellFormed(keys, n, prefix + [s[0]])
    ensures node.left <= n.left && n.right <= node.right
    ensures forall i :: node.left <= i < node.right && IsPrefix(prefix + s, keys[i]) ==> n.left <= i < n.right
  {
    ChildOf(u, b, keys, node.depth, sibs, strict, values, j);
    WalkIntoGroup(keys, node, sibs, strict, prefix, s, j);
    n := sibs[j];
  }

  /** The key side of a step into group `j`: the group is well formed with the longer prefix and
      holds every key of the node extending `prefix + s`. */
  lemma WalkIntoGroup(keys: seq<Key>, node: Node, sibs: seq<Node>, strict: bool, prefix: Key, s: Key, j: nat)
    requires StrictlySorted(keys) && WellFormed(keys, node, prefix) && Split(keys, node, strict) == Success(sibs)
    requires |s| > 0 && j < |sibs| && sibs[j].code == s[0] + 1
    ensures WellFormed(keys, sibs[j], prefix + [s[0]])
    ensures node.left <= sibs[j].left && sibs[j].right <= node.right
    ensures forall i :: node.left <= i < node.right && IsPrefix(prefix + s, keys[i]) ==> sibs[j].left <= i < sibs[j].right
  {
    KeyBelow(keys, node, sibs, strict, prefix, s, j);
    GroupRange(keys, node, sibs, strict, prefix, j);
    forall i | node.left <= i < node.right && IsPrefix(prefix + s, keys[i])
      ensures sibs[j].left <= i < sibs[j].right
    {
      PrefixSymbol(prefix, s, keys[i]);
      assert KeyCode(keys, i, node.depth) == sibs[j].code;
    }
  }

  /** The key side of a missing step: no key of the node extends `prefix + s` when no group
      carries the code of `s[0]`. */
  lemma WalkPastNode(keys: seq<Key>, node: Node, sibs: seq<Node>, strict: bool, prefix: Key, s: Key)
    requires WellFormed(keys, node, prefix) && Split(keys, node, strict) == Success(sibs)
    requires |s| > 0 && s[0] + 1 !in Codes(sibs)
    ensures forall i :: node.left <= i < node.right ==> !IsPrefix(prefix + s, keys[i])
  {
    forall i | node.left <= i < node.right
      ensures !IsPrefix(prefix + s, keys[i])
    {
      if IsPrefix(prefix + s, keys[i]) {
        PrefixSymbol(prefix, s, keys[i]);
        var k := KeyGroup(keys, node, sibs, strict, prefix, i);
        InCodes(sibs, k);
      }
    }
  }

  /** A realised node holds at least one key. */
  lemma RealisedNonEmpty(u: Tables, b: int, keys: seq<Key>, node: Node, strict: bool, values: Option<seq<int>>)
    requires Realises(u, b, keys, node, strict, values)
    ensures node.left < node.right
  {
    var sibs := RealisesUnfold(u, b, keys, node, strict, values);
    assert Split(keys, node, strict) == Fetch(keys, node, strict);
    assert PartShape(node, sibs);
  }

  /** The walk theorem: from a realised node with prefix `prefix`, the walk of `s` succeeds
      exactly when some key of the node extends `prefix + s`, and then it ends on the anchor of
      a realised node holding exactly those keys. */
  lemma {:induction false} WalkNode(u: Tables, b: int, keys: seq<Key>, node: Node, strict: bool,
                                    values: Option<seq<int>>, prefix: Key, s: Key)
    returns (n: Node)
    requires Realises(u, b, keys, node, strict, values)
    requires StrictlySorted(keys) && WellFormed(keys, node, prefix)
    ensures Walk(u.base, u.check, b, s).Some? <==>
      exists i :: node.left <= i < node.right && IsPrefix(prefix + s, keys[i])
    ensures Walk(u.base, u.check, b, s).Some? ==>
      && Realises(u, Walk(u.base, u.check, b, s).value, keys, n, strict, values)
      && WellFormed(keys, n, prefix + s)
      && node.left <= n.left && n.right <= node.right
      && forall i :: node.left <= i < node.right && IsPrefix(prefix + s, keys[i]) ==> n.left <= i < n.right
    decreases |s|
  {
    if |s| == 0 {
      n := node;
      assert prefix + s == prefix;
      RealisedNonEmpty(u, b, keys, node, strict, values);
      assert IsPrefix(prefix, keys[node.left]);
    } else {
      var m := WalkDown(u, b, keys, node, strict, values, prefix, s);
      match Child(u.base, u.check, b, s[0] + 1)
      case None =>
        n := node;
      case Some(next) =>
        assert prefix + s == (prefix + [s[0]]) + s[1..];
        n := WalkNode(u, next, keys, m, strict, values, prefix + [s[0]], s[1..]);
    }
  }

  /** At the root of a built trie: the walk of `s` from `base[0]` succeeds exactly when some key
      starts with `s`, and it ends on a realised node holding exactly the keys that do. */
  lemma WalkBuilt<V>(tr: Trie<V>, used: seq<bool>, s: Key) returns (n: Node)
    requires Built(tr) && Realises(TablesOf(tr, used), 1, tr.keys, Root(tr.keys), true, None)
    ensures Walk(tr.base, tr.check, tr.base[0], s).Some? <==> exists i :: 0 <= i < |tr.keys| && IsPrefix(s, tr.keys[i])
    ensures Walk(tr.base, tr.check, tr.base[0], s).Some? ==>
      && Realises(TablesOf(tr, used), Walk(tr.base, tr.check, tr.base[0], s).value, tr.keys, n, true, None)
      && WellFormed(tr.keys, n, s)
      && forall i :: 0 <= i < |tr.keys| ==> (IsPrefix(s, tr.keys[i]) <==> n.left <= i < n.right)
  {
    RootOrdered(tr.keys);
    n := WalkNode(TablesOf(tr, used), 1, tr.keys, Root(tr.keys), true, None, [], s);
    assert [] + s == s;
  }

  // ---------------------------------------------------------------------------
  // `has_keys_with_prefix`.
  // ---------------------------------------------------------------------------

  /** `_has_keys_with_prefix` as written, from position `i` at anchor `b`: a missing transition
      is skipped and the walk carries on from the same anchor with the next symbol; the answer is
      true as soon as the last symbol's transition exists. */
  function HasKeysFromAsWritten(base: seq<int>, check: seq<int>, b: int, key: Key, i: nat): bool
    decreases |key| - i
  {
    if i >= |key| then false
    else
      match Child(base, check, b, key[i] + 1)
      case Some(next) => if i == |key| - 1 then true else HasKeysFromAsWritten(base, check, next, key, i + 1)
      case None => HasKeysFromAsWritten(base, check, b, key, i + 1)
  }

  /** `has_keys_with_prefix` as written: the loop from the root over every position of `key`. */
  function HasKeysWithPrefixAsWritten<V>(tr: Trie<V>, key: Key): bool
    requires |tr.base| > 0
  {
    HasKeysFromAsWritten(tr.base, tr.check, tr.base[0], key, 0)
  }

  /** `has_keys_with_prefix` with a missing transition ending the walk: true exactly when the
      whole key can be walked. The empty key answers false, as it does in the loop as written. */
  function HasKeysWithPrefix<V>(tr: Trie<V>, key: Key): bool
    requires |tr.base| > 0
  {
    |key| > 0 && Walk(tr.base, tr.check, tr.base[0], key).Some?
  }

  /** On a built trie, the corrected test answers whether some key starts with a non-empty `key`. */
  lemma HasKeysWithPrefixCorrect<V>(tr: Trie<V>, key: Key)
    requires Built(tr)
    ensures HasKeysWithPrefix(tr, key) <==> |key| > 0 && exists i :: 0 <= i < |tr.keys| && IsPrefix(key, tr.keys[i])
  {
    var used :| Realises(TablesOf(tr, used), 1, tr.keys, Root(tr.keys), true, None);
    var n := WalkBuilt(tr, used, key);
  }

  /** Where the full walk succeeds, the loop as written follows it and answers true: the loop
      errs only by answering true too often. */
  lemma {:induction false} HasKeysFromFollowsWalk(base: seq<int>, check: seq<int>, b: int, key: Key, i: nat)
    requires i < |key| && Walk(base, check, b, key[i..]).Some?
    ensures HasKeysFromAsWritten(base, check, b, key, i)
    decreases |key| - i
  {
    assert key[i..][0] == key[i];
    var next := Child(base, check, b, key[i] + 1).value;
    if i < |key| - 1 {
      assert key[i..][1..] == key[i + 1..];
      HasKeysFromFollowsWalk(base, check, next, key, i + 1);
    }
  }

  lemma HasKeysWithPrefixAsWrittenCovers<V>(tr: Trie<V>, key: Key)
    requires |tr.base| > 0
    ensures HasKeysWithPrefix(tr, key) ==> HasKeysWithPrefixAsWritten(tr, key)
  {
    if HasKeysWithPrefix(tr, key) {
      assert key[0..] == key;
      HasKeysFromFollowsWalk(tr.base, tr.check, tr.base[0], key, 0);
    }
  }

  /** The trie of the single key "A" (symbol 65): the loop as written reports keys below "XA"
      (symbols 88, 65) because it skips the missing "X" and then finds "A" at the root; no key
      starts with "XA". */
  lemma HasKeysWithPrefixSkips<V>(tr: Trie<V>)
    requires Built(tr) && tr.keys == [[65]]
    ensures HasKeysWithPrefixAsWritten(tr, [88, 65])
    ensures !HasKeysWithPrefix(tr, [88, 65])
  {
    var used :| Realises(TablesOf(tr, used), 1, tr.keys, Root(tr.keys), true, None);
    var nx := WalkBuilt(tr, used, [88]);
    assert !IsPrefix([88], tr.keys[0]);
    var na := WalkBuilt(tr, used, [65]);
    assert IsPrefix([65], tr.keys[0]);
    var nxa := WalkBuilt(tr, used, [88, 65]);
    assert !IsPrefix([88, 65], tr.keys[0]);
    assert Child(tr.base, tr.check, tr.base[0], 89).None?;
    assert Child(tr.base, tr.check, tr.base[0], 66).Some?;
  }

  // ---------------------------------------------------------------------------
  // `_search` and `_search_recursive`.
  // ---------------------------------------------------------------------------

  /** What `_search_recursive` emits for a terminal transition out of anchor `nb`: the path
      alone when values are not asked for; otherwise the path with the value stored at `nb`,
      and nothing when `nb` holds no leaf marker. */
  function Found<V(==)>(tr: Trie<V>, nb: int, path: Key, withValue: bool): set<(Key, Option<V>)>
    requires MarkersIndexValues(tr)
  {
    if !withValue then {(path, None)}
    else
      match Terminal(tr.base, tr.check, nb)
      case None => {}
      case Some(n) => {(path, Some(tr.values[n]))}
  }

  /** `_search_recursive` on the node `(b, path)`: take the transition on the last symbol of
      `path`; from the anchor `nb` it reaches, every slot the reverse index `codes[nb]` lists is
      a transition. A slot at or below `nb` is the terminal one, any other carries the symbol
      `idx - nb - 1` and is searched in turn with that symbol appended. `fuel` bounds the depth
      of the recursion. */
  function SearchRec<V(==)>(tr: Trie<V>, b: int, path: Key, withValue: bool, fuel: nat): set<(Key, Option<V>)>
    requires MarkersIndexValues(tr) && |path| > 0
    decreases fuel, 3
  {
    if fuel == 0 then {}
    else
      match Child(tr.base, tr.check, b, path[|path| - 1] + 1)
      case None => {}
      case Some(nb) => Gather(tr, nb, path, withValue, fuel)
  }

  /** The outputs of the transitions out of anchor `nb`; an anchor outside the reverse index has
      none. */
  function Gather<V(==)>(tr: Trie<V>, nb: int, path: Key, withValue: bool, fuel: nat): set<(Key, Option<V>)>
    requires MarkersIndexValues(tr) && fuel > 0
    decreases fuel, 2
  {
    if 0 <= nb < |tr.codes| then Ends(tr, nb, path, withValue) + Descend(tr, nb, path, withValue, fuel)
    else {}
  }

  /** The terminal transition out of `nb`, when the reverse index lists one. */
  function Ends<V(==)>(tr: Trie<V>, nb: int, path: Key, withValue: bool): set<(Key, Option<V>)>
    requires MarkersIndexValues(tr) && 0 <= nb < |tr.codes|
  {
    if exists idx :: idx in tr.codes[nb] && idx <= nb then Found(tr, nb, path, withValue) else {}
  }

  /** The symbol transitions out of `nb`, each searched with its symbol appended to the path. */
  function Descend<V(==)>(tr: Trie<V>, nb: int, path: Key, withValue: bool, fuel: nat): set<(Key, Option<V>)>
    requires MarkersIndexValues(tr) && 0 <= nb < |tr.codes| && fuel > 0
    decreases fuel, 1
  {
    set idx, e | idx in tr.codes[nb] && idx > nb && e in Branch(tr, nb, path, withValue, fuel, idx) :: e
  }

  /** The search below the symbol transition into slot `idx`. */
  function Branch<V(==)>(tr: Trie<V>, nb: int, path: Key, withValue: bool, fuel: nat, idx: int): set<(Key, Option<V>)>
    requires MarkersIndexValues(tr) && fuel > 0 && idx > nb
    decreases fuel, 0
  {
    SearchRec(tr, nb, path + [idx - nb - 1], withValue, fuel - 1)
  }

  /** Enough depth for every recursion over a built trie: one level per symbol of the longest key. */
  function SearchFuel<V>(tr: Trie<V>): nat {
    MaxLen(tr.keys) + 1
  }

  /** The anchor `_search` starts its recursion from, as written: positions `i` to `n - 1` of
      `key` are followed from `b` where the transition exists and skipped where it does not. */
  function SkipWalk(base: seq<int>, check: seq<int>, b: int, key: Key, i: nat, n: nat): int
    requires i <= n <= |key|
    decreases n - i
  {
    if i == n then b
    else
      match Child(base, check, b, key[i] + 1)
      case None => SkipWalk(base, check, b, key, i + 1, n)
      case Some(next) => SkipWalk(base, check, next, key, i + 1, n)
  }

  /** `_search(key)` as written, for a non-empty key (the callers answer the empty prefix
      themselves). */
  function SearchAsWritten<V(==)>(tr: Trie<V>, key: Key, withValue: bool): set<(Key, Option<V>)>
    requires MarkersIndexValues(tr) && |tr.base| > 0 && |key| > 0
  {
    SearchRec(tr, SkipWalk(tr.base, tr.check, tr.base[0], key, 0, |key| - 1), key, withValue, SearchFuel(tr))
  }

  /** `_search(key)` with a missing transition ending the walk: nothing is below a prefix the
      trie cannot walk. */
  function Search<V(==)>(tr: Trie<V>, key: Key, withValue: bool): set<(Key, Option<V>)>
    requires MarkersIndexValues(tr) && |tr.base| > 0 && |key| > 0
  {
    match Walk(tr.base, tr.check, tr.base[0], key[..|key| - 1])
    case None => {}
    case Some(b) => SearchRec(tr, b, key, withValue, SearchFuel(tr))
  }

  /** The facts about a finished trie the search relies on. */
  ghost predicate Indexed<V>(tr: Trie<V>) {
    && |tr.keys| == |tr.values| && StrictlySorted(tr.keys)
    && |tr.base| == |tr.check| == |tr.codes| && MarkersIndexValues(tr)
    && (forall c: nat, p: nat :: c < |tr.codes| ==> (p in tr.codes[c] <==> 0 < c && p < |tr.check| && tr.check[p] == c))
  }

  /** The output for key `i` under a node of depth `d` reached with path `path`. */
  function Entry<V>(tr: Trie<V>, path: Key, d: nat, i: nat, withValue: bool): (Key, Option<V>)
    requires i < |tr.keys| == |tr.values| && d <= |tr.keys[i]|
  {
    (path + tr.keys[i][d..], if withValue then Some(tr.values[i]) else None)
  }

  /** The outputs for the keys of `node`. */
  ghost function Below<V>(tr: Trie<V>, node: Node, path: Key, withValue: bool): set<(Key, Option<V>)>
    requires |tr.keys| == |tr.values| && ValidRange(tr.keys, node)
  {
    set i | node.left <= i < node.right && node.depth <= |tr.keys[i]| :: Entry(tr, path, node.depth, i, withValue)
  }

  /** The reverse index lists a terminal slot for a realised anchor exactly when a group has
      code 0. */
  lemma EndsTest<V>(tr: Trie<V>, used: seq<bool>, nb: int, sibs: seq<Node>)
    requires Indexed(tr) && 0 <= nb < |tr.codes| && Anchored(TablesOf(tr, used), nb, sibs)
    ensures (exists idx :: idx in tr.codes[nb] && idx <= nb) <==> 0 in Codes(sibs)
  {
    if 0 in Codes(sibs) {
      var j :| 0 <= j < |sibs| && sibs[j].code == 0;
      assert SlotOf(nb, sibs[j]) == nb;
      assert nb in tr.codes[nb];
    }
    if exists idx :: idx in tr.codes[nb] && idx <= nb {
      var idx :| idx in tr.codes[nb] && idx <= nb;
      assert Claims(nb, sibs, idx);
    }
  }

  /** The node's key of length `depth` is its prefix, at the first index of the code-0 group. */
  lemma ShortKeyIsLeader(keys: seq<Key>, node: Node, sibs: seq<Node>, prefix: Key, j: nat)
    requires StrictlySorted(keys) && WellFormed(keys, node, prefix) && Split(keys, node, true) == Success(sibs)
    requires j < |sibs| && sibs[j].code == 0
    ensures node.left <= sibs[j].left < node.right && keys[sibs[j].left] == prefix
    ensures forall i :: node.left <= i < node.right && |keys[i]| == node.depth ==> i == sibs[j].left
  {
    assert Split(keys, node, true) == Fetch(keys, node, true);
    LeaderIsPrefix(keys, node, sibs, true, prefix, j);
    var l := sibs[j].left;
    forall i | node.left <= i < node.right && |keys[i]| == node.depth
      ensures i == l
    {
      assert IsPrefix(prefix, keys[i]);
      assert keys[i] == keys[i][..node.depth] == prefix;
      if i != l {
        SortedDistinct(keys, i, l);
      }
    }
  }

  /** No key of the node has length `depth` when no group has code 0. */
  lemma NoShortKey(keys: seq<Key>, node: Node, sibs: seq<Node>, prefix: Key)
    requires WellFormed(keys, node, prefix) && Split(keys, node, true) == Success(sibs)
    requires 0 !in Codes(sibs)
    ensures forall i :: node.left <= i < node.right ==> |keys[i]| != node.depth
  {
    forall i | node.left <= i < node.right
      ensures |keys[i]| != node.depth
    {
      if |keys[i]| == node.depth {
        var k := KeyGroup(keys, node, sibs, true, prefix, i);
        InCodes(sibs, k);
      }
    }
  }

  /** The keys of `node` that end at its depth, reported with `path`. */
  ghost function Short<V>(tr: Trie<V>, node: Node, path: Key, withValue: bool): set<(Key, Option<V>)>
    requires |tr.keys| == |tr.values| && ValidRange(tr.keys, node)
  {
    set i | node.left <= i < node.right && |tr.keys[i]| == node.depth :: Entry(tr, path, node.depth, i, withValue)
  }

  /** With a code-0 group, the terminal transition reports the group's key, the node's prefix. */
  lemma EndsPresent<V>(tr: Trie<V>, used: seq<bool>, nb: int, node: Node, sibs: seq<Node>, prefix: Key, path: Key,
                       withValue: bool, j: nat)
    requires Indexed(tr) && 0 <= nb < |tr.codes| && Anchored(TablesOf(tr, used), nb, sibs)
    requires WellFormed(tr.keys, node, prefix) && Split(tr.keys, node, true) == Success(sibs)
    requires j < |sibs| && sibs[j].code == 0 && ChildOk(TablesOf(tr, used), nb, tr.keys, node.depth, sibs[j], true, None)
    ensures Ends(tr, nb, path, withValue) == Short(tr, node, path, withValue)
  {
    InCodes(sibs, j);
    EndsTest(tr, used, nb, sibs);
    TerminalOf(TablesOf(tr, used), nb, tr.keys, node.depth, sibs, true, None, j);
    ShortKeyIsLeader(tr.keys, node, sibs, prefix, j);
    var l := sibs[j].left;
    assert tr.keys[l][node.depth..] == [];
    assert path + tr.keys[l][node.depth..] == path;
    assert Short(tr, node, path, withValue) == {Entry(tr, path, node.depth, l, withValue)};
  }

  /** Without a code-0 group, there is no terminal transition and no key ends at the depth. */
  lemma EndsAbsent<V>(tr: Trie<V>, used: seq<bool>, nb: int, node: Node, sibs: seq<Node>, prefix: Key, path: Key,
                      withValue: bool)
    requires Indexed(tr) && 0 <= nb < |tr.codes| && Anchored(TablesOf(tr, used), nb, sibs)
    requires WellFormed(tr.keys, node, prefix) && Split(tr.keys, node, true) == Success(sibs)
    requires 0 !in Codes(sibs)
    ensures Ends(tr, nb, path, withValue) == Short(tr, node, path, withValue)
  {
    EndsTest(tr, used, nb, sibs);
    NoShortKey(tr.keys, node, sibs, prefix);
    assert Short(tr, node, path, withValue) == {};
  }

  /** The terminal transition out of a realised anchor reports the node's own prefix, which is
      exactly the node's key of length `depth`, if any. */
  lemma EndsRealised<V>(tr: Trie<V>, used: seq<bool>, nb: int, node: Node, prefix: Key, path: Key, withValue: bool)
    requires Indexed(tr)
    requires Realises(TablesOf(tr, used), nb, tr.keys, node, true, None) && WellFormed(tr.keys, node, prefix)
    requires 0 <= nb < |tr.codes|
    ensures Ends(tr, nb, path, withValue) == Short(tr, node, path, withValue)
  {
    var sibs := RealisesUnfold(TablesOf(tr, used), nb, tr.keys, node, true, None);
    if 0 in Codes(sibs) {
      var j :| 0 <= j < |sibs| && sibs[j].code == 0;
      EndsPresent(tr, used, nb, node, sibs, prefix, path, withValue, j);
    } else {
      EndsAbsent(tr, used, nb, node, sibs, prefix, path, withValue);
    }
  }

  /** The keys of `node` that continue past its depth, reported with `path`. */
  ghost function Long<V>(tr: Trie<V>, node: Node, path: Key, withValue: bool): set<(Key, Option<V>)>
    requires |tr.keys| == |tr.values| && ValidRange(tr.keys, node)
  {
    set i | node.left <= i < node.right && |tr.keys[i]| > node.depth :: Entry(tr, path, node.depth, i, withValue)
  }

  /** The keys of group `n`, reported with `path` under the parent's depth `d`. */
  ghost function Group<V>(tr: Trie<V>, n: Node, d: nat, path: Key, withValue: bool): set<(Key, Option<V>)>
    requires |tr.keys| == |tr.values| && ValidRange(tr.keys, n)
  {
    set i | n.left <= i < n.right && d <= |tr.keys[i]| :: Entry(tr, path, d, i, withValue)
  }

  /** Appending a key's symbol at depth `d` to the path reports the key from one level lower. */
  lemma EntryStep<V>(tr: Trie<V>, path: Key, d: nat, i: nat, withValue: bool)
    requires i < |tr.keys| == |tr.values| && d < |tr.keys[i]|
    ensures Entry(tr, path + [tr.keys[i][d]], d + 1, i, withValue) == Entry(tr, path, d, i, withValue)
  {
    assert tr.keys[i][d..] == [tr.keys[i][d]] + tr.keys[i][d + 1..];
    assert path + [tr.keys[i][d]] + tr.keys[i][d + 1..] == path + tr.keys[i][d..];
  }

  /** The search below a symbol transition steps into the child anchor with the symbol appended. */
  lemma BranchChild<V>(tr: Trie<V>, nb: int, path: Key, withValue: bool, fuel: nat, c: nat)
    requires MarkersIndexValues(tr) && fuel > 1 && c >= 1 && Child(tr.base, tr.check, nb, c).Some?
    ensures Branch(tr, nb, path, withValue, fuel, nb + c) ==
      Gather(tr, Child(tr.base, tr.check, nb, c).value, path + [c - 1], withValue, fuel - 1)
  {
    var p := path + [c - 1];
    assert p[|p| - 1] + 1 == c;
  }

  /** The key side of a group: reported one level lower with its symbol appended, the group's keys
      read the same. */
  lemma GroupBelow<V>(tr: Trie<V>, n: Node, d: nat, path: Key, withValue: bool)
    requires |tr.keys| == |tr.values| && ValidRange(tr.keys, n) && n.depth == d + 1 && n.code >= 1
    requires forall i :: n.left <= i < n.right ==> |tr.keys[i]| >= d && KeyCode(tr.keys, i, d) == n.code
    ensures Below(tr, n, path + [n.code - 1], withValue) == Group(tr, n, d, path, withValue)
  {
    forall i | n.left <= i < n.right
      ensures d + 1 <= |tr.keys[i]|
      ensures Entry(tr, path + [n.code - 1], d + 1, i, withValue) == Entry(tr, path, d, i, withValue)
    {
      assert KeyCode(tr.keys, i, d) == n.code;
      EntryStep(tr, path, d, i, withValue);
    }
  }

  /** The search below the transition of group `j` lists exactly the group's keys. */
  lemma {:induction false} GroupSearch<V>(tr: Trie<V>, used: seq<bool>, nb: int, node: Node, sibs: seq<Node>,
                                          prefix: Key, path: Key, withValue: bool, fuel: nat, j: nat)
    requires Indexed(tr) && 1 <= nb && Anchored(TablesOf(tr, used), nb, sibs)
    requires StrictlySorted(tr.keys) && WellFormed(tr.keys, node, prefix) && Split(tr.keys, node, true) == Success(sibs)
    requires j < |sibs| && sibs[j].code >= 1 && ChildOk(TablesOf(tr, used), nb, tr.keys, node.depth, sibs[j], true, None)
    requires fuel > 0 && node.depth + fuel > MaxLen(tr.keys)
    ensures Branch(tr, nb, path, withValue, fuel, nb + sibs[j].code) == Group(tr, sibs[j], node.depth, path, withValue)
    decreases MaxLen(tr.keys) - node.depth, 1
  {
    var c := sibs[j].code;
    ChildOf(TablesOf(tr, used), nb, tr.keys, node.depth, sibs, true, None, j);
    GroupRange(tr.keys, node, sibs, true, prefix, j);
    GroupStep(tr, used, nb, Child(tr.base, tr.check, nb, c).value, sibs[j], node.depth, prefix + [c - 1], path,
              withValue, fuel);
  }

  /** The search below the transition into group `n`, once the child anchor `a` is known. */
  lemma {:induction false} GroupStep<V>(tr: Trie<V>, used: seq<bool>, nb: int, a: int, n: Node, d: nat, prefix: Key,
                                        path: Key, withValue: bool, fuel: nat)
    requires Indexed(tr) && n.code >= 1 && n.depth == d + 1 && Child(tr.base, tr.check, nb, n.code) == Some(a)
    requires Realises(TablesOf(tr, used), a, tr.keys, n, true, None) && WellFormed(tr.keys, n, prefix)
    requires forall i :: n.left <= i < n.right ==> |tr.keys[i]| >= d && KeyCode(tr.keys, i, d) == n.code
    requires fuel > 0 && d + fuel > MaxLen(tr.keys) && n.depth <= MaxLen(tr.keys)
    ensures Branch(tr, nb, path, withValue, fuel, nb + n.code) == Group(tr, n, d, path, withValue)
    decreases MaxLen(tr.keys) - d, 0
  {
    BranchChild(tr, nb, path, withValue, fuel, n.code);
    GatherRealised(tr, used, a, n, prefix, path + [n.code - 1], withValue, fuel - 1);
    GroupBelow(tr, n, d, path, withValue);
  }

  /** Every output of a symbol transition is the output of a key that continues past the depth. */
  lemma {:induction false} DescendInLong<V>(tr: Trie<V>, used: seq<bool>, nb: int, node: Node, sibs: seq<Node>,
                                            prefix: Key, path: Key, withValue: bool, fuel: nat, e: (Key, Option<V>))
    requires Indexed(tr) && 1 <= nb < |tr.codes| && Anchored(TablesOf(tr, used), nb, sibs)
    requires WellFormed(tr.keys, node, prefix) && Split(tr.keys, node, true) == Success(sibs)
    requires forall j {:trigger ChildOk(TablesOf(tr, used), nb, tr.keys, node.depth, sibs[j], true, None)} ::
      0 <= j < |sibs| ==> ChildOk(TablesOf(tr, used), nb, tr.keys, node.depth, sibs[j], true, None)
    requires fuel > 0 && node.depth + fuel > MaxLen(tr.keys)
    requires e in Descend(tr, nb, path, withValue, fuel)
    ensures e in Long(tr, node, path, withValue)
    decreases MaxLen(tr.keys) - node.depth, 2
  {
    var d := node.depth;
    var idx := DescendPick(tr, nb, path, withValue, fuel, e);
    var j := SlotGroup(tr, used, nb, sibs, idx);
    GroupSearch(tr, used, nb, node, sibs, prefix, path, withValue, fuel, j);
    GroupRange(tr.keys, node, sibs, true, prefix, j);
    GroupInLong(tr, node, sibs[j], path, withValue);
  }

  /** A group with a symbol code reports only keys that continue past the parent's depth. */
  lemma GroupInLong<V>(tr: Trie<V>, node: Node, n: Node, path: Key, withValue: bool)
    requires |tr.keys| == |tr.values| && ValidRange(tr.keys, node) && n.code >= 1
    requires node.left <= n.left <= n.right <= node.right
    requires forall i :: n.left <= i < n.right ==> |tr.keys[i]| >= node.depth && KeyCode(tr.keys, i, node.depth) == n.code
    ensures Group(tr, n, node.depth, path, withValue) <= Long(tr, node, path, withValue)
  {
    forall e | e in Group(tr, n, node.depth, path, withValue)
      ensures e in Long(tr, node, path, withValue)
    {
      var i :| n.left <= i < n.right && node.depth <= |tr.keys[i]| && e == Entry(tr, path, node.depth, i, withValue);
      assert KeyCode(tr.keys, i, node.depth) == n.code;
    }
  }

  /** The transition an output of `Descend` comes from. */
  lemma DescendPick<V>(tr: Trie<V>, nb: int, path: Key, withValue: bool, fuel: nat, e: (Key, Option<V>))
    returns (idx: int)
    requires MarkersIndexValues(tr) && 0 <= nb < |tr.codes| && fuel > 0
    requires e in Descend(tr, nb, path, withValue, fuel)
    ensures idx in tr.codes[nb] && idx > nb && e in Branch(tr, nb, path, withValue, fuel, idx)
  {
    idx :| idx in tr.codes[nb] && idx > nb && e in Branch(tr, nb, path, withValue, fuel, idx);
  }

  /** A slot the reverse index lists above anchor `nb` is the slot of a group with a symbol code. */
  lemma SlotGroup<V>(tr: Trie<V>, used: seq<bool>, nb: int, sibs: seq<Node>, idx: int) returns (j: nat)
    requires Indexed(tr) && 1 <= nb < |tr.codes| && Anchored(TablesOf(tr, used), nb, sibs)
    requires idx in tr.codes[nb] && idx > nb
    ensures j < |sibs| && sibs[j].code == idx - nb && sibs[j].code >= 1
  {
    assert 0 <= idx < |tr.check| && tr.check[idx] == nb;
    assert Claims(nb, sibs, idx);
    j :| 0 <= j < |sibs| && sibs[j].code == idx - nb;
  }

  /** Every key that continues past the depth is reported by the transition of its group. */
  lemma {:induction false} LongInDescend<V>(tr: Trie<V>, used: seq<bool>, nb: int, node: Node, sibs: seq<Node>,
                                            prefix: Key, path: Key, withValue: bool, fuel: nat, i: nat)
    requires Indexed(tr) && 1 <= nb < |tr.codes| && Anchored(TablesOf(tr, used), nb, sibs)
    requires WellFormed(tr.keys, node, prefix) && Split(tr.keys, node, true) == Success(sibs)
    requires forall j {:trigger ChildOk(TablesOf(tr, used), nb, tr.keys, node.depth, sibs[j], true, None)} ::
      0 <= j < |sibs| ==> ChildOk(TablesOf(tr, used), nb, tr.keys, node.depth, sibs[j], true, None)
    requires fuel > 0 && node.depth + fuel > MaxLen(tr.keys)
    requires node.left <= i < node.right && |tr.keys[i]| > node.depth
    ensures Entry(tr, path, node.depth, i, withValue) in Descend(tr, nb, path, withValue, fuel)
    decreases MaxLen(tr.keys) - node.depth, 2
  {
    var j := KeyGroup(tr.keys, node, sibs, true, prefix, i);
    var idx := nb + sibs[j].code;
    assert SlotOf(nb, sibs[j]) == idx;
    assert idx in tr.codes[nb];
    GroupSearch(tr, used, nb, node, sibs, prefix, path, withValue, fuel, j);
    assert Entry(tr, path, node.depth, i, withValue) in Branch(tr, nb, path, withValue, fuel, idx);
  }

  /** The symbol transitions out of a realised anchor list exactly the node's keys that continue
      past its depth. */
  lemma {:induction false} DescendRealised<V>(tr: Trie<V>, used: seq<bool>, nb: int, node: Node, prefix: Key,
                                              path: Key, withValue: bool, fuel: nat)
    requires Indexed(tr)
    requires Realises(TablesOf(tr, used), nb, tr.keys, node, true, None) && WellFormed(tr.keys, node, prefix)
    requires 0 <= nb < |tr.codes| && fuel > 0 && node.depth + fuel > MaxLen(tr.keys)
    ensures Descend(tr, nb, path, withValue, fuel) == Long(tr, node, path, withValue)
    decreases MaxLen(tr.keys) - node.depth, 3
  {
    var sibs := RealisesUnfold(TablesOf(tr, used), nb, tr.keys, node, true, None);
    forall e | e in Descend(tr, nb, path, withValue, fuel)
      ensures e in Long(tr, node, path, withValue)
    {
      DescendInLong(tr, used, nb, node, sibs, prefix, path, withValue, fuel, e);
    }
    forall i | node.left <= i < node.right && |tr.keys[i]| > node.depth
      ensures Entry(tr, path, node.depth, i, withValue) in Descend(tr, nb, path, withValue, fuel)
    {
      LongInDescend(tr, used, nb, node, sibs, prefix, path, withValue, fuel, i);
    }
  }

  /** The listing theorem for one node: the transitions out of a realised anchor report every
      key of the node, each as `path` followed by the key's symbols below the node. */
  lemma {:induction false} GatherRealised<V>(tr: Trie<V>, used: seq<bool>, nb: int, node: Node, prefix: Key,
                                             path: Key, withValue: bool, fuel: nat)
    requires Indexed(tr)
    requires Realises(TablesOf(tr, used), nb, tr.keys, node, true, None) && WellFormed(tr.keys, node, prefix)
    requires fuel > 0 && node.depth + fuel > MaxLen(tr.keys)
    ensures Gather(tr, nb, path, withValue, fuel) == Below(tr, node, path, withValue)
    decreases MaxLen(tr.keys) - node.depth, 4
  {
    var sibs := RealisesUnfold(TablesOf(tr, used), nb, tr.keys, node, true, None);
    assert SlotOf(nb, sibs[0]) < |tr.check|;
    EndsRealised(tr, used, nb, node, prefix, path, withValue);
    DescendRealised(tr, used, nb, node, prefix, path, withValue, fuel);
    assert Below(tr, node, path, withValue) == Short(tr, node, path, withValue) + Long(tr, node, path, withValue);
  }

  // ---------------------------------------------------------------------------
  // The search from the root.
  // ---------------------------------------------------------------------------

  /** What the search reports for key `i`: the key, with its value when values are asked for. */
  function Listed<V>(tr: Trie<V>, i: nat, withValue: bool): (Key, Option<V>)
    requires i < |tr.keys| == |tr.values|
  {
    (tr.keys[i], if withValue then Some(tr.values[i]) else None)
  }

  /** The reports for every key that starts with `key`. */
  ghost function WithPrefix<V>(tr: Trie<V>, key: Key, withValue: bool): set<(Key, Option<V>)>
    requires |tr.keys| == |tr.values|
  {
    set i | 0 <= i < |tr.keys| && IsPrefix(key, tr.keys[i]) :: Listed(tr, i, withValue)
  }

  /** The node the walk of `key` lands on holds exactly the keys that start with `key`, and
      reporting them below `key` gives the keys themselves. */
  lemma BelowWithPrefix<V>(tr: Trie<V>, n: Node, key: Key, withValue: bool)
    requires |tr.keys| == |tr.values| && WellFormed(tr.keys, n, key)
    requires forall i :: 0 <= i < |tr.keys| ==> (IsPrefix(key, tr.keys[i]) <==> n.left <= i < n.right)
    ensures Below(tr, n, key, withValue) == WithPrefix(tr, key, withValue)
  {
    forall i | n.left <= i < n.right
      ensures |key| <= |tr.keys[i]| && Entry(tr, key, n.depth, i, withValue) == Listed(tr, i, withValue)
    {
      assert IsPrefix(key, tr.keys[i]);
      assert tr.keys[i] == tr.keys[i][..|key|] + tr.keys[i][|key|..];
    }
  }

  /** No key starts with `key`. */
  lemma NoneWithPrefix<V>(tr: Trie<V>, key: Key, withValue: bool)
    requires |tr.keys| == |tr.values|
    requires forall i :: 0 <= i < |tr.keys| ==> !IsPrefix(key, tr.keys[i])
    ensures WithPrefix(tr, key, withValue) == {}
  {
  }

  /** The search theorem: on a built trie, the corrected `_search(key)` reports exactly the keys
      that start with the non-empty `key`, each with its value when values are asked for. */
  lemma SearchBuilt<V>(tr: Trie<V>, key: Key, withValue: bool)
    requires Built(tr) && |key| > 0
    ensures Search(tr, key, withValue) == WithPrefix(tr, key, withValue)
  {
    var used :| Realises(TablesOf(tr, used), 1, tr.keys, Root(tr.keys), true, None);
    BuiltIndexed(tr);
    var n := WalkBuilt(tr, used, key);
    Query.WalkStep(tr.base, tr.check, tr.base[0], key, |key| - 1);
    assert key[..|key|] == key;
    if Walk(tr.base, tr.check, tr.base[0], key).None? {
      NoneWithPrefix(tr, key, withValue);
    } else {
      SearchLands(tr, used, key, n, withValue);
    }
  }

  lemma BuiltIndexed<V>(tr: Trie<V>)
    requires Built(tr)
    ensures Indexed(tr)
  {
  }

  /** The search of a key the trie can walk gathers below the node the walk lands on. */
  lemma SearchLands<V>(tr: Trie<V>, used: seq<bool>, key: Key, n: Node, withValue: bool)
    requires Indexed(tr) && |tr.base| > 0 && |key| > 0
    requires Walk(tr.base, tr.check, tr.base[0], key).Some?
    requires Walk(tr.base, tr.check, tr.base[0], key) ==
      match Walk(tr.base, tr.check, tr.base[0], key[..|key| - 1])
      case None => None
      case Some(b) => Child(tr.base, tr.check, b, key[|key| - 1] + 1)
    requires Realises(TablesOf(tr, used), Walk(tr.base, tr.check, tr.base[0], key).value, tr.keys, n, true, None)
    requires WellFormed(tr.keys, n, key)
    requires forall i :: 0 <= i < |tr.keys| ==> (IsPrefix(key, tr.keys[i]) <==> n.left <= i < n.right)
    ensures Search(tr, key, withValue) == WithPrefix(tr, key, withValue)
  {
    var nb := Walk(tr.base, tr.check, tr.base[0], key).value;
    assert Search(tr, key, withValue) == Gather(tr, nb, key, withValue, SearchFuel(tr));
    GatherRealised(tr, used, nb, n, key, key, withValue, SearchFuel(tr));
    BelowWithPrefix(tr, n, key, withValue);
  }

  /** Where every transition exists, the skipping loop as written follows the walk. */
  lemma {:induction false} SkipWalkFollows(base: seq<int>, check: seq<int>, b: int, key: Key, i: nat, n: nat)
    requires i <= n <= |key| && Walk(base, check, b, key[i..n]).Some?
    ensures SkipWalk(base, check, b, key, i, n) == Walk(base, check, b, key[i..n]).value
    decreases n - i
  {
    if i < n {
      assert key[i..n][0] == key[i] && key[i..n][1..] == key[i + 1..n];
      SkipWalkFollows(base, check, Child(base, check, b, key[i] + 1).value, key, i + 1, n);
    }
  }

  /** `_search` as written agrees with the corrected search whenever the key minus its last symbol
      can be walked: only a missing transition makes them differ. */
  lemma SearchAsWrittenAgrees<V>(tr: Trie<V>, key: Key, withValue: bool)
    requires MarkersIndexValues(tr) && |tr.base| > 0 && |key| > 0
    requires Walk(tr.base, tr.check, tr.base[0], key[..|key| - 1]).Some?
    ensures SearchAsWritten(tr, key, withValue) == Search(tr, key, withValue)
  {
    assert key[0..|key| - 1] == key[..|key| - 1];
    SkipWalkFollows(tr.base, tr.check, tr.base[0], key, 0, |key| - 1);
  }

  /** The trie of the single key "A" (symbol 65): `_search("XA")` as written skips the missing
      "X", steps on "A" from the root and reports "XA" (symbols 88, 65), which is not a key; the
      corrected search reports nothing. */
  lemma SearchSkips<V>(tr: Trie<V>)
    requires Built(tr) && tr.keys == [[65]]
    ensures SearchAsWritten(tr, [88, 65], false) == {([88, 65], None)}
    ensures Search(tr, [88, 65], false) == {}
  {
    var used :| Realises(TablesOf(tr, used), 1, tr.keys, Root(tr.keys), true, None);
    MissingX(tr, used);
    assert [88, 65][..1] == [88];
    assert MaxLen(tr.keys) == 1;
    ReportsXA(tr, used);
  }

  /** In the trie of "A" there is no transition on "X" (symbol 88) from the root, so the loop as
      written stays at the root. */
  lemma MissingX<V>(tr: Trie<V>, used: seq<bool>)
    requires Built(tr) && tr.keys == [[65]] && Realises(TablesOf(tr, used), 1, tr.keys, Root(tr.keys), true, None)
    ensures Walk(tr.base, tr.check, tr.base[0], [88]).None?
    ensures SkipWalk(tr.base, tr.check, tr.base[0], [88, 65], 0, 1) == tr.base[0]
  {
    var nx := WalkBuilt(tr, used, [88]);
    assert !IsPrefix([88], tr.keys[0]);
    assert Child(tr.base, tr.check, tr.base[0], 89).None?;
  }

  /** In the trie of "A", the recursion started at the root on "XA" steps on "A" and reports "XA". */
  lemma ReportsXA<V>(tr: Trie<V>, used: seq<bool>)
    requires Built(tr) && tr.keys == [[65]] && Realises(TablesOf(tr, used), 1, tr.keys, Root(tr.keys), true, None)
    ensures SearchRec(tr, tr.base[0], [88, 65], false, 2) == {([88, 65], None)}
  {
    BuiltIndexed(tr);
    var na := WalkBuilt(tr, used, [65]);
    assert IsPrefix([65], tr.keys[0]);
    var nb := Child(tr.base, tr.check, tr.base[0], 66).value;
    assert MaxLen(tr.keys) == 1;
    GatherRealised(tr, used, nb, na, [65], [88, 65], false, 2);
    assert Below(tr, na, [88, 65], false) == {Entry(tr, [88, 65], 1, 0, false)};
    assert [88, 65] + tr.keys[0][1..] == [88, 65];
  }

  // ---------------------------------------------------------------------------
  // `keys`, `values`, `items` and `suffixes`.
  // ---------------------------------------------------------------------------

  /** `k[n:]`: the symbols of `k` from position `n` on, empty when `k` is shorter. */
  function DropPrefix(k: Key, n: nat): Key {
    if n <= |k| then k[n..] else []
  }

  /** `keys(prefix)`: the key list for an empty prefix, otherwise the labels the search reports. */
  function KeysWithPrefix<V(==)>(tr: Trie<V>, prefix: Key): set<Key>
    requires MarkersIndexValues(tr) && |tr.base| > 0
  {
    if |prefix| == 0 then set i | 0 <= i < |tr.keys| :: tr.keys[i]
    else set e | e in Search(tr, prefix, false) :: e.0
  }

  /** `values(prefix)`: the value list for an empty prefix, otherwise the values the search
      reports. */
  function ValuesWithPrefix<V(==)>(tr: Trie<V>, prefix: Key): set<V>
    requires MarkersIndexValues(tr) && |tr.base| > 0
  {
    if |prefix| == 0 then set i | 0 <= i < |tr.values| :: tr.values[i]
    else set e | e in Search(tr, prefix, true) && e.1.Some? :: e.1.value
  }

  /** `items(prefix)`: the keys zipped with the values for an empty prefix, otherwise the pairs the
      search reports. */
  function ItemsWithPrefix<V(==)>(tr: Trie<V>, prefix: Key): set<(Key, V)>
    requires MarkersIndexValues(tr) && |tr.base| > 0
  {
    if |prefix| == 0 then set i | 0 <= i < |tr.keys| && i < |tr.values| :: (tr.keys[i], tr.values[i])
    else set e | e in Search(tr, prefix, true) && e.1.Some? :: (e.0, e.1.value)
  }

  /** `suffixes(prefix)`: the key list for an empty prefix, otherwise each reported key with the
      prefix's length cut off. */
  function SuffixesOf<V(==)>(tr: Trie<V>, prefix: Key): set<Key>
    requires MarkersIndexValues(tr) && |tr.base| > 0
  {
    if |prefix| == 0 then set i | 0 <= i < |tr.keys| :: tr.keys[i]
    else set e | e in Search(tr, prefix, false) :: DropPrefix(e.0, |prefix|)
  }

  /** On a built trie, `keys(prefix)` is the set of keys that start with `prefix`. */
  lemma KeysWithPrefixBuilt<V>(tr: Trie<V>, prefix: Key)
    requires Built(tr)
    ensures KeysWithPrefix(tr, prefix) == set i | 0 <= i < |tr.keys| && IsPrefix(prefix, tr.keys[i]) :: tr.keys[i]
  {
    if |prefix| > 0 {
      SearchBuilt(tr, prefix, false);
      var rhs := set i | 0 <= i < |tr.keys| && IsPrefix(prefix, tr.keys[i]) :: tr.keys[i];
      forall k | k in KeysWithPrefix(tr, prefix) ensures k in rhs {
        var e :| e in Search(tr, prefix, false) && k == e.0;
        var i :| 0 <= i < |tr.keys| && IsPrefix(prefix, tr.keys[i]) && e == Listed(tr, i, false);
      }
      forall i | 0 <= i < |tr.keys| && IsPrefix(prefix, tr.keys[i]) ensures tr.keys[i] in KeysWithPrefix(tr, prefix) {
        assert Listed(tr, i, false) in Search(tr, prefix, false);
      }
    } else {
      forall i | 0 <= i < |tr.keys| ensures IsPrefix(prefix, tr.keys[i]) { }
    }
  }

  /** On a built trie, `values(prefix)` is the set of the values of the keys that start with
      `prefix`. */
  lemma ValuesWithPrefixBuilt<V>(tr: Trie<V>, prefix: Key)
    requires Built(tr)
    ensures ValuesWithPrefix(tr, prefix) == set i | 0 <= i < |tr.keys| && IsPrefix(prefix, tr.keys[i]) :: tr.values[i]
  {
    if |prefix| > 0 {
      SearchBuilt(tr, prefix, true);
      var rhs := set i | 0 <= i < |tr.keys| && IsPrefix(prefix, tr.keys[i]) :: tr.values[i];
      forall v | v in ValuesWithPrefix(tr, prefix) ensures v in rhs {
        var e :| e in Search(tr, prefix, true) && e.1.Some? && v == e.1.value;
        var i :| 0 <= i < |tr.keys| && IsPrefix(prefix, tr.keys[i]) && e == Listed(tr, i, true);
      }
      forall i | 0 <= i < |tr.keys| && IsPrefix(prefix, tr.keys[i]) ensures tr.values[i] in ValuesWithPrefix(tr, prefix) {
        assert Listed(tr, i, true) in Search(tr, prefix, true);
      }
    } else {
      forall i | 0 <= i < |tr.keys| ensures IsPrefix(prefix, tr.keys[i]) { }
    }
  }

  /** On a built trie, `items(prefix)` is the set of pairs of the keys that start with `prefix`. */
  lemma ItemsWithPrefixBuilt<V>(tr: Trie<V>, prefix: Key)
    requires Built(tr)
    ensures ItemsWithPrefix(tr, prefix) ==
      set i | 0 <= i < |tr.keys| && IsPrefix(prefix, tr.keys[i]) :: (tr.keys[i], tr.values[i])
  {
    if |prefix| > 0 {
      SearchBuilt(tr, prefix, true);
      var rhs := set i | 0 <= i < |tr.keys| && IsPrefix(prefix, tr.keys[i]) :: (tr.keys[i], tr.values[i]);
      forall p | p in ItemsWithPrefix(tr, prefix) ensures p in rhs {
        var e :| e in Search(tr, prefix, true) && e.1.Some? && p == (e.0, e.1.value);
        var i :| 0 <= i < |tr.keys| && IsPrefix(prefix, tr.keys[i]) && e == Listed(tr, i, true);
      }
      forall i | 0 <= i < |tr.keys| && IsPrefix(prefix, tr.keys[i])
        ensures (tr.keys[i], tr.values[i]) in ItemsWithPrefix(tr, prefix)
      {
        assert Listed(tr, i, true) in Search(tr, prefix, true);
      }
    } else {
      forall i | 0 <= i < |tr.keys| ensures IsPrefix(prefix, tr.keys[i]) { }
    }
  }

  /** On a built trie, `suffixes(prefix)` is the set of the rests of the keys that start with
      `prefix`. */
  lemma SuffixesOfBuilt<V>(tr: Trie<V>, prefix: Key)
    requires Built(tr)
    ensures SuffixesOf(tr, prefix) ==
      set i | 0 <= i < |tr.keys| && IsPrefix(prefix, tr.keys[i]) :: tr.keys[i][|prefix|..]
  {
    if |prefix| > 0 {
      SearchBuilt(tr, prefix, false);
      var rhs := set i | 0 <= i < |tr.keys| && IsPrefix(prefix, tr.keys[i]) :: tr.keys[i][|prefix|..];
      forall k | k in SuffixesOf(tr, prefix) ensures k in rhs {
        var e :| e in Search(tr, prefix, false) && k == DropPrefix(e.0, |prefix|);
        var i :| 0 <= i < |tr.keys| && IsPrefix(prefix, tr.keys[i]) && e == Listed(tr, i, false);
      }
      forall i | 0 <= i < |tr.keys| && IsPrefix(prefix, tr.keys[i])
        ensures tr.keys[i][|prefix|..] in SuffixesOf(tr, prefix)
      {
        assert Listed(tr, i, false) in Search(tr, prefix, false);
      }
    } else {
      forall i | 0 <= i < |tr.keys| ensures IsPrefix(prefix, tr.keys[i]) && tr.keys[i][|prefix|..] == tr.keys[i] { }
    }
  }
}
