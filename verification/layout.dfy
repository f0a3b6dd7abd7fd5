/** What the builder leaves in the tables, stated per node, and why a lookup then finds exactly
    the keys of the table. */
module Layout {
  import opened Wrappers
  import opened Keys
  import opened Siblings
  import opened Tables
  import opened DoubleArray

  /** A value list, when there is one, has an entry for every key. */
  predicate ValuesCover(keys: seq<Key>, values: Option<seq<int>>) {
    values.Some? ==> |keys| <= |values.value|
  }

  /** What a terminal stands for: the key's index, or the value stored for it. */
  function Stored(values: Option<seq<int>>, i: nat): int
    requires values.Some? ==> i < |values.value|
  {
    match values
    case None => i
    case Some(vs) => vs[i]
  }

  /** The base written for a key that ends at a slot: `-stored - 1`. */
  function Marker(values: Option<seq<int>>, i: nat): (m: int)
    requires values.Some? ==> i < |values.value|
    ensures -m - 1 == Stored(values, i)
    ensures values.None? ==> m == LeafMarker(i)
  {
    match values
    case None => LeafMarker(i)
    case Some(vs) => -vs[i] - 1
  }

  /** Anchor `b` realises `node`: the node's key range splits into sibling groups, `b` owns exactly
      their slots, and every slot holds its group's marker or the anchor of a sub-trie that
      realises the group in turn. */
  ghost predicate Realises(u: Tables, b: int, keys: seq<Key>, node: Node, strict: bool, values: Option<seq<int>>)
    decreases MaxLen(keys) - node.depth, 1
  {
    && ValidRange(keys, node) && ValuesCover(keys, values) && 1 <= b
    && Split(keys, node, strict).Success?
    && var sibs := Split(keys, node, strict).value;
       && |sibs| > 0
       && Anchored(u, b, sibs)
       && forall j :: 0 <= j < |sibs| ==> ChildOk(u, b, keys, node.depth, sibs[j], strict, values)
  }

  /** The slot of group `n` under anchor `b`: a marker when its keys end there, otherwise the
      anchor of the group's sub-trie. */
  ghost predicate ChildOk(u: Tables, b: int, keys: seq<Key>, d: nat, n: Node, strict: bool, values: Option<seq<int>>)
    decreases MaxLen(keys) - d, 0
  {
    && ValidRange(keys, n) && n.left < n.right && ValuesCover(keys, values)
    && 0 <= b + n.code < |u.base|
    && (n.code == 0 ==> u.base[b + n.code] == Marker(values, n.left) < 0)
    && (n.code != 0 ==>
          && 1 <= u.base[b + n.code] && n.depth == d + 1 && n.depth <= MaxLen(keys)
          && Realises(u, u.base[b + n.code], keys, n, strict, values))
  }

  /** Slot `q` is exempt from growth only while its base is still unset. */
  predicate Quiet(u: Tables, q: int) {
    0 <= q < |u.base| ==> u.base[q] == 0
  }

  /** Growth keeps every realised sub-trie realised. */
  lemma {:induction false} RealisesGrows(u: Tables, v: Tables, q: int, b: int, keys: seq<Key>, node: Node,
                                         strict: bool, values: Option<seq<int>>)
    requires Realises(u, b, keys, node, strict, values) && Grows(u, v, q) && Quiet(u, q)
    ensures Realises(v, b, keys, node, strict, values)
    decreases MaxLen(keys) - node.depth, 1
  {
    var sibs := Split(keys, node, strict).value;
    AnchoredGrows(u, v, q, b, sibs);
    forall j | 0 <= j < |sibs|
      ensures ChildOk(v, b, keys, node.depth, sibs[j], strict, values)
    {
      ChildOkGrows(u, v, q, b, keys, node.depth, sibs[j], strict, values);
    }
  }

  lemma {:induction false} ChildOkGrows(u: Tables, v: Tables, q: int, b: int, keys: seq<Key>, d: nat, n: Node,
                                        strict: bool, values: Option<seq<int>>)
    requires ChildOk(u, b, keys, d, n, strict, values) && Grows(u, v, q) && Quiet(u, q)
    ensures ChildOk(v, b, keys, d, n, strict, values)
    decreases MaxLen(keys) - d, 0
  {
    if n.code != 0 {
      RealisesGrows(u, v, q, u.base[b + n.code], keys, n, strict, values);
    }
  }

  // ---------------------------------------------------------------------------
  // Facts about the groups of a node.
  // ---------------------------------------------------------------------------

  /** A group whose keys end at the parent's depth has no sub-partition; every other group has
      one whenever the scan succeeds, and lies within the longest key. */
  lemma ChildFetch(keys: seq<Key>, parent: Node, sibs: seq<Node>, strict: bool, j: nat)
    requires ValidRange(keys, parent) && Fetch(keys, parent, strict) == Success(sibs) && j < |sibs|
    ensures ValidRange(keys, sibs[j]) && sibs[j].left < sibs[j].right && sibs[j].depth == parent.depth + 1
    ensures sibs[j].code == 0 ==> Fetch(keys, sibs[j], strict) == Success([])
    ensures sibs[j].code != 0 ==> sibs[j].depth <= MaxLen(keys)
    ensures sibs[j].code != 0 && Fetch(keys, sibs[j], strict).Success? ==> |Fetch(keys, sibs[j], strict).value| > 0
  {
    var n := sibs[j];
    var d := parent.depth;
    if n.code == 0 {
      forall k | n.left <= k < n.right
        ensures |keys[k]| < n.depth
      {
        if |keys[k]| >= d {
          assert KeyCode(keys, k, d) == 0;
        }
      }
      LeafFetch(keys, n, strict);
    } else {
      assert KeyCode(keys, n.left, d) == n.code;
    }
  }

  /** A range whose keys all end above the depth splits into no groups. */
  lemma LeafFetch(keys: seq<Key>, n: Node, strict: bool)
    requires ValidRange(keys, n)
    requires forall k :: n.left <= k < n.right ==> |keys[k]| < n.depth
    ensures Fetch(keys, n, strict) == Success([])
  {
    assert CodesAscending(keys, n.left, n.right, n.depth);
  }

  /** The keys of a group with a nonzero code extend the parent's prefix by the code's symbol. */
  lemma ChildWellFormed(keys: seq<Key>, parent: Node, sibs: seq<Node>, strict: bool, prefix: Key, j: nat)
    requires WellFormed(keys, parent, prefix) && Fetch(keys, parent, strict) == Success(sibs)
    requires j < |sibs| && sibs[j].code != 0
    ensures WellFormed(keys, sibs[j], prefix + [sibs[j].code - 1])
  {
    var n := sibs[j];
    var d := parent.depth;
    var p' := prefix + [n.code - 1];
    forall k | n.left <= k < n.right
      ensures IsPrefix(p', keys[k])
    {
      assert IsPrefix(prefix, keys[k]);
      assert KeyCode(keys, k, d) == n.code;
      assert keys[k][..d + 1] == keys[k][..d] + [keys[k][d]];
    }
  }

  /** On a sorted table, both scans find the same groups, with strictly ascending codes. */
  lemma SortedScan(keys: seq<Key>, node: Node, prefix: Key, strict: bool)
    requires StrictlySorted(keys) && WellFormed(keys, node, prefix)
    ensures Fetch(keys, node, strict) == Fetch(keys, node, true)
    ensures Fetch(keys, node, true).Success?
    ensures PartOrder(Fetch(keys, node, true).value, true)
  {
    FetchSortedSucceeds(keys, node, prefix);
    if !strict {
      UncheckedFetchAgrees(keys, node);
    }
  }

  // ---------------------------------------------------------------------------
  // Lookup.
  // ---------------------------------------------------------------------------

  /** In a sorted table the first occurrence of a key is its only one. */
  lemma KeyIndexAt(ks: seq<Key>, lo: nat, hi: nat, k: Key, i: nat)
    requires StrictlySorted(ks) && lo <= i < hi <= |ks| && ks[i] == k
    ensures KeyIndex(ks, lo, hi, k) == Some(i)
  {
    var r := KeyIndex(ks, lo, hi, k);
    if r.value != i {
      SortedDistinct(ks, r.value, i);
    }
  }

  /** Searching a wider range finds nothing new when every occurrence lies in the narrower one. */
  lemma {:induction false} KeyIndexNarrow(ks: seq<Key>, lo: nat, lo': nat, hi': nat, hi: nat, k: Key)
    requires lo <= lo' <= hi' <= hi <= |ks|
    requires forall i :: lo <= i < hi && ks[i] == k ==> lo' <= i < hi'
    ensures KeyIndex(ks, lo, hi, k) == KeyIndex(ks, lo', hi', k)
    decreases hi - lo
  {
    if lo < lo' {
      KeyIndexNarrow(ks, lo + 1, lo', hi', hi, k);
    } else if lo' < hi' {
      if ks[lo'] != k {
        KeyIndexNarrow(ks, lo + 1, lo' + 1, hi', hi, k);
      }
    }
  }

  /** Every key of a well-formed node's range lies in the group that carries its code. */
  lemma KeyGroup(keys: seq<Key>, node: Node, sibs: seq<Node>, strict: bool, prefix: Key, i: nat) returns (j: nat)
    requires WellFormed(keys, node, prefix) && Split(keys, node, strict) == Success(sibs)
    requires node.left <= i < node.right
    ensures j < |sibs| && sibs[j].left <= i < sibs[j].right
    ensures |keys[i]| >= node.depth && KeyCode(keys, i, node.depth) == sibs[j].code
  {
    assert Split(keys, node, strict) == Fetch(keys, node, strict);
    assert IsPrefix(prefix, keys[i]);
    j := PartitionCovers(keys, node, sibs, strict, i);
  }

  lemma InCodes(sibs: seq<Node>, j: nat)
    requires j < |sibs|
    ensures sibs[j].code in Codes(sibs)
  {
  }

  /** Unfolds `Realises` once. */
  lemma RealisesUnfold(u: Tables, b: int, keys: seq<Key>, node: Node, strict: bool, values: Option<seq<int>>)
    returns (sibs: seq<Node>)
    requires Realises(u, b, keys, node, strict, values)
    ensures ValidRange(keys, node) && Split(keys, node, strict) == Success(sibs) && |sibs| > 0 && 1 <= b
    ensures Anchored(u, b, sibs)
    ensures forall j :: 0 <= j < |sibs| ==> ChildOk(u, b, keys, node.depth, sibs[j], strict, values)
  {
    sibs := Split(keys, node, strict).value;
  }

  // The table side of a lookup step.

  /** The anchor is a terminal exactly when a group has code 0. */
  lemma TerminalAt(u: Tables, b: nat, sibs: seq<Node>)
    requires Anchored(u, b, sibs)
    ensures Terminal(u.base, u.check, b).Some? ==> 0 in Codes(sibs)
  {
    if Terminal(u.base, u.check, b).Some? {
      assert Claims(b, sibs, b);
    }
  }

  /** A code-0 group's slot is the anchor itself, a terminal storing the group's value. */
  lemma TerminalOf(u: Tables, b: nat, keys: seq<Key>, d: nat, sibs: seq<Node>, strict: bool,
                   values: Option<seq<int>>, j: nat)
    requires Anchored(u, b, sibs) && j < |sibs| && sibs[j].code == 0
    requires ChildOk(u, b, keys, d, sibs[j], strict, values)
    ensures sibs[j].left < |keys| && ValuesCover(keys, values)
    ensures Terminal(u.base, u.check, b) == Some(Stored(values, sibs[j].left))
  {
    assert SlotOf(b, sibs[j]) == b;
  }

  /** The transition on code `c >= 1` exists only when a group has code `c`. */
  lemma ChildAt(u: Tables, b: nat, sibs: seq<Node>, c: nat)
    requires Anchored(u, b, sibs) && c >= 1
    ensures Child(u.base, u.check, b, c).Some? ==> c in Codes(sibs)
  {
    if Child(u.base, u.check, b, c).Some? {
      assert Claims(b, sibs, b + c);
    }
  }

  /** The transition on a group's code leads to the anchor that realises the group. */
  lemma ChildOf(u: Tables, b: nat, keys: seq<Key>, d: nat, sibs: seq<Node>, strict: bool,
                values: Option<seq<int>>, j: nat)
    requires Anchored(u, b, sibs) && j < |sibs| && sibs[j].code >= 1
    requires ChildOk(u, b, keys, d, sibs[j], strict, values)
    ensures Child(u.base, u.check, b, sibs[j].code).Some?
    ensures Realises(u, Child(u.base, u.check, b, sibs[j].code).value, keys, sibs[j], strict, values)
  {
    assert SlotOf(b, sibs[j]) == b + sibs[j].code;
  }

  // The key side of a lookup step.

  /** The node's own prefix is a key of its range exactly when a group has code 0, and then it
      is that group's first key. */
  lemma KeyHere(keys: seq<Key>, node: Node, sibs: seq<Node>, strict: bool, prefix: Key, j: nat)
    requires StrictlySorted(keys) && WellFormed(keys, node, prefix) && Split(keys, node, strict) == Success(sibs)
    requires j < |sibs|
    ensures KeyIndex(keys, node.left, node.right, prefix).Some? <==> 0 in Codes(sibs)
    ensures sibs[j].code == 0 ==> KeyIndex(keys, node.left, node.right, prefix) == Some(sibs[j].left)
  {
    assert Split(keys, node, strict) == Fetch(keys, node, strict);
    if sibs[j].code == 0 {
      LeaderIsPrefix(keys, node, sibs, strict, prefix, j);
      KeyIndexAt(keys, node.left, node.right, prefix, sibs[j].left);
    }
    if 0 in Codes(sibs) {
      var k :| 0 <= k < |sibs| && sibs[k].code == 0;
      LeaderIsPrefix(keys, node, sibs, strict, prefix, k);
      KeyIndexAt(keys, node.left, node.right, prefix, sibs[k].left);
    }
    var r := KeyIndex(keys, node.left, node.right, prefix);
    if r.Some? {
      var k := KeyGroup(keys, node, sibs, strict, prefix, r.value);
      InCodes(sibs, k);
    }
  }

  /** The first key of a code-0 group is the node's prefix itself. */
  lemma LeaderIsPrefix(keys: seq<Key>, node: Node, sibs: seq<Node>, strict: bool, prefix: Key, j: nat)
    requires WellFormed(keys, node, prefix) && Fetch(keys, node, strict) == Success(sibs)
    requires j < |sibs| && sibs[j].code == 0
    ensures node.left <= sibs[j].left < node.right && keys[sibs[j].left] == prefix
  {
    var k := sibs[j].left;
    assert KeyCode(keys, k, node.depth) == 0;
    assert IsPrefix(prefix, keys[k]);
  }

  /** A key below the node that continues with a symbol no group carries is not in the range. */
  lemma KeyBelowNone(keys: seq<Key>, node: Node, sibs: seq<Node>, strict: bool, prefix: Key, s: Key)
    requires WellFormed(keys, node, prefix) && Split(keys, node, strict) == Success(sibs)
    requires |s| > 0 && s[0] + 1 !in Codes(sibs)
    ensures KeyIndex(keys, node.left, node.right, prefix + s).None?
  {
    var key := prefix + s;
    assert |key| > node.depth && key[node.depth] == s[0];
    var r := KeyIndex(keys, node.left, node.right, key);
    if r.Some? {
      var k := KeyGroup(keys, node, sibs, strict, prefix, r.value);
      InCodes(sibs, k);
    }
  }

  /** A key of the range whose code matches group `j` lies in group `j`: the codes are distinct. */
  lemma KeyInGroup(keys: seq<Key>, node: Node, sibs: seq<Node>, strict: bool, prefix: Key, i: nat, j: nat)
    requires WellFormed(keys, node, prefix) && Fetch(keys, node, strict) == Success(sibs)
    requires PartOrder(sibs, true) && j < |sibs| && node.left <= i < node.right
    requires |keys[i]| >= node.depth && KeyCode(keys, i, node.depth) == sibs[j].code
    ensures sibs[j].left <= i < sibs[j].right
  {
    assert Split(keys, node, strict) == Fetch(keys, node, strict);
    var k := KeyGroup(keys, node, sibs, strict, prefix, i);
  }

  /** A key below the node that continues with group `j`'s symbol is found in group `j`'s range. */
  lemma KeyBelow(keys: seq<Key>, node: Node, sibs: seq<Node>, strict: bool, prefix: Key, s: Key, j: nat)
    requires StrictlySorted(keys) && WellFormed(keys, node, prefix) && Split(keys, node, strict) == Success(sibs)
    requires |s| > 0 && j < |sibs| && sibs[j].code == s[0] + 1
    ensures WellFormed(keys, sibs[j], prefix + [s[0]])
    ensures KeyIndex(keys, node.left, node.right, prefix + s) == KeyIndex(keys, sibs[j].left, sibs[j].right, prefix + s)
  {
    assert Split(keys, node, strict) == Fetch(keys, node, strict);
    SortedScan(keys, node, prefix, strict);
    var d := node.depth;
    var key := prefix + s;
    assert |key| > d && key[d] == s[0];
    ChildWellFormed(keys, node, sibs, strict, prefix, j);
    forall i | node.left <= i < node.right && keys[i] == key
      ensures sibs[j].left <= i < sibs[j].right
    {
      assert KeyCode(keys, i, d) == CodeAt(key, d);
      KeyInGroup(keys, node, sibs, strict, prefix, i, j);
    }
    KeyIndexNarrow(keys, node.left, sibs[j].left, sibs[j].right, node.right, key);
  }

  /** The lookup of the node's own prefix. */
  lemma LookupHere(u: Tables, b: int, keys: seq<Key>, node: Node, strict: bool, values: Option<seq<int>>,
                   prefix: Key)
    requires Realises(u, b, keys, node, strict, values)
    requires StrictlySorted(keys) && WellFormed(keys, node, prefix)
    ensures LookupFrom(u.base, u.check, b, []).Some? <==> KeyIndex(keys, node.left, node.right, prefix).Some?
    ensures LookupFrom(u.base, u.check, b, []).Some? ==>
              LookupFrom(u.base, u.check, b, []).value == Stored(values, KeyIndex(keys, node.left, node.right, prefix).value)
  {
    var sibs := RealisesUnfold(u, b, keys, node, strict, values);
    TerminalAt(u, b, sibs);
    var j := 0;
    if 0 in Codes(sibs) {
      j :| 0 <= j < |sibs| && sibs[j].code == 0;
      TerminalOf(u, b, keys, node.depth, sibs, strict, values, j);
    }
    KeyHere(keys, node, sibs, strict, prefix, j);
  }

  /** One symbol of a lookup: either no transition and no key, or a transition to the anchor
      of the group whose range holds every candidate key. */
  lemma LookupDown(u: Tables, b: int, keys: seq<Key>, node: Node, strict: bool, values: Option<seq<int>>,
                   prefix: Key, s: Key)
    returns (n: Node)
    requires Realises(u, b, keys, node, strict, values)
    requires StrictlySorted(keys) && WellFormed(keys, node, prefix) && |s| > 0
    ensures Child(u.base, u.check, b, s[0] + 1).None? ==> KeyIndex(keys, node.left, node.right, prefix + s).None?
    ensures Child(u.base, u.check, b, s[0] + 1).Some? ==>
              && Realises(u, Child(u.base, u.check, b, s[0] + 1).value, keys, n, strict, values)
              && WellFormed(keys, n, prefix + [s[0]])
              && KeyIndex(keys, node.left, node.right, prefix + s) == KeyIndex(keys, n.left, n.right, prefix + s)
  {
    var sibs := RealisesUnfold(u, b, keys, node, strict, values);
    var c := s[0] + 1;
    ChildAt(u, b, sibs, c);
    n := sibs[0];
    if c in Codes(sibs) {
      var j :| 0 <= j < |sibs| && sibs[j].code == c;
      LookupIntoChild(u, b, keys, node, sibs, strict, values, prefix, s, j);
      n := sibs[j];
    } else {
      KeyBelowNone(keys, node, sibs, strict, prefix, s);
    }
  }

  /** The lookup step into group `j` when it carries the code of `s[0]`. */
  lemma LookupIntoChild(u: Tables, b: int, keys: seq<Key>, node: Node, sibs: seq<Node>, strict: bool,
                        values: Option<seq<int>>, prefix: Key, s: Key, j: nat)
    requires StrictlySorted(keys) && WellFormed(keys, node, prefix) && Split(keys, node, strict) == Success(sibs)
    requires 1 <= b && Anchored(u, b, sibs) && |s| > 0 && j < |sibs| && sibs[j].code == s[0] + 1
    requires ChildOk(u, b, keys, node.depth, sibs[j], strict, values)
    ensures Child(u.base, u.check, b, s[0] + 1).Some?
    ensures Realises(u, Child(u.base, u.check, b, s[0] + 1).value, keys, sibs[j], strict, values)
    ensures WellFormed(keys, sibs[j], prefix + [s[0]])
    ensures KeyIndex(keys, node.left, node.right, prefix + s) == KeyIndex(keys, sibs[j].left, sibs[j].right, prefix + s)
  {
    ChildOf(u, b, keys, node.depth, sibs, strict, values, j);
    KeyBelow(keys, node, sibs, strict, prefix, s, j);
  }

  /** A realised trie answers the lookup of `s` below `node` with the stored value of the key
      `prefix + s`, and with nothing when the node's range holds no such key. */
  lemma {:induction false} LookupRealised(u: Tables, b: int, keys: seq<Key>, node: Node, strict: bool,
                                          values: Option<seq<int>>, prefix: Key, s: Key)
    requires Realises(u, b, keys, node, strict, values)
    requires StrictlySorted(keys) && WellFormed(keys, node, prefix)
    ensures LookupFrom(u.base, u.check, b, s).Some? <==> KeyIndex(keys, node.left, node.right, prefix + s).Some?
    ensures LookupFrom(u.base, u.check, b, s).Some? ==>
              LookupFrom(u.base, u.check, b, s).value == Stored(values, KeyIndex(keys, node.left, node.right, prefix + s).value)
    decreases |s|
  {
    if |s| == 0 {
      assert prefix + s == prefix;
      LookupHere(u, b, keys, node, strict, values, prefix);
    } else {
      var n := LookupDown(u, b, keys, node, strict, values, prefix, s);
      var step := Child(u.base, u.check, b, s[0] + 1);
      if step.Some? {
        assert prefix + s == (prefix + [s[0]]) + s[1..];
        LookupRealised(u, step.value, keys, n, strict, values, prefix + [s[0]], s[1..]);
      }
    }
  }
}
