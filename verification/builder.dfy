/** `_insert` and `_build` of the static builder: place each sibling list, give every slot a leaf
    marker or the anchor of the sub-trie below it, and read the finished tables back. */
module Builder {
  import opened Wrappers
  import opened Keys
  import opened Siblings
  import opened Tables
  import opened DoubleArray
  import opened Layout

  /** The error the DARTS builder records when a value-derived leaf marker is not negative. */
  const VALUE_ERROR: int := -2

  /** The allocation `_build` starts from. */
  const INITIAL_SIZE: nat := 65536 * 32

  /** The table is sorted and the node's keys all extend `prefix`. */
  ghost predicate Ordered(keys: seq<Key>, node: Node, prefix: Key) {
    StrictlySorted(keys) && WellFormed(keys, node, prefix)
  }

  /** When the build lays the node out faithfully: the scan checks the order, or the input is
      sorted so that no check is needed. */
  ghost predicate Good(keys: seq<Key>, node: Node, strict: bool, prefix: Key) {
    strict || Ordered(keys, node, prefix)
  }

  /** Every negative base decodes to an index below `n`. */
  ghost predicate MarkersBelow(u: Tables, n: nat) {
    forall p :: 0 <= p < |u.base| && u.base[p] < 0 ==> -u.base[p] - 1 < n
  }

  // ---------------------------------------------------------------------------
  // Facts the insertion needs.
  // ---------------------------------------------------------------------------

  /** A faithfully laid out node has strictly ascending, hence distinct, sibling codes. */
  lemma GoodOrder(keys: seq<Key>, node: Node, sibs: seq<Node>, strict: bool, prefix: Key)
    requires ValidRange(keys, node) && Split(keys, node, strict) == Success(sibs)
    requires Good(keys, node, strict, prefix)
    ensures PartOrder(sibs, true)
  {
    assert Split(keys, node, strict) == Fetch(keys, node, strict);
    if !strict {
      SortedScan(keys, node, prefix, strict);
    }
  }

  /** What is known of group `j` before its own scan: its range, its depth, that a code-0 group
      has no groups below it, and that order carries over to a group with a symbol. */
  lemma ChildFacts(keys: seq<Key>, node: Node, sibs: seq<Node>, strict: bool, prefix: Key, j: nat)
    requires ValidRange(keys, node) && Split(keys, node, strict) == Success(sibs) && j < |sibs|
    ensures ValidRange(keys, sibs[j]) && sibs[j].left < sibs[j].right && sibs[j].depth == node.depth + 1
    ensures sibs[j].code == 0 ==> Fetch(keys, sibs[j], strict) == Success([])
    ensures sibs[j].code != 0 ==> sibs[j].depth <= MaxLen(keys)
    ensures sibs[j].code != 0 && Fetch(keys, sibs[j], strict).Success? ==> |Fetch(keys, sibs[j], strict).value| > 0
    ensures sibs[j].code != 0 && Ordered(keys, node, prefix) ==> Ordered(keys, sibs[j], prefix + [sibs[j].code - 1])
  {
    assert Split(keys, node, strict) == Fetch(keys, node, strict);
    ChildFetch(keys, node, sibs, strict, j);
    if sibs[j].code != 0 && Ordered(keys, node, prefix) {
      ChildWellFormed(keys, node, sibs, strict, prefix, j);
    }
  }

  /** Writing the base of a claimed slot keeps the tables sound and only touches that slot. */
  lemma SetBase(u: Tables, q: nat, x: int)
    requires Sound(u) && q < |u.check| && u.check[q] != 0
    ensures Sound(u.(base := u.base[q := x])) && Grows(u, u.(base := u.base[q := x]), q)
  {
  }

  // ---------------------------------------------------------------------------
  // `_insert`.
  // ---------------------------------------------------------------------------

  /** One turn of `_insert`'s second loop: scan group `j`; a group with nothing below gets the
      leaf marker of its first key, any other group gets the anchor its own insertion chose.
      A failed scan or a non-negative value marker aborts the build with the error. */
  method FillChild(keys: seq<Key>, u: Tables, b: nat, node: Node, sibs: seq<Node>, j: nat, strict: bool,
                   values: Option<seq<int>>, ghost prefix: Key)
    returns (r: Result<Tables, int>)
    requires Sound(u) && ValidRange(keys, node) && ValuesCover(keys, values)
    requires Split(keys, node, strict) == Success(sibs) && j < |sibs|
    requires 1 <= b && Used(u, b) && SlotOf(b, sibs[j]) < |u.check| && u.check[SlotOf(b, sibs[j])] == b
    requires Good(keys, node, strict, prefix) ==> u.base[SlotOf(b, sibs[j])] == 0
    decreases MaxLen(keys) - node.depth, 0
    ensures r.Failure? ==>
              || (r.error == ORDER_ERROR && strict && !Ordered(keys, node, prefix))
              || (r.error == VALUE_ERROR && values.Some?)
    ensures r.Success? ==> Sound(r.value) && Grows(u, r.value, SlotOf(b, sibs[j]))
    ensures r.Success? ==> u.size <= r.value.size && u.nextCheckPos <= r.value.nextCheckPos
    ensures r.Success? && values.None? && MarkersBelow(u, |keys|) ==> MarkersBelow(r.value, |keys|)
    ensures r.Success? && Good(keys, node, strict, prefix) ==> ChildOk(r.value, b, keys, node.depth, sibs[j], strict, values)
  {
    var n := sibs[j];
    var slot := SlotOf(b, n);
    ChildFacts(keys, node, sibs, strict, prefix, j);
    var fetched := Fetch(keys, n, strict);
    if fetched.Failure? {
      if Ordered(keys, node, prefix) {
        FetchSortedSucceeds(keys, n, prefix + [n.code - 1]);
      }
      return Failure(fetched.error);
    }
    var below := fetched.value;
    if |below| == 0 {
      var m := Marker(values, n.left);
      if values.Some? && m >= 0 {
        return Failure(VALUE_ERROR);
      }
      SetBase(u, slot, m);
      r := Success(u.(base := u.base[slot := m]));
    } else {
      assert Split(keys, n, strict) == Fetch(keys, n, strict);
      var sub := Insert(keys, u, n, below, strict, values, prefix + [n.code - 1]);
      if sub.Failure? {
        return Failure(sub.error);
      }
      var w := sub.value.0;
      var h := sub.value.1;
      SetBase(w, slot, h);
      var v := w.(base := w.base[slot := h]);
      GrowsTrans(u, w, v, -1, slot);
      if Good(keys, node, strict, prefix) {
        RealisesGrows(w, v, slot, h, keys, n, strict, values);
      }
      r := Success(v);
    }
  }

  /** `_insert`: place the siblings at the first anchor that fits, then fill their slots one by
      one. On success the tables have only grown, and when the node is laid out faithfully the
      anchor realises it. */
  method Insert(keys: seq<Key>, t: Tables, node: Node, sibs: seq<Node>, strict: bool,
                values: Option<seq<int>>, ghost prefix: Key)
    returns (r: Result<(Tables, nat), int>)
    requires Sound(t) && ValidRange(keys, node) && ValuesCover(keys, values)
    requires Split(keys, node, strict) == Success(sibs) && |sibs| > 0
    requires node.depth <= MaxLen(keys)
    decreases MaxLen(keys) - node.depth, 1
    ensures r.Failure? ==>
              || (r.error == ORDER_ERROR && strict && !Ordered(keys, node, prefix))
              || (r.error == VALUE_ERROR && values.Some?)
    ensures r.Success? ==> Sound(r.value.0) && Grows(t, r.value.0, -1) && FirstFit(t, sibs, r.value.1)
    ensures r.Success? ==> r.value.1 + sibs[|sibs| - 1].code + 1 <= r.value.0.size && t.size <= r.value.0.size
    ensures r.Success? ==> t.nextCheckPos <= r.value.0.nextCheckPos
    ensures r.Success? && values.None? && MarkersBelow(t, |keys|) ==> MarkersBelow(r.value.0, |keys|)
    ensures r.Success? && Good(keys, node, strict, prefix) ==> Realises(r.value.0, r.value.1, keys, node, strict, values)
  {
    var u, begin := Place(t, sibs);
    var j := 0;
    while j < |sibs|
      invariant j <= |sibs|
      invariant Sound(u) && Grows(t, u, -1) && Anchored(u, begin, sibs)
      invariant begin + sibs[|sibs| - 1].code + 1 <= u.size && t.size <= u.size
      invariant t.nextCheckPos <= u.nextCheckPos
      invariant values.None? && MarkersBelow(t, |keys|) ==> MarkersBelow(u, |keys|)
      invariant Good(keys, node, strict, prefix) ==> Filled(u, begin, keys, node, sibs, strict, values, j)
    {
      var f := FillChild(keys, u, begin, node, sibs, j, strict, values, prefix);
      if f.Failure? {
        return Failure(f.error);
      }
      InsertStep(t, u, f.value, begin, keys, node, sibs, j, strict, values, prefix);
      u := f.value;
      j := j + 1;
    }
    r := Success((u, begin));
  }

  /** The groups before `j` have their slots filled, and the slots from `j` on are still unset. */
  ghost predicate Filled(u: Tables, b: nat, keys: seq<Key>, node: Node, sibs: seq<Node>, strict: bool,
                         values: Option<seq<int>>, j: nat)
    requires Anchored(u, b, sibs)
  {
    && (forall k :: 0 <= k < j && k < |sibs| ==> ChildOk(u, b, keys, node.depth, sibs[k], strict, values))
    && (forall k :: j <= k < |sibs| ==> u.base[SlotOf(b, sibs[k])] == 0)
  }

  /** Filling slot `j` keeps the loop's invariant: the slot was free when the insertion began,
      so growing it is invisible from there, and no other sibling shares it. */
  lemma InsertStep(t: Tables, u: Tables, v: Tables, b: nat, keys: seq<Key>, node: Node, sibs: seq<Node>,
                   j: nat, strict: bool, values: Option<seq<int>>, prefix: Key)
    requires Sound(t) && j < |sibs| && FirstFit(t, sibs, b)
    requires ValidRange(keys, node) && Split(keys, node, strict) == Success(sibs)
    requires Grows(t, u, -1) && Anchored(u, b, sibs) && Grows(u, v, SlotOf(b, sibs[j]))
    requires Good(keys, node, strict, prefix) ==>
               && Filled(u, b, keys, node, sibs, strict, values, j)
               && ChildOk(v, b, keys, node.depth, sibs[j], strict, values)
    ensures Grows(t, v, -1) && Anchored(v, b, sibs)
    ensures Good(keys, node, strict, prefix) ==> Filled(v, b, keys, node, sibs, strict, values, j + 1)
  {
    var q := SlotOf(b, sibs[j]);
    assert Free(t, q);
    GrowsFresh(t, u, v, q);
    AnchoredGrows(u, v, q, b, sibs);
    if Good(keys, node, strict, prefix) {
      GoodOrder(keys, node, sibs, strict, prefix);
      forall k | 0 <= k < j
        ensures ChildOk(v, b, keys, node.depth, sibs[k], strict, values)
      {
        ChildOkGrows(u, v, q, b, keys, node.depth, sibs[k], strict, values);
      }
      forall k | j + 1 <= k < |sibs|
        ensures v.base[SlotOf(b, sibs[k])] == 0
      {
        assert sibs[j].code < sibs[k].code;
      }
    }
  }

  // ---------------------------------------------------------------------------
  // `_build` and `_make_code_list`.
  // ---------------------------------------------------------------------------

  /** The tables `_build` starts from: `INITIAL_SIZE` free slots, the root's anchor 1 stored in
      `base[0]`, the cursor at slot 0. */
  function Initial(): (t: Tables)
    ensures Sound(t) && |t.check| == INITIAL_SIZE && t.base[0] == 1
    ensures forall p :: 0 <= p < |t.check| ==> t.check[p] == 0 && !t.used[p] && t.base[p] >= 0
    ensures t.nextCheckPos == 0 && t.size == 0
  {
    Tables(seq(INITIAL_SIZE, p => if p == 0 then 1 else 0), seq(INITIAL_SIZE, _ => 0),
           seq(INITIAL_SIZE, _ => false), 0, 0)
  }

  /** On the initial tables the root's siblings always land on anchor 1, the value `base[0]`
      holds. */
  lemma RootAnchor(t: Tables, sibs: seq<Node>, b: nat)
    requires Sound(t) && |sibs| > 0 && t.nextCheckPos == 0
    requires forall p :: 0 <= p < |t.check| ==> t.check[p] == 0 && !t.used[p]
    requires FirstFit(t, sibs, b)
    ensures b == 1
  {
    assert LowestBegin(t, sibs) == 1;
    assert Fits(t, 1, sibs);
  }

  /** A non-empty table splits at the root into at least one group. */
  lemma RootSplits(keys: seq<Key>, sibs: seq<Node>)
    requires |keys| > 0 && Fetch(keys, Node(0, 0, 0, |keys|), true) == Success(sibs)
    ensures |sibs| > 0
  {
    var j := PartitionCovers(keys, Node(0, 0, 0, |keys|), sibs, true, 0);
  }

  /** `_make_code_list`: slot `c > 0` lists the slots whose `check` names it, that is the slots
      of the siblings anchored at `c`; slot 0 lists none. */
  method MakeCodeList(check: seq<int>) returns (codes: seq<set<nat>>)
    requires forall p :: 0 <= p < |check| ==> 0 <= check[p] <= p
    ensures |codes| == |check|
    ensures forall c: nat, p: nat :: c < |codes| ==> (p in codes[c] <==> 0 < c && p < |check| && check[p] == c)
  {
    codes := seq(|check|, _ => {});
    var i := 0;
    while i < |check|
      invariant i <= |check| && |codes| == |check|
      invariant forall c: nat, p: nat :: c < |codes| ==> (p in codes[c] <==> 0 < c && p < i && check[p] == c)
    {
      var c := check[i];
      if c > 0 {
        codes := codes[c := codes[c] + {i}];
      }
      i := i + 1;
    }
    assert i == |check|;
  }

  /** The root of a key table: its whole range, at depth 0. */
  function Root(keys: seq<Key>): Node {
    Node(0, 0, 0, |keys|)
  }

  /** The working tables of a finished trie, with the `used` marks its build kept. */
  function TablesOf<V>(tr: Trie<V>, used: seq<bool>): Tables {
    Tables(tr.base, tr.check, used, tr.size, 0)
  }

  /** The table's pairs, key `i` with value `i`. */
  function Pairs<V>(tr: Trie<V>): (ps: seq<(Key, V)>)
    requires |tr.keys| == |tr.values|
    ensures |ps| == |tr.keys|
    ensures forall i :: 0 <= i < |ps| ==> ps[i] == (tr.keys[i], tr.values[i])
  {
    seq(|tr.keys|, i requires 0 <= i < |tr.keys| => (tr.keys[i], tr.values[i]))
  }

  /** A finished build: sorted keys with one value each, the root anchor 1 in `base[0]`, every
      leaf marker an index of the value list, the reverse index in step with `check`, and tables
      that realise the root for the `used` marks the build kept. */
  ghost predicate Built<V>(tr: Trie<V>) {
    && |tr.keys| == |tr.values| > 0 && StrictlySorted(tr.keys)
    && |tr.base| == |tr.check| == |tr.codes| > 0 && tr.base[0] == 1
    && MarkersIndexValues(tr)
    && (forall c: nat, p: nat :: c < |tr.codes| ==> (p in tr.codes[c] <==> 0 < c && p < |tr.check| && tr.check[p] == c))
    && exists used :: Realises(TablesOf(tr, used), 1, tr.keys, Root(tr.keys), true, None)
  }

  /** `_build`: sort the mapping, start from the initial tables, split the whole table at the root
      and insert the groups, then index the children. An empty mapping has no first sibling, so
      there is no trie. */
  method Build<V(!new)>(entries: seq<(Key, V)>) returns (r: Option<Trie<V>>)
    requires DistinctKeys(entries)
    ensures r.None? <==> |entries| == 0
    ensures r.Some? ==> Built(r.value) && multiset(Pairs(r.value)) == multiset(entries)
    ensures r.Some? ==> forall k, v :: Get(r.value, k) == Some(v) <==> (k, v) in entries
  {
    var es := SortEntries(entries);
    var keys := KeysOf(es);
    var vals := ValuesOf(es);
    if |keys| == 0 {
      return None;
    }
    SortedEntriesKeys(es);
    var t := Initial();
    var root := Root(keys);
    RootOrdered(keys);
    FetchSortedSucceeds(keys, root, []);
    var sibs := Fetch(keys, root, true).value;
    RootSplits(keys, sibs);
    assert Split(keys, root, true) == Fetch(keys, root, true);
    var ins := Insert(keys, t, root, sibs, true, None, []);
    assert ins.Success?;
    var u := ins.value.0;
    RootAnchor(t, sibs, ins.value.1);
    var codes := MakeCodeList(u.check);
    var tr := Trie(u.base, u.check, codes, keys, vals, u.size);
    BuiltFrom(u, tr);
    assert Pairs(tr) == es;
    TrieGet(entries, tr);
    r := Some(tr);
  }

  /** The tables `Insert` left at the root, with the reverse index, make a finished trie. */
  lemma BuiltFrom<V>(u: Tables, tr: Trie<V>)
    requires |tr.keys| == |tr.values| > 0 && StrictlySorted(tr.keys)
    requires Sound(u) && tr.base == u.base && tr.check == u.check && tr.size == u.size
    requires u.base[0] == 1 && MarkersBelow(u, |tr.keys|)
    requires |tr.codes| == |tr.check|
    requires forall c: nat, p: nat :: c < |tr.codes| ==> (p in tr.codes[c] <==> 0 < c && p < |tr.check| && tr.check[p] == c)
    requires Realises(u, 1, tr.keys, Root(tr.keys), true, None)
    ensures Built(tr)
  {
    RealisesGrows(u, TablesOf(tr, u.used), -1, 1, tr.keys, Root(tr.keys), true, None);
  }

  /** The whole table extends the empty prefix. */
  lemma RootOrdered(keys: seq<Key>)
    requires StrictlySorted(keys)
    ensures Ordered(keys, Root(keys), [])
  {
    forall i | 0 <= i < |keys|
      ensures IsPrefix([], keys[i])
    {
    }
  }

  /** The lookup theorem at the root: `get(k)` is the value of `k` when `k` is a key, and
      nothing otherwise. */
  lemma GetBuilt<V>(tr: Trie<V>, k: Key)
    requires Built(tr)
    ensures forall i :: 0 <= i < |tr.keys| && tr.keys[i] == k ==> Get(tr, k) == Some(tr.values[i])
    ensures (forall i :: 0 <= i < |tr.keys| ==> tr.keys[i] != k) ==> Get(tr, k).None?
  {
    var used :| Realises(TablesOf(tr, used), 1, tr.keys, Root(tr.keys), true, None);
    RootOrdered(tr.keys);
    LookupRealised(TablesOf(tr, used), 1, tr.keys, Root(tr.keys), true, None, [], k);
    assert [] + k == k;
    forall i | 0 <= i < |tr.keys| && tr.keys[i] == k
      ensures Get(tr, k) == Some(tr.values[i])
    {
      KeyIndexAt(tr.keys, 0, |tr.keys|, k, i);
    }
  }

  /** The lookup theorem read through the sort: `get(k)` is `v` exactly when the mapping holds
      the pair `(k, v)`. */
  lemma TrieGet<V(!new)>(entries: seq<(Key, V)>, tr: Trie<V>)
    requires Built(tr) && multiset(Pairs(tr)) == multiset(entries)
    ensures forall k, v :: Get(tr, k) == Some(v) <==> (k, v) in entries
  {
    forall k, v
      ensures Get(tr, k) == Some(v) <==> (k, v) in entries
    {
      GetBuilt(tr, k);
      if (k, v) in entries {
        assert (k, v) in multiset(Pairs(tr));
        var i :| 0 <= i < |tr.keys| && Pairs(tr)[i] == (k, v);
      }
      if Get(tr, k) == Some(v) {
        var i := KeyIndex(tr.keys, 0, |tr.keys|, k).value;
        assert Pairs(tr)[i] in multiset(entries);
      }
    }
  }
}
