/** Splitting a key range into sibling groups at one depth: `_fetch` of both static builders. */
module Siblings {
  import opened Wrappers
  import opened Keys

  /** A node of the trie under construction: the code that leads to it, its depth, and the
      range [left, right) of the key table whose keys pass through it. */
  datatype Node = Node(code: nat, depth: nat, left: nat, right: nat)

  /** The error the strict builder records when a sibling code decreases. */
  const ORDER_ERROR: int := -3

  /** The code of key `k` at depth `d`. */
  function KeyCode(keys: seq<Key>, k: nat, d: nat): nat
    requires k < |keys| && d <= |keys[k]|
  {
    CodeAt(keys[k], d)
  }

  predicate ValidRange(keys: seq<Key>, parent: Node) {
    parent.left <= parent.right <= |keys|
  }

  /** Among the keys of [lo, hi) that are at least `d` long, codes at depth `d` never decrease. */
  ghost predicate CodesAscending(keys: seq<Key>, lo: nat, hi: nat, d: nat)
    requires lo <= hi <= |keys|
  {
    forall i, j :: lo <= i < j < hi && |keys[i]| >= d && |keys[j]| >= d ==>
      KeyCode(keys, i, d) <= KeyCode(keys, j, d)
  }

  /** The shape of a split of `parent`: children one level deeper, inside the parent's range,
      contiguous, the last ending at the parent's end. */
  predicate PartShape(parent: Node, sibs: seq<Node>) {
    && (forall j :: 0 <= j < |sibs| ==>
          sibs[j].depth == parent.depth + 1 && parent.left <= sibs[j].left < sibs[j].right <= parent.right)
    && (forall j :: 0 <= j < |sibs| - 1 ==> sibs[j].right == sibs[j + 1].left)
    && (|sibs| > 0 ==> sibs[|sibs| - 1].right == parent.right)
  }

  /** Where the first group starts (the parent's end when there is none). */
  function FirstLeft(parent: Node, sibs: seq<Node>): nat {
    if |sibs| == 0 then parent.right else sibs[0].left
  }

  /** The keys before the first group all end above the parent's depth. */
  ghost predicate PartShort(keys: seq<Key>, parent: Node, sibs: seq<Node>)
    requires ValidRange(keys, parent)
  {
    forall k :: parent.left <= k < FirstLeft(parent, sibs) && k < parent.right ==> |keys[k]| < parent.depth
  }

  /** Each group starts with a key that carries its code. */
  ghost predicate PartHeads(keys: seq<Key>, parent: Node, sibs: seq<Node>)
    requires ValidRange(keys, parent) && PartShape(parent, sibs)
  {
    forall j :: 0 <= j < |sibs| ==>
      |keys[sibs[j].left]| >= parent.depth && KeyCode(keys, sibs[j].left, parent.depth) == sibs[j].code
  }

  /** Every key of a group that reaches the parent's depth carries the group's code. */
  ghost predicate PartMembers(keys: seq<Key>, parent: Node, sibs: seq<Node>)
    requires ValidRange(keys, parent) && PartShape(parent, sibs)
  {
    forall j, k :: 0 <= j < |sibs| && sibs[j].left <= k < sibs[j].right && |keys[k]| >= parent.depth ==>
      KeyCode(keys, k, parent.depth) == sibs[j].code
  }

  /** Neighbouring groups differ in code; under `strict` the codes ascend. */
  predicate PartOrder(sibs: seq<Node>, strict: bool) {
    && (forall j :: 0 <= j < |sibs| - 1 ==> sibs[j].code != sibs[j + 1].code)
    && (strict ==> forall j, j' :: 0 <= j < j' < |sibs| ==> sibs[j].code < sibs[j'].code)
  }

  /** `sibs` splits the keys of the parent's range that reach the parent's depth into
      contiguous groups, one per run of equal codes. */
  ghost predicate Partition(keys: seq<Key>, parent: Node, sibs: seq<Node>, strict: bool)
    requires ValidRange(keys, parent)
  {
    && PartShape(parent, sibs)
    && PartShort(keys, parent, sibs)
    && PartHeads(keys, parent, sibs)
    && PartMembers(keys, parent, sibs)
    && PartOrder(sibs, strict)
  }

  /** The groups found by the scan so far: the closed ones, then the open one starting at
      `open` with code `prev` (no open group before the first participating key). */
  function Groups(closed: seq<Node>, open: Option<nat>, prev: nat, d: nat, right: nat): seq<Node> {
    if open.None? then closed else closed + [Node(prev, d + 1, open.value, right)]
  }

  lemma GroupsFacts(closed: seq<Node>, open: Option<nat>, prev: nat, d: nat, right: nat)
    ensures var g := Groups(closed, open, prev, d, right);
      && |g| == |closed| + (if open.Some? then 1 else 0)
      && (forall j :: 0 <= j < |closed| ==> g[j] == closed[j])
      && (open.Some? ==> g[|closed|] == Node(prev, d + 1, open.value, right))
  {
  }

  // ---------------------------------------------------------------------------
  // The scan of `_fetch`, one key at a time.
  // ---------------------------------------------------------------------------

  /** The scan's state before key `i`: the previous code, the closed groups and where the
      open group starts. */
  datatype Scan = Scan(i: nat, prev: nat, closed: seq<Node>, open: Option<nat>)

  predicate InRange(keys: seq<Key>, parent: Node, s: Scan) {
    parent.left <= s.i <= parent.right <= |keys|
  }

  /** The strict scan stops at a participating key whose code is below the previous one. */
  predicate Fails(keys: seq<Key>, parent: Node, strict: bool, s: Scan)
    requires InRange(keys, parent, s) && s.i < parent.right
  {
    strict && |keys[s.i]| >= parent.depth && s.prev > CodeAt(keys[s.i], parent.depth)
  }

  /** One step over key `i`: a key shorter than the depth is skipped; a new code (or the first
      participating key) closes the open group and opens one at `i`; the same code continues. */
  function Next(keys: seq<Key>, parent: Node, s: Scan): (t: Scan)
    requires InRange(keys, parent, s) && s.i < parent.right
    ensures InRange(keys, parent, t) && t.i == s.i + 1
  {
    var d := parent.depth;
    if |keys[s.i]| < d then s.(i := s.i + 1)
    else
      var cur := CodeAt(keys[s.i], d);
      if cur != s.prev || s.open.None? then Scan(s.i + 1, cur, Groups(s.closed, s.open, s.prev, d, s.i), Some(s.i))
      else s.(i := s.i + 1)
  }

  /** The scan from state `s` to the parent's end. With `strict` a decreasing code is the
      error -3; without it (the DARTS variant) any change of code opens a new group. */
  function FetchFrom(keys: seq<Key>, parent: Node, strict: bool, s: Scan): Result<seq<Node>, int>
    requires InRange(keys, parent, s)
    decreases parent.right - s.i
  {
    if s.i == parent.right then Success(Groups(s.closed, s.open, s.prev, parent.depth, parent.right))
    else if Fails(keys, parent, strict, s) then Failure(ORDER_ERROR)
    else FetchFrom(keys, parent, strict, Next(keys, parent, s))
  }

  /** The only failure is the ordering error, and only the strict scan reports it. */
  lemma {:induction false} FetchFromOutcome(keys: seq<Key>, parent: Node, strict: bool, s: Scan)
    requires InRange(keys, parent, s)
    ensures var r := FetchFrom(keys, parent, strict, s);
      (r.Failure? ==> r.error == ORDER_ERROR) && (!strict ==> r.Success?)
    decreases parent.right - s.i
  {
    if s.i < parent.right && !Fails(keys, parent, strict, s) {
      FetchFromOutcome(keys, parent, strict, Next(keys, parent, s));
    }
  }

  // ---------------------------------------------------------------------------
  // What holds of the scan after keys [lo, i) of the parent's range.
  // ---------------------------------------------------------------------------

  /** Where the first group found so far starts (`i` when none has started). */
  function ScanFirst(s: Scan): nat {
    if |s.closed| > 0 then s.closed[0].left else if s.open.Some? then s.open.value else s.i
  }

  /** The groups closed so far are contiguous and end where the open one starts. */
  predicate ScanShape(d: nat, lo: nat, s: Scan) {
    && (s.open.None? ==> s.closed == [])
    && (s.open.Some? ==> lo <= s.open.value < s.i)
    && (forall j :: 0 <= j < |s.closed| ==>
          s.closed[j].depth == d + 1 && lo <= s.closed[j].left < s.closed[j].right)
    && (forall j :: 0 <= j < |s.closed| - 1 ==> s.closed[j].right == s.closed[j + 1].left)
    && (|s.closed| > 0 ==> s.open.Some? && s.closed[|s.closed| - 1].right == s.open.value)
    && (s.open.Some? ==> forall j :: 0 <= j < |s.closed| ==> s.closed[j].right <= s.open.value)
  }

  /** The scanned keys before the first group all end above depth `d`. */
  ghost predicate ScanShort(keys: seq<Key>, d: nat, lo: nat, s: Scan)
    requires s.i <= |keys|
  {
    forall k :: lo <= k < s.i && k < ScanFirst(s) ==> |keys[k]| < d
  }

  /** `prev` is the code of the key that opened the current group (0 before any). */
  ghost predicate ScanPrev(keys: seq<Key>, d: nat, lo: nat, s: Scan)
    requires s.i <= |keys|
  {
    && (s.open.None? ==> s.prev == 0)
    && (s.open.Some? ==> lo <= s.open.value < s.i && |keys[s.open.value]| >= d &&
                         KeyCode(keys, s.open.value, d) == s.prev)
  }

  /** Each closed group starts with a key carrying its code. */
  ghost predicate ScanHeads(keys: seq<Key>, d: nat, lo: nat, s: Scan)
    requires s.i <= |keys| && ScanShape(d, lo, s)
  {
    forall j :: 0 <= j < |s.closed| ==>
      |keys[s.closed[j].left]| >= d && KeyCode(keys, s.closed[j].left, d) == s.closed[j].code
  }

  /** Every participating key scanned so far carries its group's code. */
  ghost predicate ScanMembers(keys: seq<Key>, d: nat, lo: nat, s: Scan)
    requires s.i <= |keys| && ScanShape(d, lo, s)
  {
    && (forall j, k :: 0 <= j < |s.closed| && s.closed[j].left <= k < s.closed[j].right && |keys[k]| >= d ==>
          KeyCode(keys, k, d) == s.closed[j].code)
    && (s.open.Some? ==> forall k :: s.open.value <= k < s.i && |keys[k]| >= d ==> KeyCode(keys, k, d) == s.prev)
  }

  /** Neighbouring groups differ in code; under `strict` the codes ascend up to `prev`. */
  predicate ScanOrder(s: Scan, strict: bool) {
    && (forall j :: 0 <= j < |s.closed| - 1 ==> s.closed[j].code != s.closed[j + 1].code)
    && (|s.closed| > 0 ==> s.closed[|s.closed| - 1].code != s.prev)
    && (strict ==> forall j, j' :: 0 <= j < j' < |s.closed| ==> s.closed[j].code < s.closed[j'].code)
    && (strict ==> forall j :: 0 <= j < |s.closed| ==> s.closed[j].code < s.prev)
  }

  /** The codes scanned so far ascend and none exceeds `prev`. */
  ghost predicate ScanAscending(keys: seq<Key>, d: nat, lo: nat, s: Scan)
    requires lo <= s.i <= |keys|
  {
    && CodesAscending(keys, lo, s.i, d)
    && forall k :: lo <= k < s.i && |keys[k]| >= d ==> KeyCode(keys, k, d) <= s.prev
  }

  /** The state the scan starts from. */
  function Start(parent: Node): (s: Scan)
    ensures s.i == parent.left && s.closed == [] && s.open.None?
  {
    Scan(parent.left, 0, [], None)
  }

  // ---------------------------------------------------------------------------
  // Each invariant survives a step and yields its part of the partition at the end.
  // ---------------------------------------------------------------------------

  /** Closing the open group keeps the closed groups contiguous. */
  lemma ShapeCloses(d: nat, lo: nat, s: Scan, cur: nat)
    requires ScanShape(d, lo, s) && s.open.Some?
    ensures ScanShape(d, lo, Scan(s.i + 1, cur, Groups(s.closed, s.open, s.prev, d, s.i), Some(s.i)))
    ensures ScanFirst(Scan(s.i + 1, cur, Groups(s.closed, s.open, s.prev, d, s.i), Some(s.i))) == ScanFirst(s)
  {
    var g := Groups(s.closed, s.open, s.prev, d, s.i);
    var n := |s.closed|;
    GroupsFacts(s.closed, s.open, s.prev, d, s.i);
    forall j | 0 <= j < |g|
      ensures g[j].depth == d + 1 && lo <= g[j].left < g[j].right <= s.i
    {
      if j < n {
        assert g[j] == s.closed[j];
      }
    }
    forall j | 0 <= j < |g| - 1
      ensures g[j].right == g[j + 1].left
    {
      assert g[j] == s.closed[j];
      if j + 1 < n {
        assert g[j + 1] == s.closed[j + 1];
      }
    }
  }

  lemma ShapeNext(keys: seq<Key>, parent: Node, s: Scan)
    requires InRange(keys, parent, s) && s.i < parent.right && ScanShape(parent.depth, parent.left, s)
    ensures ScanShape(parent.depth, parent.left, Next(keys, parent, s))
    ensures s.open.Some? ==> ScanFirst(Next(keys, parent, s)) == ScanFirst(s)
  {
    var d := parent.depth;
    if |keys[s.i]| >= d {
      var cur := CodeAt(keys[s.i], d);
      if s.open.Some? && cur != s.prev {
        ShapeCloses(d, parent.left, s, cur);
      }
    }
  }

  lemma ShapeEnds(parent: Node, s: Scan)
    requires s.i == parent.right && parent.left <= parent.right
    requires ScanShape(parent.depth, parent.left, s)
    ensures PartShape(parent, Groups(s.closed, s.open, s.prev, parent.depth, parent.right))
    ensures FirstLeft(parent, Groups(s.closed, s.open, s.prev, parent.depth, parent.right)) == ScanFirst(s)
  {
    GroupsFacts(s.closed, s.open, s.prev, parent.depth, parent.right);
  }

  /** The groups the scan finds are contiguous and end at the parent's end. */
  lemma {:induction false} FetchFromShape(keys: seq<Key>, parent: Node, strict: bool, s: Scan)
    requires InRange(keys, parent, s) && ScanShape(parent.depth, parent.left, s)
    ensures var r := FetchFrom(keys, parent, strict, s);
      r.Success? ==> PartShape(parent, r.value)
    decreases parent.right - s.i
  {
    if s.i == parent.right {
      ShapeEnds(parent, s);
    } else if !Fails(keys, parent, strict, s) {
      ShapeNext(keys, parent, s);
      FetchFromShape(keys, parent, strict, Next(keys, parent, s));
    }
  }

  lemma ShortNext(keys: seq<Key>, parent: Node, s: Scan)
    requires InRange(keys, parent, s) && s.i < parent.right && ScanShape(parent.depth, parent.left, s)
    requires ScanShort(keys, parent.depth, parent.left, s)
    ensures ScanShort(keys, parent.depth, parent.left, Next(keys, parent, s))
  {
    var d := parent.depth;
    ShapeNext(keys, parent, s);
    if |keys[s.i]| >= d && s.open.None? {
      GroupsFacts(s.closed, s.open, s.prev, d, s.i);
    }
  }

  /** Keys before the first group end above the parent's depth. */
  lemma {:induction false} FetchFromShort(keys: seq<Key>, parent: Node, strict: bool, s: Scan)
    requires InRange(keys, parent, s) && ScanShape(parent.depth, parent.left, s)
    requires ScanShort(keys, parent.depth, parent.left, s)
    ensures var r := FetchFrom(keys, parent, strict, s);
      r.Success? ==> PartShort(keys, parent, r.value)
    decreases parent.right - s.i
  {
    if s.i == parent.right {
      ShapeEnds(parent, s);
    } else if !Fails(keys, parent, strict, s) {
      ShapeNext(keys, parent, s);
      ShortNext(keys, parent, s);
      FetchFromShort(keys, parent, strict, Next(keys, parent, s));
    }
  }

  lemma HeadsNext(keys: seq<Key>, parent: Node, s: Scan)
    requires InRange(keys, parent, s) && s.i < parent.right && ScanShape(parent.depth, parent.left, s)
    requires ScanPrev(keys, parent.depth, parent.left, s) && ScanHeads(keys, parent.depth, parent.left, s)
    ensures ScanShape(parent.depth, parent.left, Next(keys, parent, s))
    ensures ScanPrev(keys, parent.depth, parent.left, Next(keys, parent, s))
    ensures ScanHeads(keys, parent.depth, parent.left, Next(keys, parent, s))
  {
    var d := parent.depth;
    ShapeNext(keys, parent, s);
    if |keys[s.i]| >= d {
      var g := Groups(s.closed, s.open, s.prev, d, s.i);
      GroupsFacts(s.closed, s.open, s.prev, d, s.i);
      assert KeyCode(keys, s.i, d) == CodeAt(keys[s.i], d);
      forall j | 0 <= j < |g|
        ensures |keys[g[j].left]| >= d && KeyCode(keys, g[j].left, d) == g[j].code
      {
        if j < |s.closed| {
          assert g[j] == s.closed[j];
        }
      }
    }
  }

  lemma HeadsEnds(keys: seq<Key>, parent: Node, s: Scan)
    requires InRange(keys, parent, s) && s.i == parent.right && ScanShape(parent.depth, parent.left, s)
    requires ScanPrev(keys, parent.depth, parent.left, s) && ScanHeads(keys, parent.depth, parent.left, s)
    ensures PartShape(parent, Groups(s.closed, s.open, s.prev, parent.depth, parent.right))
    ensures PartHeads(keys, parent, Groups(s.closed, s.open, s.prev, parent.depth, parent.right))
  {
    ShapeEnds(parent, s);
    GroupsFacts(s.closed, s.open, s.prev, parent.depth, parent.right);
  }

  /** Each group starts with a key carrying its code. */
  lemma {:induction false} FetchFromHeads(keys: seq<Key>, parent: Node, strict: bool, s: Scan)
    requires InRange(keys, parent, s) && ScanShape(parent.depth, parent.left, s)
    requires ScanPrev(keys, parent.depth, parent.left, s) && ScanHeads(keys, parent.depth, parent.left, s)
    ensures var r := FetchFrom(keys, parent, strict, s);
      r.Success? ==> PartShape(parent, r.value) && PartHeads(keys, parent, r.value)
    decreases parent.right - s.i
  {
    if s.i == parent.right {
      HeadsEnds(keys, parent, s);
    } else if !Fails(keys, parent, strict, s) {
      HeadsNext(keys, parent, s);
      FetchFromHeads(keys, parent, strict, Next(keys, parent, s));
    }
  }

  /** Closing the open group at key `i`, whose code differs, keeps every member's code. */
  lemma MembersCloses(keys: seq<Key>, d: nat, lo: nat, s: Scan)
    requires lo <= s.i < |keys| && |keys[s.i]| >= d && ScanShape(d, lo, s) && ScanMembers(keys, d, lo, s)
    requires s.open.Some? ==> CodeAt(keys[s.i], d) != s.prev
    ensures var t := Scan(s.i + 1, CodeAt(keys[s.i], d), Groups(s.closed, s.open, s.prev, d, s.i), Some(s.i));
      ScanShape(d, lo, t) && ScanMembers(keys, d, lo, t)
  {
    var cur := CodeAt(keys[s.i], d);
    var t := Scan(s.i + 1, cur, Groups(s.closed, s.open, s.prev, d, s.i), Some(s.i));
    var g := t.closed;
    assert KeyCode(keys, s.i, d) == cur;
    if s.open.Some? {
      ShapeCloses(d, lo, s, cur);
    }
    GroupsFacts(s.closed, s.open, s.prev, d, s.i);
    forall j, k | 0 <= j < |g| && g[j].left <= k < g[j].right && |keys[k]| >= d
      ensures KeyCode(keys, k, d) == g[j].code
    {
      if j < |s.closed| {
        assert g[j] == s.closed[j];
      }
    }
  }

  lemma MembersNext(keys: seq<Key>, parent: Node, s: Scan)
    requires InRange(keys, parent, s) && s.i < parent.right && ScanShape(parent.depth, parent.left, s)
    requires ScanMembers(keys, parent.depth, parent.left, s)
    ensures ScanShape(parent.depth, parent.left, Next(keys, parent, s))
    ensures ScanMembers(keys, parent.depth, parent.left, Next(keys, parent, s))
  {
    var d := parent.depth;
    ShapeNext(keys, parent, s);
    if |keys[s.i]| >= d {
      var cur := CodeAt(keys[s.i], d);
      assert KeyCode(keys, s.i, d) == cur;
      if cur != s.prev || s.open.None? {
        MembersCloses(keys, d, parent.left, s);
      }
    }
  }

  lemma MembersEnds(keys: seq<Key>, parent: Node, s: Scan)
    requires InRange(keys, parent, s) && s.i == parent.right && ScanShape(parent.depth, parent.left, s)
    requires ScanMembers(keys, parent.depth, parent.left, s)
    ensures PartShape(parent, Groups(s.closed, s.open, s.prev, parent.depth, parent.right))
    ensures PartMembers(keys, parent, Groups(s.closed, s.open, s.prev, parent.depth, parent.right))
  {
    var d := parent.depth;
    var g := Groups(s.closed, s.open, s.prev, d, parent.right);
    ShapeEnds(parent, s);
    GroupsFacts(s.closed, s.open, s.prev, d, parent.right);
    forall j, k | 0 <= j < |g| && g[j].left <= k < g[j].right && |keys[k]| >= d
      ensures KeyCode(keys, k, d) == g[j].code
    {
      if j < |s.closed| {
        assert g[j] == s.closed[j];
      }
    }
  }

  /** Every participating key carries its group's code. */
  lemma {:induction false} FetchFromMembers(keys: seq<Key>, parent: Node, strict: bool, s: Scan)
    requires InRange(keys, parent, s) && ScanShape(parent.depth, parent.left, s)
    requires ScanMembers(keys, parent.depth, parent.left, s)
    ensures var r := FetchFrom(keys, parent, strict, s);
      r.Success? ==> PartShape(parent, r.value) && PartMembers(keys, parent, r.value)
    decreases parent.right - s.i
  {
    if s.i == parent.right {
      MembersEnds(keys, parent, s);
    } else if !Fails(keys, parent, strict, s) {
      MembersNext(keys, parent, s);
      FetchFromMembers(keys, parent, strict, Next(keys, parent, s));
    }
  }

  lemma OrderNext(keys: seq<Key>, parent: Node, strict: bool, s: Scan)
    requires InRange(keys, parent, s) && s.i < parent.right && !Fails(keys, parent, strict, s)
    requires ScanOrder(s, strict) && (s.open.None? ==> s.closed == [])
    ensures ScanOrder(Next(keys, parent, s), strict)
    ensures var t := Next(keys, parent, s); t.open.None? ==> t.closed == []
  {
    GroupsFacts(s.closed, s.open, s.prev, parent.depth, s.i);
  }

  lemma OrderEnds(parent: Node, strict: bool, s: Scan)
    requires ScanOrder(s, strict) && (s.open.None? ==> s.closed == [])
    ensures PartOrder(Groups(s.closed, s.open, s.prev, parent.depth, parent.right), strict)
  {
    var g := Groups(s.closed, s.open, s.prev, parent.depth, parent.right);
    GroupsFacts(s.closed, s.open, s.prev, parent.depth, parent.right);
    if strict {
      forall j, j' | 0 <= j < j' < |g|
        ensures g[j].code < g[j'].code
      {
        if j' == |s.closed| {
          assert g[j] == s.closed[j];
        }
      }
    }
  }

  /** Neighbouring groups differ in code, and under `strict` the codes ascend. */
  lemma {:induction false} FetchFromOrder(keys: seq<Key>, parent: Node, strict: bool, s: Scan)
    requires InRange(keys, parent, s)
    requires ScanOrder(s, strict) && (s.open.None? ==> s.closed == [])
    ensures var r := FetchFrom(keys, parent, strict, s);
      r.Success? ==> PartOrder(r.value, strict)
    decreases parent.right - s.i
  {
    if s.i == parent.right {
      OrderEnds(parent, strict, s);
    } else if !Fails(keys, parent, strict, s) {
      OrderNext(keys, parent, strict, s);
      FetchFromOrder(keys, parent, strict, Next(keys, parent, s));
    }
  }

  lemma AscendingNext(keys: seq<Key>, parent: Node, s: Scan)
    requires InRange(keys, parent, s) && s.i < parent.right && !Fails(keys, parent, true, s)
    requires ScanPrev(keys, parent.depth, parent.left, s) && ScanAscending(keys, parent.depth, parent.left, s)
    ensures ScanPrev(keys, parent.depth, parent.left, Next(keys, parent, s))
    ensures ScanAscending(keys, parent.depth, parent.left, Next(keys, parent, s))
  {
    var d := parent.depth;
    if |keys[s.i]| >= d {
      assert KeyCode(keys, s.i, d) == CodeAt(keys[s.i], d);
    }
  }

  lemma AscendingFails(keys: seq<Key>, parent: Node, s: Scan)
    requires InRange(keys, parent, s) && s.i < parent.right && Fails(keys, parent, true, s)
    requires ScanPrev(keys, parent.depth, parent.left, s)
    ensures !CodesAscending(keys, parent.left, parent.right, parent.depth)
  {
    var d := parent.depth;
    assert KeyCode(keys, s.i, d) == CodeAt(keys[s.i], d);
    assert KeyCode(keys, s.open.value, d) > KeyCode(keys, s.i, d);
  }

  /** The strict scan succeeds exactly when the codes of the range ascend. */
  lemma {:induction false} FetchFromStrict(keys: seq<Key>, parent: Node, s: Scan)
    requires InRange(keys, parent, s)
    requires ScanPrev(keys, parent.depth, parent.left, s) && ScanAscending(keys, parent.depth, parent.left, s)
    ensures FetchFrom(keys, parent, true, s).Success? <==>
      CodesAscending(keys, parent.left, parent.right, parent.depth)
    decreases parent.right - s.i
  {
    if s.i < parent.right {
      if Fails(keys, parent, true, s) {
        AscendingFails(keys, parent, s);
      } else {
        AscendingNext(keys, parent, s);
        FetchFromStrict(keys, parent, Next(keys, parent, s));
      }
    }
  }

  /** `_fetch`: the sibling groups of `parent`, or the ordering error. */
  function Fetch(keys: seq<Key>, parent: Node, strict: bool): (r: Result<seq<Node>, int>)
    requires ValidRange(keys, parent)
    ensures r.Success? ==> Partition(keys, parent, r.value, strict)
    ensures r.Failure? ==> r.error == ORDER_ERROR
    ensures !strict ==> r.Success?
    ensures strict ==> (r.Success? <==> CodesAscending(keys, parent.left, parent.right, parent.depth))
  {
    var s := Start(parent);
    FetchFromOutcome(keys, parent, strict, s);
    FetchFromShort(keys, parent, strict, s);
    FetchFromHeads(keys, parent, strict, s);
    FetchFromMembers(keys, parent, strict, s);
    FetchFromOrder(keys, parent, strict, s);
    FetchFromStrict(keys, parent, s);
    FetchFrom(keys, parent, strict, s)
  }

  /** The same scan as `Fetch`, as a bare value: definitions that only need the result refer to
      this, and proofs recover the properties by calling `Fetch`. */
  function Split(keys: seq<Key>, parent: Node, strict: bool): Result<seq<Node>, int>
    requires ValidRange(keys, parent)
  {
    FetchFrom(keys, parent, strict, Start(parent))
  }

  // ---------------------------------------------------------------------------
  // Facts about a partition.
  // ---------------------------------------------------------------------------

  /** Every key of the range that reaches the parent's depth lies in exactly one group. */
  lemma {:induction false} PartitionCovers(keys: seq<Key>, parent: Node, sibs: seq<Node>, strict: bool, k: nat)
    returns (j: nat)
    requires ValidRange(keys, parent) && Partition(keys, parent, sibs, strict)
    requires parent.left <= k < parent.right && |keys[k]| >= parent.depth
    ensures j < |sibs| && sibs[j].left <= k < sibs[j].right
  {
    assert |sibs| > 0;
    j := 0;
    while k >= sibs[j].right
      invariant j < |sibs| && sibs[j].left <= k
      decreases |sibs| - j
    {
      j := j + 1;
    }
  }

  /** Groups are laid out left to right. */
  lemma {:induction false} PartitionOrdered(keys: seq<Key>, parent: Node, sibs: seq<Node>, strict: bool, j: nat, j': nat)
    requires ValidRange(keys, parent) && Partition(keys, parent, sibs, strict)
    requires j < j' < |sibs|
    ensures sibs[j].right <= sibs[j'].left
    decreases j' - j
  {
    if j + 1 < j' {
      PartitionOrdered(keys, parent, sibs, strict, j + 1, j');
    }
  }

  /** All keys of the range extend `prefix`, whose length is the node's depth. */
  ghost predicate WellFormed(keys: seq<Key>, node: Node, prefix: Key) {
    && ValidRange(keys, node)
    && |prefix| == node.depth
    && forall i {:trigger IsPrefix(prefix, keys[i])} :: node.left <= i < node.right ==> IsPrefix(prefix, keys[i])
  }

  /** On a sorted table, the strict scan of a well-formed node never reports the ordering error. */
  lemma FetchSortedSucceeds(keys: seq<Key>, node: Node, prefix: Key)
    requires StrictlySorted(keys) && WellFormed(keys, node, prefix)
    ensures Fetch(keys, node, true).Success?
  {
    var d := node.depth;
    forall i, j | node.left <= i < j < node.right && |keys[i]| >= d && |keys[j]| >= d
      ensures KeyCode(keys, i, d) <= KeyCode(keys, j, d)
    {
      assert IsPrefix(prefix, keys[i]) && IsPrefix(prefix, keys[j]);
      LessOrdersCodes(keys[i], keys[j], d);
    }
  }

  /** On ascending codes the scan without the ordering check takes the same steps as the
      strict one. */
  lemma {:induction false} FetchFromAgree(keys: seq<Key>, parent: Node, s: Scan)
    requires InRange(keys, parent, s) && ScanPrev(keys, parent.depth, parent.left, s)
    requires CodesAscending(keys, parent.left, parent.right, parent.depth)
    ensures FetchFrom(keys, parent, false, s) == FetchFrom(keys, parent, true, s)
    decreases parent.right - s.i
  {
    if s.i < parent.right {
      var d := parent.depth;
      if Fails(keys, parent, true, s) {
        AscendingFails(keys, parent, s);
      }
      if |keys[s.i]| >= d {
        assert KeyCode(keys, s.i, d) == CodeAt(keys[s.i], d);
      }
      FetchFromAgree(keys, parent, Next(keys, parent, s));
    }
  }

  /** When the codes already ascend, the DARTS scan (no ordering check) finds the same groups
      as the strict scan. */
  lemma UncheckedFetchAgrees(keys: seq<Key>, parent: Node)
    requires ValidRange(keys, parent)
    requires CodesAscending(keys, parent.left, parent.right, parent.depth)
    ensures Fetch(keys, parent, false) == Fetch(keys, parent, true)
  {
    FetchFromAgree(keys, parent, Start(parent));
  }
}
