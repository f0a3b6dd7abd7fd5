/** The builder's working tables and the two steps of `_insert` that only touch them: the
    first-fit search for an anchor and the claiming of the anchor's slots. */
module Tables {
  import opened Wrappers
  import opened Siblings

  /** `base`, `check` and `used` share the allocation size; `size` and `nextCheckPos` are the
      builder's high-water mark and search cursor. */
  datatype Tables = Tables(base: seq<int>, check: seq<int>, used: seq<bool>, size: nat, nextCheckPos: nat)

  /** The slot of a sibling under anchor `b`. */
  function SlotOf(b: nat, n: Node): nat {
    b + n.code
  }

  predicate Used(t: Tables, b: int) {
    0 <= b < |t.used| && t.used[b]
  }

  /** What every table the builder produces satisfies: an occupied slot names an anchor at or
      below it that is in use, a free slot (other than the root's) has base 0, and the search
      cursor lies inside the allocation. */
  ghost predicate Sound(t: Tables) {
    && |t.base| == |t.check| == |t.used| > 0
    && t.nextCheckPos < |t.check|
    && (forall p :: 0 <= p < |t.check| ==> 0 <= t.check[p] <= p)
    && (forall p :: 1 <= p < |t.check| && t.check[p] == 0 ==> t.base[p] == 0)
    && (forall p :: 0 <= p < |t.check| && t.check[p] != 0 ==> t.used[t.check[p]])
  }

  /** `_resize`: the first `alloc_size` entries survive and the rest are 0 / false. */
  function Resize(t: Tables, n: nat): (u: Tables)
    requires |t.base| == |t.check| == |t.used| <= n
    ensures |u.base| == |u.check| == |u.used| == n
    ensures u.base[..|t.base|] == t.base && u.check[..|t.check|] == t.check && u.used[..|t.used|] == t.used
    ensures forall p :: |t.check| <= p < n ==> u.base[p] == 0 && u.check[p] == 0 && !u.used[p]
    ensures u.size == t.size && u.nextCheckPos == t.nextCheckPos
  {
    var extra := n - |t.base|;
    t.(base := t.base + seq(extra, _ => 0), check := t.check + seq(extra, _ => 0),
       used := t.used + seq(extra, _ => false))
  }

  /** `u` is `t` grown: the old entries unchanged, the new ones 0 / false. */
  ghost predicate Extends(t: Tables, u: Tables) {
    && |t.base| == |t.check| == |t.used| <= |u.check|
    && |u.base| == |u.check| == |u.used|
    && (forall p :: 0 <= p < |t.check| ==> u.base[p] == t.base[p] && u.check[p] == t.check[p] && u.used[p] == t.used[p])
    && (forall p :: |t.check| <= p < |u.check| ==> u.base[p] == 0 && u.check[p] == 0 && !u.used[p])
  }

  lemma ResizeExtends(t: Tables, n: nat)
    requires |t.base| == |t.check| == |t.used| <= n
    ensures Extends(t, Resize(t, n))
  {
    var u := Resize(t, n);
    forall p | 0 <= p < |t.check|
      ensures u.base[p] == t.base[p] && u.check[p] == t.check[p] && u.used[p] == t.used[p]
    {
      assert u.base[..|t.base|][p] == t.base[p];
      assert u.check[..|t.check|][p] == t.check[p];
      assert u.used[..|t.used|][p] == t.used[p];
    }
  }

  lemma ExtendsTrans(t: Tables, u: Tables, v: Tables)
    requires Extends(t, u) && Extends(u, v)
    ensures Extends(t, v)
  {
  }

  lemma ExtendsSound(t: Tables, u: Tables)
    requires Sound(t) && Extends(t, u) && u.nextCheckPos < |u.check|
    ensures Sound(u)
  {
  }

  /** What the rest of a build may do to the tables `t`: grow them, keep every claimed slot's
      owner, keep used anchors used, give every newly claimed slot an anchor that was not in use
      in `t`, and keep the base of every slot that is claimed or has a base, except perhaps the
      base of slot `q` (a `q` outside the tables exempts nothing). */
  ghost predicate Grows(t: Tables, u: Tables, q: int) {
    && |t.base| == |t.check| == |t.used| <= |u.check|
    && |u.base| == |u.check| == |u.used|
    && (forall p :: 0 <= p < |t.check| && t.check[p] != 0 ==> u.check[p] == t.check[p])
    && (forall p :: 0 <= p < |t.base| && p != q && (t.base[p] != 0 || t.check[p] != 0) ==> u.base[p] == t.base[p])
    && (forall b :: 0 <= b < |t.used| && t.used[b] ==> u.used[b])
    && (forall p :: 0 <= p < |u.check| && u.check[p] != 0 && !(p < |t.check| && t.check[p] != 0) ==>
          !Used(t, u.check[p]))
  }

  lemma ExtendsGrows(t: Tables, u: Tables)
    requires Extends(t, u)
    ensures Grows(t, u, -1)
  {
  }

  /** Two growth steps make one; a step that may overwrite nothing composes with any other. */
  lemma GrowsTrans(t: Tables, u: Tables, v: Tables, q: int, q': int)
    requires Grows(t, u, q) && Grows(u, v, q') && (q == q' || q < 0)
    ensures Grows(t, v, q')
  {
    forall p | 0 <= p < |v.check| && v.check[p] != 0 && !(p < |t.check| && t.check[p] != 0)
      ensures !Used(t, v.check[p])
    {
      if p < |u.check| && u.check[p] != 0 {
        assert v.check[p] == u.check[p];
      }
    }
  }

  /** Overwriting the base of a slot that was free in `t` is invisible from `t`. */
  lemma GrowsFresh(t: Tables, u: Tables, v: Tables, q: int)
    requires Grows(t, u, -1) && Grows(u, v, q)
    requires q >= |t.check| || (0 <= q && t.check[q] == 0 && t.base[q] == 0)
    ensures Grows(t, v, -1)
  {
    GrowsTrans(t, u, v, -1, q);
  }

  // ---------------------------------------------------------------------------
  // The search for an anchor.
  // ---------------------------------------------------------------------------

  /** A slot is free when it is unclaimed or beyond the allocation (a resize makes it free). */
  predicate Free(t: Tables, p: int) {
    p >= |t.check| || (0 <= p && t.check[p] == 0)
  }

  /** Anchor `b` can take the siblings: it is not in use and all their slots are free. */
  predicate Fits(t: Tables, b: nat, sibs: seq<Node>) {
    && !Used(t, b)
    && forall i {:trigger SlotOf(b, sibs[i])} :: 0 <= i < |sibs| ==> Free(t, SlotOf(b, sibs[i]))
  }

  /** The first anchor the search tries: the cursor, but never so low that the first slot
      would be slot 0 or below. */
  function LowestBegin(t: Tables, sibs: seq<Node>): (b: nat)
    requires |sibs| > 0
    ensures b >= 1
  {
    (if sibs[0].code + 1 >= t.nextCheckPos then sibs[0].code + 1 else t.nextCheckPos) - sibs[0].code
  }

  /** No anchor in `[lo, hi)` fits. */
  ghost predicate NoneFit(t: Tables, sibs: seq<Node>, lo: nat, hi: nat) {
    forall b :: lo <= b < hi ==> !Fits(t, b, sibs)
  }

  lemma NoneFitStep(t: Tables, sibs: seq<Node>, lo: nat, hi: nat)
    requires NoneFit(t, sibs, lo, hi) && !Fits(t, hi, sibs)
    ensures NoneFit(t, sibs, lo, hi + 1)
  {
  }

  /** `b` is the first anchor from `LowestBegin` on that fits. */
  ghost predicate FirstFit(t: Tables, sibs: seq<Node>, b: nat)
    requires |sibs| > 0
  {
    && LowestBegin(t, sibs) <= b
    && Fits(t, b, sibs)
    && NoneFit(t, sibs, LowestBegin(t, sibs), b)
  }

  lemma FitsExtends(t: Tables, u: Tables, b: nat, sibs: seq<Node>)
    requires Extends(t, u)
    ensures Fits(u, b, sibs) == Fits(t, b, sibs)
  {
  }

  /** The largest sibling code. */
  function MaxCode(sibs: seq<Node>): (m: nat)
    requires |sibs| > 0
    ensures forall i :: 0 <= i < |sibs| ==> sibs[i].code <= m
    ensures exists i :: 0 <= i < |sibs| && sibs[i].code == m
  {
    if |sibs| == 1 then sibs[0].code
    else
      var m := MaxCode(sibs[1..]);
      assert forall i :: 1 <= i < |sibs| ==> sibs[i] == sibs[1..][i - 1];
      if sibs[0].code >= m then sibs[0].code else m
  }

  /** Equal lengths: what `_resize` needs. */
  predicate Shaped(t: Tables) {
    |t.base| == |t.check| == |t.used|
  }

  /** The test the search loop makes at a free `pos`: the anchor is not in use and the slots of
      the remaining siblings are unclaimed. */
  predicate Accepts(u: Tables, b: nat, sibs: seq<Node>)
    requires |sibs| > 0 && b < |u.used|
    requires forall i :: 0 <= i < |sibs| ==> SlotOf(b, sibs[i]) < |u.check|
  {
    !u.used[b] && forall i :: 1 <= i < |sibs| ==> u.check[SlotOf(b, sibs[i])] == 0
  }

  /** When the first sibling's slot is free and every slot lies inside the tables, the loop's
      test is exactly `Fits`. */
  lemma AcceptsFits(t: Tables, u: Tables, b: nat, sibs: seq<Node>)
    requires Extends(t, u) && |sibs| > 0 && b < |u.used|
    requires forall i :: 0 <= i < |sibs| ==> SlotOf(b, sibs[i]) < |u.check|
    requires u.check[SlotOf(b, sibs[0])] == 0
    ensures Accepts(u, b, sibs) <==> Fits(t, b, sibs)
  {
    FitsExtends(t, u, b, sibs);
  }

  /** An anchor whose first sibling's slot is claimed does not fit. */
  lemma ClaimedRejects(t: Tables, u: Tables, b: nat, sibs: seq<Node>)
    requires Extends(t, u) && |sibs| > 0
    requires SlotOf(b, sibs[0]) < |u.check| && u.check[SlotOf(b, sibs[0])] != 0
    ensures !Fits(t, b, sibs)
  {
    FitsExtends(t, u, b, sibs);
  }

  /** Every anchor at or beyond the old allocation fits: the search cannot run past it. */
  lemma FreshFits(t: Tables, b: nat, sibs: seq<Node>)
    requires Shaped(t) && b >= |t.check|
    ensures Fits(t, b, sibs)
  {
  }

  /** Grows the tables, if need be, so that slot `n - 1` exists. */
  method Cover(ghost t: Tables, u: Tables, n: nat) returns (v: Tables)
    requires Extends(t, u)
    ensures Extends(t, v) && |v.check| >= n && |v.check| >= |u.check|
    ensures forall p :: 0 <= p < |u.check| ==> v.check[p] == u.check[p] && v.used[p] == u.used[p]
    ensures v.size == u.size && v.nextCheckPos == u.nextCheckPos
  {
    v := u;
    if |u.check| < n {
      ResizeExtends(u, n);
      v := Resize(u, n);
      ExtendsTrans(t, u, v);
    }
  }

  /** One round of the search loop at `pos`: grow the tables to cover `pos`, and when its slot
      is free, grow them to cover the anchor's last slot and test the anchor. */
  method Probe(ghost t: Tables, u: Tables, sibs: seq<Node>, top: nat, pos: nat) returns (v: Tables, occupied: bool, fits: bool)
    requires Extends(t, u) && |sibs| > 0 && pos >= sibs[0].code
    requires forall i :: 0 <= i < |sibs| ==> sibs[i].code <= top
    ensures Extends(t, v) && v.size == u.size && v.nextCheckPos == u.nextCheckPos && |u.check| <= |v.check|
    ensures pos < |v.check|
    ensures occupied ==> !fits && !Fits(t, pos - sibs[0].code, sibs)
    ensures !occupied ==> pos - sibs[0].code + top < |v.check| && (fits <==> Fits(t, pos - sibs[0].code, sibs))
    ensures pos - sibs[0].code >= |t.check| ==> fits
  {
    var b := pos - sibs[0].code;
    v := Cover(t, u, pos + 1);
    occupied := v.check[pos] != 0;
    fits := false;
    if occupied {
      ClaimedRejects(t, v, b, sibs);
    } else {
      v := Cover(t, v, b + top + 1);
      AcceptsFits(t, v, b, sibs);
      fits := Accepts(v, b, sibs);
      if b >= |t.check| {
        FreshFits(t, b, sibs);
      }
    }
  }

  /** The search loop of `_insert`: walk `pos` upward from the cursor, skip occupied slots
      (counting them), remember the first free one as the new cursor, and stop at the first
      anchor `pos - code0` that fits. A dense stretch (19 of every 20 slots occupied) moves
      the cursor up to `pos`. The tables come back grown but otherwise unchanged; `ncp` is the
      new cursor. */
  method FindBegin(t: Tables, sibs: seq<Node>) returns (u: Tables, begin: nat, ncp: nat)
    requires Shaped(t) && |sibs| > 0
    ensures Extends(t, u) && u.size == t.size && u.nextCheckPos == t.nextCheckPos
    ensures FirstFit(t, sibs, begin)
    ensures forall i :: 0 <= i < |sibs| ==> SlotOf(begin, sibs[i]) < |u.check|
    ensures t.nextCheckPos <= ncp <= SlotOf(begin, sibs[0])
  {
    var code0 := sibs[0].code;
    var top := MaxCode(sibs);
    ghost var low := LowestBegin(t, sibs);
    ghost var hi := |t.check| + low + code0;
    var pos: nat := (if code0 + 1 >= t.nextCheckPos then code0 + 1 else t.nextCheckPos) - 1;
    assert pos == low + code0 - 1;
    ResizeExtends(t, |t.check|);
    assert Resize(t, |t.check|) == t;
    u := t;
    var nonzero := 0;
    var first := false;
    ncp := t.nextCheckPos;
    var found := false;
    begin := 0;
    ghost var scanned: nat := low;
    while !found
      invariant Extends(t, u) && u.size == t.size && u.nextCheckPos == t.nextCheckPos
      invariant scanned + code0 == pos + 1 && low <= scanned
      invariant !found ==> pos < hi && NoneFit(t, sibs, low, scanned)
      invariant found ==> begin + 1 == scanned && low <= begin && NoneFit(t, sibs, low, begin)
      invariant found ==> Fits(t, begin, sibs) && begin + top < |u.check|
      invariant t.nextCheckPos <= ncp && (first ==> ncp <= pos) && (found ==> first)
      decreases hi - pos
    {
      pos := pos + 1;
      var occupied, fits;
      u, occupied, fits := Probe(t, u, sibs, top, pos);
      if !fits {
        NoneFitStep(t, sibs, low, scanned);
      }
      scanned := scanned + 1;
      if occupied {
        nonzero := nonzero + 1;
      } else {
        if !first {
          ncp := pos;
          first := true;
        }
        begin := pos - code0;
        found := fits;
      }
    }
    if 20 * nonzero >= 19 * (pos - ncp + 1) {
      ncp := pos;
    }
  }

  // ---------------------------------------------------------------------------
  // Claiming the anchor's slots.
  // ---------------------------------------------------------------------------

  /** The codes of a sibling list. */
  function Codes(sibs: seq<Node>): set<nat> {
    set i | 0 <= i < |sibs| :: sibs[i].code
  }

  lemma CodesSnoc(sibs: seq<Node>, i: nat)
    requires i < |sibs|
    ensures Codes(sibs[..i + 1]) == Codes(sibs[..i]) + {sibs[i].code}
  {
    assert sibs[..i + 1] == sibs[..i] + [sibs[i]];
    forall c | c in Codes(sibs[..i]) ensures c in Codes(sibs[..i + 1]) {
      var k :| 0 <= k < i && sibs[..i][k].code == c;
      assert sibs[..i + 1][k] == sibs[k];
    }
    assert sibs[..i + 1][i] == sibs[i];
  }

  /** Slot `p` is one of the slots of anchor `b`'s siblings. */
  predicate Claims(b: nat, sibs: seq<Node>, p: int) {
    p >= b && p - b in Codes(sibs)
  }

  /** Anchor `b` is in use and owns exactly the slots of its siblings. */
  ghost predicate Anchored(u: Tables, b: nat, sibs: seq<Node>) {
    && 1 <= b && Used(u, b) && |u.base| == |u.check|
    && (forall i :: 0 <= i < |sibs| ==> SlotOf(b, sibs[i]) < |u.check| && u.check[SlotOf(b, sibs[i])] == b)
    && (forall p :: 0 <= p < |u.check| && u.check[p] == b ==> Claims(b, sibs, p))
  }

  /** Later growth never adds a slot to an anchor already in use. */
  lemma AnchoredGrows(u: Tables, v: Tables, q: int, b: nat, sibs: seq<Node>)
    requires Anchored(u, b, sibs) && Grows(u, v, q)
    ensures Anchored(v, b, sibs)
  {
  }

  function Max(a: nat, b: nat): nat {
    if a > b then a else b
  }

  /** The claim of `_insert`: mark the anchor used, raise the high-water mark to cover the last
      sibling, install the new cursor, and point the slot of every sibling at the anchor. */
  method Claim(u: Tables, begin: nat, sibs: seq<Node>, ncp: nat) returns (v: Tables)
    requires Shaped(u) && |sibs| > 0 && begin < |u.used|
    requires forall i :: 0 <= i < |sibs| ==> SlotOf(begin, sibs[i]) < |u.check|
    ensures Shaped(v) && |v.check| == |u.check| && v.base == u.base
    ensures v.used == u.used[begin := true]
    ensures v.size == Max(u.size, begin + sibs[|sibs| - 1].code + 1)
    ensures v.nextCheckPos == ncp
    ensures forall p :: 0 <= p < |v.check| ==> v.check[p] == if Claims(begin, sibs, p) then begin else u.check[p]
  {
    v := u.(used := u.used[begin := true], size := Max(u.size, begin + sibs[|sibs| - 1].code + 1),
            nextCheckPos := ncp);
    var i := 0;
    while i < |sibs|
      invariant 0 <= i <= |sibs|
      invariant Shaped(v) && |v.check| == |u.check| && v.base == u.base && v.used == u.used[begin := true]
      invariant v.size == Max(u.size, begin + sibs[|sibs| - 1].code + 1) && v.nextCheckPos == ncp
      invariant forall p :: 0 <= p < |v.check| ==> v.check[p] == if Claims(begin, sibs[..i], p) then begin else u.check[p]
    {
      CodesSnoc(sibs, i);
      v := v.(check := v.check[SlotOf(begin, sibs[i]) := begin]);
      i := i + 1;
    }
    assert sibs[..i] == sibs;
  }

  /** Search and claim: the anchor is the first that fits, every sibling slot is now owned by
      it (with base still 0), and nothing claimed before has moved. */
  method Place(t: Tables, sibs: seq<Node>) returns (u: Tables, begin: nat)
    requires Sound(t) && |sibs| > 0
    ensures Sound(u) && Grows(t, u, -1)
    ensures FirstFit(t, sibs, begin) && Anchored(u, begin, sibs)
    ensures forall i :: 0 <= i < |sibs| ==> u.base[SlotOf(begin, sibs[i])] == 0
    ensures u.size == Max(t.size, begin + sibs[|sibs| - 1].code + 1)
    ensures t.nextCheckPos <= u.nextCheckPos
    ensures forall p :: 0 <= p < |u.base| && u.base[p] != 0 ==> p < |t.base| && u.base[p] == t.base[p]
  {
    var w, ncp;
    w, begin, ncp := FindBegin(t, sibs);
    ExtendsSound(t, w);
    FitsExtends(t, w, begin, sibs);
    u := Claim(w, begin, sibs, ncp);
    ClaimFacts(t, w, u, begin, sibs);
  }

  /** The facts `Claim` leaves behind, for an anchor that fits grown tables of `t`. */
  lemma ClaimFacts(t: Tables, w: Tables, u: Tables, begin: nat, sibs: seq<Node>)
    requires Sound(t) && Sound(w) && Extends(t, w) && |sibs| > 0
    requires LowestBegin(t, sibs) <= begin && Fits(w, begin, sibs)
    requires forall i :: 0 <= i < |sibs| ==> SlotOf(begin, sibs[i]) < |w.check|
    requires Shaped(u) && |u.check| == |w.check| && u.base == w.base && u.used == w.used[begin := true]
    requires u.nextCheckPos <= SlotOf(begin, sibs[0])
    requires forall p :: 0 <= p < |u.check| ==> u.check[p] == if Claims(begin, sibs, p) then begin else w.check[p]
    ensures Sound(u) && Grows(t, u, -1) && Anchored(u, begin, sibs)
    ensures forall i :: 0 <= i < |sibs| ==> u.base[SlotOf(begin, sibs[i])] == 0
  {
    ClaimSlots(w, u, begin, sibs);
    ClaimSound(w, u, begin, sibs);
    ClaimGrows(w, u, begin, sibs);
    ExtendsGrows(t, w);
    GrowsTrans(t, w, u, -1, -1);
  }

  /** Every sibling slot was free, so it now belongs to the anchor and still has base 0. */
  lemma ClaimSlots(w: Tables, u: Tables, begin: nat, sibs: seq<Node>)
    requires Sound(w) && |sibs| > 0 && Fits(w, begin, sibs) && 1 <= begin < |w.used|
    requires forall i :: 0 <= i < |sibs| ==> SlotOf(begin, sibs[i]) < |w.check|
    requires Shaped(u) && |u.check| == |w.check| && u.base == w.base && u.used == w.used[begin := true]
    requires forall p :: 0 <= p < |u.check| ==> u.check[p] == if Claims(begin, sibs, p) then begin else w.check[p]
    ensures Anchored(u, begin, sibs)
    ensures forall i :: 0 <= i < |sibs| ==> u.base[SlotOf(begin, sibs[i])] == 0
  {
    forall i | 0 <= i < |sibs|
      ensures u.check[SlotOf(begin, sibs[i])] == begin && u.base[SlotOf(begin, sibs[i])] == 0
    {
      assert sibs[i].code in Codes(sibs);
      assert Free(w, SlotOf(begin, sibs[i]));
    }
  }

  lemma ClaimSound(w: Tables, u: Tables, begin: nat, sibs: seq<Node>)
    requires Sound(w) && |sibs| > 0 && 1 <= begin < |w.used|
    requires Shaped(u) && |u.check| == |w.check| && u.base == w.base && u.used == w.used[begin := true]
    requires u.nextCheckPos < |u.check|
    requires forall p :: 0 <= p < |u.check| ==> u.check[p] == if Claims(begin, sibs, p) then begin else w.check[p]
    ensures Sound(u)
  {
  }

  lemma ClaimGrows(w: Tables, u: Tables, begin: nat, sibs: seq<Node>)
    requires Sound(w) && |sibs| > 0 && Fits(w, begin, sibs) && begin < |w.used|
    requires forall i :: 0 <= i < |sibs| ==> SlotOf(begin, sibs[i]) < |w.check|
    requires Shaped(u) && |u.check| == |w.check| && u.base == w.base && u.used == w.used[begin := true]
    requires forall p :: 0 <= p < |u.check| ==> u.check[p] == if Claims(begin, sibs, p) then begin else w.check[p]
    ensures Grows(w, u, -1)
  {
  }
}
