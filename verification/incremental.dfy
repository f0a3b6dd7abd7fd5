/** The incremental double-array of datrie/datrie.py: `base` and `check` lists that grow one slot
    at a time, a sorted set of free positions kept in step with the writes, the searches for free
    room, and the prefix walk behind `find`. Symbols are integers (`ord(ch) - ord('a')`). */
module Incremental {
  import opened Wrappers

  const LEAF_BASE_VALUE: int := -2
  const ROOT_CHECK_VALUE: int := -3
  const EMPTY_VALUE: int := -1
  const INITIAL_ROOT_BASE: int := 1

  /** The three answers of the prefix walk. */
  datatype Outcome = PerfectMatch | PartialMatch | NotFound

  /** What `_run_prefix` reports: the walked input, where it stopped, the state it stopped in and
      the answer. */
  datatype SearchState = SearchState(prefix: seq<int>, index: nat, finishedAtState: int, result: Outcome)

  /** The exceptions the walk can raise: a failed `assert` on a symbol, or an index past either
      end of a list. */
  datatype PyError = AssertionFailed | IndexError

  // ---------------------------------------------------------------------------
  // The sorted set of free positions.
  // ---------------------------------------------------------------------------

  predicate Sorted(xs: seq<int>) {
    forall i, j :: 0 <= i < j < |xs| ==> xs[i] < xs[j]
  }

  /** `SortedSet.add`. */
  function SortedAdd(xs: seq<int>, x: int): (r: seq<int>)
    requires Sorted(xs)
    ensures Sorted(r)
    ensures forall y :: y in r <==> y in xs || y == x
  {
    if |xs| == 0 then [x]
    else if x < xs[0] then [x] + xs
    else if x == xs[0] then xs
    else
      var rest := SortedAdd(xs[1..], x);
      assert forall k :: 0 <= k < |rest| ==> rest[k] in rest;
      [xs[0]] + rest
  }

  /** `SortedSet.remove` (of a present element; an absent one leaves the set alone). */
  function SortedRemove(xs: seq<int>, x: int): (r: seq<int>)
    requires Sorted(xs)
    ensures Sorted(r)
    ensures forall y :: y in r <==> y in xs && y != x
  {
    if |xs| == 0 then []
    else if xs[0] == x then xs[1..]
    else
      var rest := SortedRemove(xs[1..], x);
      assert forall k :: 0 <= k < |rest| ==> rest[k] in rest;
      [xs[0]] + rest
  }

  /** `SortedSet.bisect_right(v)`: how many elements are at most `v`, so that the element at that
      position (if any) is the least one above `v`. */
  function BisectRight(xs: seq<int>, v: int): (k: nat)
    requires Sorted(xs)
    ensures k <= |xs|
    ensures forall j :: 0 <= j < k ==> xs[j] <= v
    ensures forall j :: k <= j < |xs| ==> xs[j] > v
  {
    if |xs| == 0 || xs[0] > v then 0 else 1 + BisectRight(xs[1..], v)
  }

  /** Positions `s .. s + n - 1` are all in `xs`. */
  predicate Run(xs: seq<int>, s: int, n: nat) {
    forall p :: s <= p < s + n ==> p in xs
  }

  /** In a sorted list, a value strictly between two neighbours, or above the last element, is
      not in the list. */
  lemma NotBetween(xs: seq<int>, i: nat, p: int)
    requires Sorted(xs) && 0 < |xs| && i < |xs|
    requires xs[i] < p && (i + 1 < |xs| ==> p < xs[i + 1])
    ensures p !in xs
  {
    if p in xs {
      var k :| 0 <= k < |xs| && xs[k] == p;
    }
  }

  // ---------------------------------------------------------------------------
  // The trie's lists.
  // ---------------------------------------------------------------------------

  datatype Trie = Trie(alphabetLength: int, free: seq<int>, base: seq<int>, check: seq<int>)

  /** What every operation keeps: the two lists have one common, non-zero length, and the free
      set is sorted, lies inside the lists and only holds positions whose last write was
      `EMPTY_VALUE`. */
  ghost predicate Valid(t: Trie) {
    && |t.base| == |t.check| > 0
    && Sorted(t.free)
    && forall p :: p in t.free ==> 0 <= p < |t.base| && (t.base[p] == EMPTY_VALUE || t.check[p] == EMPTY_VALUE)
  }

  /** `r` is `t` with empty slots appended, each of them added to the free set. */
  ghost predicate Extends(t: Trie, r: Trie) {
    && r.alphabetLength == t.alphabetLength
    && |t.base| <= |r.base| && |t.check| <= |r.check|
    && r.base[..|t.base|] == t.base && r.check[..|t.check|] == t.check
    && (forall p :: |t.base| <= p < |r.base| ==> r.base[p] == EMPTY_VALUE)
    && (forall p :: |t.check| <= p < |r.check| ==> r.check[p] == EMPTY_VALUE)
    && (forall y :: y in r.free <==> y in t.free || |t.base| <= y < |r.base|)
  }

  lemma ExtendsTrans(t: Trie, u: Trie, v: Trie)
    requires Valid(t) && Extends(t, u) && Valid(u) && Extends(u, v)
    ensures Extends(t, v)
  {
    assert v.base[..|t.base|] == v.base[..|u.base|][..|t.base|];
    assert v.check[..|t.check|] == v.check[..|u.check|][..|t.check|];
    forall p | |t.base| <= p < |u.base|
      ensures v.base[p] == EMPTY_VALUE && v.check[p] == EMPTY_VALUE
    {
      assert v.base[p] == v.base[..|u.base|][p];
      assert v.check[p] == v.check[..|u.check|][p];
    }
  }

  /** `DoubleArrayTrie()`: the root slot alone, with base 1 and the root's check marker, and no
      free position. */
  function New(alphabetLength: int): (r: Trie)
    ensures Valid(r) && r.alphabetLength == alphabetLength
    ensures Size(r) == 1 && r.base[0] == INITIAL_ROOT_BASE && r.check[0] == ROOT_CHECK_VALUE
    ensures forall p :: p !in r.free
  {
    Trie(alphabetLength, [], [INITIAL_ROOT_BASE], [ROOT_CHECK_VALUE])
  }

  /** `size()`. */
  function Size(t: Trie): nat {
    |t.base|
  }

  /** `set_base`: one cell of `base` is written; the position joins the free set when the value
      is `EMPTY_VALUE` and leaves it otherwise. */
  function SetBase(t: Trie, position: nat, value: int): (r: Trie)
    requires position < |t.base| && Sorted(t.free)
    ensures |r.base| == |t.base| && r.base[position] == value && r.check == t.check
    ensures forall p :: 0 <= p < |t.base| && p != position ==> r.base[p] == t.base[p]
    ensures forall y :: y in r.free <==> if y == position then value == EMPTY_VALUE else y in t.free
    ensures Valid(t) ==> Valid(r)
  {
    t.(base := t.base[position := value],
       free := if value == EMPTY_VALUE then SortedAdd(t.free, position) else SortedRemove(t.free, position))
  }

  /** `set_check`: the same for one cell of `check`. */
  function SetCheck(t: Trie, position: nat, value: int): (r: Trie)
    requires position < |t.check| && Sorted(t.free)
    ensures |r.check| == |t.check| && r.check[position] == value && r.base == t.base
    ensures forall p :: 0 <= p < |t.check| && p != position ==> r.check[p] == t.check[p]
    ensures forall y :: y in r.free <==> if y == position then value == EMPTY_VALUE else y in t.free
    ensures Valid(t) ==> Valid(r)
  {
    t.(check := t.check[position := value],
       free := if value == EMPTY_VALUE then SortedAdd(t.free, position) else SortedRemove(t.free, position))
  }

  /** One round of `_ensure_reachable_index`: an empty slot at the end, marked free. */
  function Grow(t: Trie): (r: Trie)
    requires Valid(t)
    ensures Valid(r) && Extends(t, r) && |r.base| == |t.base| + 1
  {
    var r := t.(base := t.base + [EMPTY_VALUE], check := t.check + [EMPTY_VALUE], free := SortedAdd(t.free, |t.base|));
    assert r.base[..|t.base|] == t.base && r.check[..|t.check|] == t.check;
    r
  }

  /** `_ensure_reachable_index(limit)`: append empty, free slots until position `limit` exists. */
  function EnsureReachable(t: Trie, limit: int): (r: Trie)
    requires Valid(t)
    ensures Valid(r) && Extends(t, r)
    ensures Size(r) > limit
    ensures Size(r) == if Size(t) > limit then Size(t) else limit + 1
    decreases limit - |t.base|
  {
    if |t.base| > limit then
      assert t.base[..|t.base|] == t.base && t.check[..|t.check|] == t.check;
      t
    else
      var g := Grow(t);
      var r := EnsureReachable(g, limit);
      ExtendsTrans(t, g, r);
      r
  }

  // ---------------------------------------------------------------------------
  // Looking for free room.
  // ---------------------------------------------------------------------------

  /** `_find_consecutive_free(amount)`: the first position of the first run of `amount`
      consecutive free positions, or -1 when there is none (always for `amount == 0`). */
  method FindConsecutiveFree(t: Trie, amount: nat) returns (r: int)
    requires Valid(t)
    ensures r != -1 ==> amount >= 1 && r in t.free && Run(t.free, r, amount)
    ensures r != -1 ==> forall s :: s in t.free && s < r ==> !Run(t.free, s, amount)
    ensures r == -1 ==> amount == 0 || forall s :: s in t.free ==> !Run(t.free, s, amount)
  {
    var xs := t.free;
    if |xs| == 0 {
      return -1;
    }
    var i := 1;
    var from := xs[0];
    var previous := from;
    var consecutive := 1;
    while consecutive < amount && i < |xs|
      invariant 1 <= i <= |xs| && 1 <= consecutive <= i
      invariant amount >= 1 ==> consecutive <= amount
      invariant previous == xs[i - 1] && from == xs[i - consecutive]
      invariant forall k :: i - consecutive <= k < i ==> xs[k] == from + (k - (i - consecutive))
      invariant forall j :: 0 <= j < i - consecutive ==> !Run(xs, xs[j], amount)
      decreases |xs| - i
    {
      var current := xs[i];
      if current - previous == 1 {
        previous := current;
        consecutive := consecutive + 1;
      } else {
        NotBetween(xs, i - 1, previous + 1);
        forall j | i - consecutive <= j < i
          ensures !Run(xs, xs[j], amount)
        {
          assert xs[j] <= previous + 1 < xs[j] + amount;
        }
        from := current;
        previous := from;
        consecutive := 1;
      }
      i := i + 1;
    }
    if consecutive == amount {
      r := from;
      assert xs[i - consecutive] in t.free;
      assert r >= 0;
      forall p | r <= p < r + amount
        ensures p in xs
      {
        assert xs[i - consecutive + (p - r)] == p;
      }
      forall s | s in xs && s < r
        ensures !Run(xs, s, amount)
      {
        var j :| 0 <= j < |xs| && xs[j] == s;
      }
    } else {
      r := -1;
      if amount > 0 {
        // The loop ran out of list with an unfinished run: `previous + 1` ends every run that
        // starts inside the last stretch, and the stretches before it were ruled out already.
        assert consecutive < amount && i == |xs| && previous == xs[|xs| - 1];
        NotBetween(xs, i - 1, previous + 1);
        assert previous + 1 !in xs;
        forall s | s in xs
          ensures !Run(xs, s, amount)
        {
          var j :| 0 <= j < |xs| && xs[j] == s;
          if j >= i - consecutive {
            assert xs[j] == from + (j - (i - consecutive));
            assert xs[j] <= previous + 1 < xs[j] + amount;
          } else {
            assert !Run(xs, xs[j], amount);
          }
        }
      }
    }
  }

  /** What `_next_available_hop` still has to do: grow until a free position lies above `v`
      (at most two rounds of two slots past `v`). */
  function HopMeasure(t: Trie, v: int): nat
    requires Sorted(t.free)
  {
    (if |t.base| > v + 1 then 0 else v + 2 - |t.base|) + (if BisectRight(t.free, v) >= |t.free| then 1 else 0)
  }

  /** `_next_available_hop(v)`: grow the lists until some free position lies above `v`, then the
      distance from `v` to the least such position. Nothing grows when one already exists. */
  method NextAvailableHop(t: Trie, v: int) returns (t': Trie, r: int)
    requires Valid(t)
    ensures Valid(t') && Extends(t, t')
    ensures (exists q :: q in t.free && q > v) ==> t' == t
    ensures r >= 1 && v + r in t'.free
    ensures forall q :: q in t'.free && q > v ==> v + r <= q
  {
    t' := t;
    assert t.base[..|t.base|] == t.base && t.check[..|t.check|] == t.check;
    while BisectRight(t'.free, v) >= |t'.free|
      invariant Valid(t') && Extends(t, t')
      invariant (exists q :: q in t.free && q > v) ==> t' == t
      decreases HopMeasure(t', v)
    {
      var u := EnsureReachable(t', |t'.base| + 1);
      assert |t'.base| + 1 in u.free;
      if |t'.base| + 1 > v {
        var j :| 0 <= j < |u.free| && u.free[j] == |t'.base| + 1;
      }
      ExtendsTrans(t, t', u);
      t' := u;
    }
    var k := BisectRight(t'.free, v);
    r := t'.free[k] - v;
    forall q | q in t'.free && q > v
      ensures v + r <= q
    {
      var j :| 0 <= j < |t'.free| && t'.free[j] == q;
    }
  }

  /** The span of positions a sorted, non-empty set of symbols needs. */
  function Span(values: seq<int>): int
    requires |values| > 0
  {
    values[|values| - 1] - values[0] + 1
  }

  /** `_next_available_move` with its guard corrected: a single symbol takes the next hop; for
      several, the first free run wide enough from the least to the greatest symbol is used when
      one exists and gives a location of at least 0, and otherwise the lists grow by that many
      slots and the location is placed over the new ones. Every position the symbols land on is
      free. */
  method NextAvailableMove(t: Trie, values: seq<int>) returns (t': Trie, location: int)
    requires Valid(t) && |values| > 0 && Sorted(values)
    ensures Valid(t') && Extends(t, t')
    ensures forall p :: location + values[0] <= p <= location + values[|values| - 1] ==> p in t'.free
  {
    if |values| == 1 {
      t', location := NextAvailableHop(t, values[0]);
      return;
    }
    var minValue := values[0];
    var needed := Span(values);
    var possible := FindConsecutiveFree(t, needed);
    if possible != -1 && possible - minValue >= 0 {
      assert t.base[..|t.base|] == t.base && t.check[..|t.check|] == t.check;
      return t, possible - minValue;
    }
    t' := EnsureReachable(t, |t.base| + needed);
    location := |t'.base| - needed - minValue;
  }

  /** `_next_available_move` as written: the test `possible - min_value >= 0` also passes when no
      run was found (`possible == -1`) and the least symbol is negative. The placement is right
      when the least symbol is not negative; otherwise, with no wide enough run, the location is
      `-1 - min_value` over positions nobody checked. */
  method NextAvailableMoveAsWritten(t: Trie, values: seq<int>) returns (t': Trie, location: int)
    requires Valid(t) && |values| > 0 && Sorted(values)
    ensures Valid(t') && Extends(t, t')
    ensures values[0] >= 0 || |values| == 1 ==>
              forall p :: location + values[0] <= p <= location + values[|values| - 1] ==> p in t'.free
    ensures |values| > 1 && values[0] <= -1 && (forall s :: s in t.free ==> !Run(t.free, s, Span(values))) ==>
              t' == t && location == -1 - values[0]
  {
    if |values| == 1 {
      t', location := NextAvailableHop(t, values[0]);
      return;
    }
    var minValue := values[0];
    var needed := Span(values);
    var possible := FindConsecutiveFree(t, needed);
    if possible - minValue >= 0 {
      assert t.base[..|t.base|] == t.base && t.check[..|t.check|] == t.check;
      return t, possible - minValue;
    }
    t' := EnsureReachable(t, |t.base| + needed);
    location := |t'.base| - needed - minValue;
  }

  /** The guard as written on a fresh trie and the symbols -1 and 0: location 0 is returned,
      although position -1, where the least symbol would go, is not free. */
  method MoveAsWrittenMisplaces() returns (t': Trie, location: int)
    ensures location == 0 && location - 1 !in t'.free
  {
    t', location := NextAvailableMoveAsWritten(New(256), [-1, 0]);
  }

  // ---------------------------------------------------------------------------
  // Walking.
  // ---------------------------------------------------------------------------

  /** Python's `xs[i]`: negative positions count from the end; past either end is an error. */
  function PyAt(xs: seq<int>, i: int): (r: Option<int>)
    ensures 0 <= i < |xs| ==> r == Some(xs[i])
    ensures -|xs| <= i < 0 ==> r == Some(xs[|xs| + i])
    ensures i < -|xs| || |xs| <= i ==> r.None?
  {
    if 0 <= i < |xs| then Some(xs[i])
    else if -|xs| <= i < 0 then Some(xs[|xs| + i])
    else None
  }

  /** `_walk(s, c)`: `base[s] + c`. */
  function Walk(t: Trie, s: int, c: int): (r: Option<int>)
    ensures 0 <= s < |t.base| ==> r == Some(t.base[s] + c)
  {
    match PyAt(t.base, s)
    case None => None
    case Some(b) => Some(b + c)
  }

  /** `_is_walkable(s, c)`: the state is inside the lists, the transition lies below their end
      and its `check` names the state. `None` is the error of reading past the start. */
  function IsWalkable(t: Trie, s: int, c: int): (r: Option<bool>)
    ensures s >= Size(t) ==> r == Some(false)
    ensures 0 <= s < Size(t) && Size(t) <= t.base[s] + c ==> r == Some(false)
    ensures r == Some(true) ==>
              && s < Size(t) && Walk(t, s, c).Some? && Walk(t, s, c).value < Size(t)
              && PyAt(t.check, Walk(t, s, c).value) == Some(s)
  {
    if !(s < Size(t)) then Some(false)
    else
      match Walk(t, s, c)
      case None => None
      case Some(transition) =>
        if !(transition < Size(t)) then Some(false)
        else
          match PyAt(t.check, transition)
          case None => None
          case Some(x) => Some(x == s)
  }

  /** One symbol of `_run_prefix` that lets the walk go on: the symbol lies in the alphabet, its
      transition out of `s` can be walked and does not end on a leaf. The state it leads to. */
  function Step(t: Trie, s: int, c: int): Option<int> {
    if 0 <= c < t.alphabetLength && IsWalkable(t, s, c) == Some(true) then
      match PyAt(t.base, Walk(t, s, c).value)
      case Some(b) => if b == LEAF_BASE_VALUE then None else Some(Walk(t, s, c).value)
      case None => None
    else None
  }

  /** The state reached from `s` by stepping through `prefix[i..k]`, when every one of those
      symbols lets the walk go on. */
  function Advance(t: Trie, prefix: seq<int>, i: nat, k: nat, s: int): Option<int>
    requires i <= k <= |prefix|
    decreases k - i
  {
    if i == k then Some(s)
    else
      match Step(t, s, prefix[i])
      case None => None
      case Some(next) => Advance(t, prefix, i + 1, k, next)
  }

  /** The transition on `c` out of `s` can be walked and lands on a leaf. */
  predicate OntoLeaf(t: Trie, s: int, c: int) {
    && IsWalkable(t, s, c) == Some(true)
    && PyAt(t.base, Walk(t, s, c).value) == Some(LEAF_BASE_VALUE)
  }

  /** The lists have one length, and every slot some state claims through `check` holds a
      non-negative base or the leaf marker, so a walk through it never indexes outside the lists. */
  predicate Settled(t: Trie) {
    && |t.base| == |t.check|
    && forall p :: 0 <= p < |t.check| && t.check[p] >= 0 ==> t.base[p] >= 0 || t.base[p] == LEAF_BASE_VALUE
  }

  /** Every symbol of `prefix` from position `i` on lies in the alphabet. */
  predicate InAlphabet(t: Trie, prefix: seq<int>, i: nat) {
    forall j :: i <= j < |prefix| ==> 0 <= prefix[j] < t.alphabetLength
  }

  /** `_run_prefix` from symbol `i` on, in state `state`: each symbol must lie in the alphabet; a
      transition that cannot be walked is NOT_FOUND; one onto a leaf is PERFECT_MATCH at the last
      symbol and NOT_FOUND before it; walking every symbol is PARTIAL_MATCH. */
  function RunFrom(t: Trie, prefix: seq<int>, i: nat, state: int): (r: Result<SearchState, PyError>)
    requires i <= |prefix|
    ensures r.Success? ==> r.value.prefix == prefix && i <= r.value.index <= |prefix|
    ensures r.Success? && r.value.result == PartialMatch ==> r.value.index == |prefix|
    ensures r.Success? && r.value.result == PerfectMatch ==> r.value.index == |prefix| - 1
    ensures r.Success? && r.value.result == NotFound ==> r.value.index < |prefix|
    ensures r.Success? ==> Advance(t, prefix, i, r.value.index, state) == Some(r.value.finishedAtState)
    ensures r.Success? ==> (r.value.result == PartialMatch <==> Advance(t, prefix, i, |prefix|, state).Some?)
    ensures r.Success? && r.value.result == NotFound ==>
              || IsWalkable(t, r.value.finishedAtState, prefix[r.value.index]) == Some(false)
              || (OntoLeaf(t, r.value.finishedAtState, prefix[r.value.index]) && r.value.index < |prefix| - 1)
    ensures r.Success? ==>
              (r.value.result == PerfectMatch <==>
                 r.value.index == |prefix| - 1 && OntoLeaf(t, r.value.finishedAtState, prefix[r.value.index]))
    ensures r == Failure(AssertionFailed) ==> !InAlphabet(t, prefix, i)
    ensures Settled(t) && 0 <= state < |t.base| && t.base[state] >= 0 && InAlphabet(t, prefix, i) ==> r.Success?
    decreases |prefix| - i
  {
    if i == |prefix| then Success(SearchState(prefix, i, state, PartialMatch))
    else
      var current := prefix[i];
      if !(0 <= current < t.alphabetLength) then Failure(AssertionFailed)
      else
        match Walk(t, state, current)
        case None => Failure(IndexError)
        case Some(transition) =>
          match IsWalkable(t, state, current)
          case None => Failure(IndexError)
          case Some(false) => Success(SearchState(prefix, i, state, NotFound))
          case Some(true) =>
            match PyAt(t.base, transition)
            case None => Failure(IndexError)
            case Some(b) =>
              if b == LEAF_BASE_VALUE then
                Success(SearchState(prefix, i, state, if i == |prefix| - 1 then PerfectMatch else NotFound))
              else RunFrom(t, prefix, i + 1, transition)
  }

  /** `_run_prefix`: the walk from the root state 0. */
  function RunPrefix(t: Trie, prefix: seq<int>): (r: Result<SearchState, PyError>)
    ensures r.Success? ==> r.value.prefix == prefix && r.value.index <= |prefix|
    ensures r.Success? && r.value.result == PerfectMatch ==> |prefix| > 0 && r.value.index == |prefix| - 1
    ensures r.Success? ==> Advance(t, prefix, 0, r.value.index, 0) == Some(r.value.finishedAtState)
    ensures r.Success? ==> (r.value.result == PartialMatch <==> Advance(t, prefix, 0, |prefix|, 0).Some?)
    ensures r == Failure(AssertionFailed) ==> !InAlphabet(t, prefix, 0)
    ensures Settled(t) && |t.base| > 0 && t.base[0] >= 0 && InAlphabet(t, prefix, 0) ==> r.Success?
    ensures r.Success? ==>
              (r.value.result == PerfectMatch <==>
                 r.value.index == |prefix| - 1 && OntoLeaf(t, r.value.finishedAtState, prefix[r.value.index]))
  {
    RunFrom(t, prefix, 0, 0)
  }

  /** A walk that matched `p + q` past the end of `p` matched every symbol of `p` on the way. */
  lemma {:induction false} RunFromClosed(t: Trie, p: seq<int>, q: seq<int>, i: nat, state: int)
    requires i <= |p| && |q| > 0
    requires RunFrom(t, p + q, i, state).Success? && RunFrom(t, p + q, i, state).value.result != NotFound
    ensures RunFrom(t, p, i, state).Success? && RunFrom(t, p, i, state).value.result == PartialMatch
    decreases |p| - i
  {
    if i < |p| {
      assert (p + q)[i] == p[i];
      var current := p[i];
      var transition := Walk(t, state, current).value;
      RunFromClosed(t, p, q, i + 1, transition);
    }
  }

  /** Matches are closed under taking prefixes: when `p + q` (with `q` non-empty) is matched
      perfectly or partially, `p` is matched partially, up to its end. */
  lemma RunPrefixClosed(t: Trie, p: seq<int>, q: seq<int>)
    requires |q| > 0 && RunPrefix(t, p + q).Success? && RunPrefix(t, p + q).value.result != NotFound
    ensures RunPrefix(t, p).Success? && RunPrefix(t, p).value.result == PartialMatch
    ensures RunPrefix(t, p).value.index == |p|
  {
    RunFromClosed(t, p, q, 0, 0);
  }

  /** A walk that stopped inside `p` stops at the same symbol, in the same state and with the
      same answer, inside any longer input `p + q`, unless `p` ended on its leaf. */
  lemma {:induction false} RunFromStops(t: Trie, p: seq<int>, q: seq<int>, i: nat, state: int)
    requires i <= |p|
    requires RunFrom(t, p, i, state).Success? && RunFrom(t, p, i, state).value.result == NotFound
    ensures RunFrom(t, p + q, i, state).Success?
    ensures RunFrom(t, p + q, i, state).value.result == NotFound
    ensures RunFrom(t, p + q, i, state).value.index == RunFrom(t, p, i, state).value.index
    ensures RunFrom(t, p + q, i, state).value.finishedAtState == RunFrom(t, p, i, state).value.finishedAtState
    decreases |p| - i
  {
    assert (p + q)[i] == p[i];
    var current := p[i];
    var transition := Walk(t, state, current).value;
    if IsWalkable(t, state, current) == Some(true) && PyAt(t.base, transition).value != LEAF_BASE_VALUE {
      RunFromStops(t, p, q, i + 1, transition);
    }
  }

  /** A perfect match of `p` turns into NOT_FOUND, at the same last symbol, for every proper
      extension: the leaf is met before the input ends. */
  lemma {:induction false} RunFromPerfect(t: Trie, p: seq<int>, q: seq<int>, i: nat, state: int)
    requires i <= |p| && |q| > 0
    requires RunFrom(t, p, i, state).Success? && RunFrom(t, p, i, state).value.result == PerfectMatch
    ensures RunFrom(t, p + q, i, state).Success?
    ensures RunFrom(t, p + q, i, state).value.result == NotFound
    ensures RunFrom(t, p + q, i, state).value.index == |p| - 1
    decreases |p| - i
  {
    assert (p + q)[i] == p[i];
    var current := p[i];
    var transition := Walk(t, state, current).value;
    if i < |p| - 1 {
      RunFromPerfect(t, p, q, i + 1, transition);
    }
  }

  /** A fresh trie has no transitions: every walk of an in-alphabet symbol stops at once. */
  lemma FreshFindsNothing(alphabetLength: int, p: seq<int>)
    requires |p| > 0 && 0 <= p[0] < alphabetLength
    ensures RunPrefix(New(alphabetLength), p) == Success(SearchState(p, 0, 0, NotFound))
  {
    assert IsWalkable(New(alphabetLength), 0, p[0]) == Some(false);
  }

  // ---------------------------------------------------------------------------
  // The public entry points that stay in the model.
  // ---------------------------------------------------------------------------

  /** `_create_unicode`: each character as its distance from 'a'. */
  function CreateUnicode(s: string): (r: seq<int>)
    ensures |r| == |s|
    ensures forall i :: 0 <= i < |s| ==> r[i] + 'a' as int == s[i] as int
  {
    seq(|s|, i requires 0 <= i < |s| => s[i] as int - 'a' as int)
  }

  /** Different strings give different symbol lists. */
  lemma CreateUnicodeInjective(s: string, s': string)
    requires CreateUnicode(s) == CreateUnicode(s')
    ensures s == s'
  {
    assert |s| == |s'|;
    forall i | 0 <= i < |s|
      ensures s[i] == s'[i]
    {
      assert CreateUnicode(s)[i] == CreateUnicode(s')[i];
    }
  }

  /** `find`: the answer of the prefix walk over the string's symbols. A string that starts
      below 'a' (an upper-case letter, a digit) fails the walk's alphabet assertion before
      anything is read. */
  function Find(t: Trie, s: string): (r: Result<Outcome, PyError>)
    ensures r.Success? <==> RunPrefix(t, CreateUnicode(s)).Success?
    ensures r.Success? ==> r.value == RunPrefix(t, CreateUnicode(s)).value.result
    ensures |s| > 0 && s[0] < 'a' ==> r == Failure(AssertionFailed)
  {
    match RunPrefix(t, CreateUnicode(s))
    case Failure(e) => Failure(e)
    case Success(st) => Success(st.result)
  }

  /** `_remove_from_trie` on an input that is not a perfect match: nothing changes and the answer
      is false. A failing walk raises its error. */
  function RemoveFromTrie(t: Trie, inputs: seq<int>): (r: Result<(bool, Trie), PyError>)
    requires RunPrefix(t, inputs).Success? ==> RunPrefix(t, inputs).value.result != PerfectMatch
    ensures r.Failure? <==> RunPrefix(t, inputs).Failure?
    ensures r.Success? ==> !r.value.0 && r.value.1 == t
  {
    match RunPrefix(t, inputs)
    case Failure(e) => Failure(e)
    case Success(_) => Success((false, t))
  }
}
