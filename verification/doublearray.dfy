/** The double array itself and the walk every query is built on: a transition on code `c`
    out of anchor `b` lands on slot `b + c`, and is valid when `check` of that slot names `b`. */
module DoubleArray {
  import opened Wrappers
  import opened Keys

  /** The base of a slot that ends a key: the key's index `i`, stored as `-i - 1` so that it is
      negative and tells a terminal apart from a child anchor. */
  function LeafMarker(index: nat): (m: int)
    ensures m < 0
    ensures -m - 1 == index as int
  {
    -(index as int) - 1
  }

  /** The anchor reached from anchor `b` on `code`. A slot outside the tables counts as no
      transition. */
  function Child(base: seq<int>, check: seq<int>, b: int, code: nat): (r: Option<int>)
    ensures r.Some? <==> 0 <= b + code < |check| && b + code < |base| && check[b + code] == b
    ensures r.Some? ==> r.value == base[b + code]
  {
    var p := b + code;
    if 0 <= p < |check| && p < |base| && check[p] == b then Some(base[p]) else None
  }

  /** Follows the symbols of `s` from anchor `b`, code `symbol + 1` at each step. */
  function Walk(base: seq<int>, check: seq<int>, b: int, s: Key): Option<int>
    decreases |s|
  {
    if |s| == 0 then Some(b)
    else
      match Child(base, check, b, s[0] + 1)
      case None => None
      case Some(next) => Walk(base, check, next, s[1..])
  }

  /** The key index stored at anchor `b`, when `b` is a terminal: its own slot names it
      (`check[b] == b`) and holds a leaf marker. */
  function Terminal(base: seq<int>, check: seq<int>, b: int): (r: Option<nat>)
    ensures r.Some? <==> 0 <= b < |check| && b < |base| && check[b] == b && base[b] < 0
    ensures r.Some? ==> LeafMarker(r.value) == base[b]
  {
    if 0 <= b < |check| && b < |base| && check[b] == b && base[b] < 0 then Some(-base[b] - 1) else None
  }

  /** The key index the walk of `s` from `b` ends on. */
  function LookupFrom(base: seq<int>, check: seq<int>, b: int, s: Key): Option<nat> {
    match Walk(base, check, b, s)
    case None => None
    case Some(e) => Terminal(base, check, e)
  }

  lemma {:induction false} WalkAppend(base: seq<int>, check: seq<int>, b: int, s: Key, t: Key)
    ensures Walk(base, check, b, s + t) ==
      match Walk(base, check, b, s)
      case None => None
      case Some(e) => Walk(base, check, e, t)
    decreases |s|
  {
    if |s| == 0 {
      assert s + t == t;
    } else {
      assert (s + t)[0] == s[0];
      assert (s + t)[1..] == s[1..] + t;
      match Child(base, check, b, s[0] + 1)
      case None =>
      case Some(next) => WalkAppend(base, check, next, s[1..], t);
    }
  }

  /** A built trie: the two tables, the reverse child index, the sorted keys and their values. */
  datatype Trie<V> = Trie(base: seq<int>, check: seq<int>, codes: seq<set<nat>>, keys: seq<Key>,
                          values: seq<V>, size: nat)

  /** Every leaf marker in the table decodes to an index of the value list. */
  predicate MarkersIndexValues<V>(t: Trie<V>) {
    forall p :: 0 <= p < |t.base| && t.base[p] < 0 ==> -t.base[p] - 1 < |t.values|
  }

  /** `_exact_match_search`: the index of `key`, or -1. */
  function ExactMatch<V>(t: Trie<V>, key: Key): (r: int)
    requires |t.base| > 0
    ensures r == -1 || 0 <= r
    ensures 0 <= r <==> LookupFrom(t.base, t.check, t.base[0], key).Some?
    ensures 0 <= r ==> r == LookupFrom(t.base, t.check, t.base[0], key).value
  {
    match LookupFrom(t.base, t.check, t.base[0], key)
    case None => -1
    case Some(i) => i
  }

  /** `get`: the value stored under `key`, if any. */
  function Get<V>(t: Trie<V>, key: Key): (r: Option<V>)
    requires |t.base| > 0 && MarkersIndexValues(t)
    ensures r.Some? <==> ExactMatch(t, key) >= 0
    ensures r.Some? ==> ExactMatch(t, key) < |t.values| && r.value == t.values[ExactMatch(t, key)]
  {
    var idx := ExactMatch(t, key);
    if idx >= 0 then
      assert Terminal(t.base, t.check, Walk(t.base, t.check, t.base[0], key).value).Some?;
      Some(t.values[idx])
    else None
  }
}
