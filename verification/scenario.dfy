/** The example trie of tests/_test_datrie.py, built from the four pairs "AB": "1", "ABCD": "2",
    "EF": "3" and "EFGH": "4", and the answers the script expects of it, derived from the general
    theorems about `get`, the prefix walk and the listings. */
module Scenario {
  import opened Wrappers
  import opened Keys
  import opened DoubleArray
  import opened Builder
  import opened Query
  import opened Listing

  // The keys as the code points of their characters: 'A' is 65, 'X' is 88.
  const A: Key := [65]
  const AB: Key := [65, 66]
  const ABC: Key := [65, 66, 67]
  const ABCD: Key := [65, 66, 67, 68]
  const B: Key := [66]
  const BCD: Key := [66, 67, 68]
  const EF: Key := [69, 70]
  const EFG: Key := [69, 70, 71]
  const EFGH: Key := [69, 70, 71, 72]
  const X: Key := [88]

  /** The mapping the script builds its trie from. */
  function TestEntries(): seq<(Key, string)> {
    [(AB, "1"), (ABCD, "2"), (EF, "3"), (EFGH, "4")]
  }

  /** `tr` is a finished build of the script's mapping. */
  ghost predicate TestTrie(tr: Trie<string>) {
    Built(tr) && multiset(Pairs(tr)) == multiset(TestEntries())
  }

  /** `DoubleArrayTrie({...})` as the script calls it: the build succeeds. */
  method BuildTestTrie() returns (tr: Trie<string>)
    ensures TestTrie(tr)
  {
    var r := Build(TestEntries());
    tr := r.value;
  }

  /** The script's pairs, as a key list and a value list: pair `i` is one of the four, and each
      of the four is some pair `i`. */
  ghost predicate Table(keys: seq<Key>, values: seq<string>) {
    && |keys| == |values|
    && (forall i :: 0 <= i < |keys| ==> (keys[i], values[i]) in TestEntries())
    && (forall e :: e in TestEntries() ==> exists i :: 0 <= i < |keys| && keys[i] == e.0 && values[i] == e.1)
  }

  /** Where the j-th of the script's pairs sits in the table. */
  lemma Position(keys: seq<Key>, values: seq<string>, j: nat) returns (i: nat)
    requires Table(keys, values) && j < |TestEntries()|
    ensures i < |keys| && keys[i] == TestEntries()[j].0 && values[i] == TestEntries()[j].1
  {
    assert TestEntries()[j] in TestEntries();
    i :| 0 <= i < |keys| && keys[i] == TestEntries()[j].0 && values[i] == TestEntries()[j].1;
  }

  /** What `get` answers on the trie: the value of each of the four keys, nothing for the rest. */
  ghost predicate Answers(tr: Trie<string>) {
    && |tr.base| > 0 && MarkersIndexValues(tr)
    && forall k, v :: Get(tr, k) == Some(v) <==> (k, v) in TestEntries()
  }

  /** The table of a build holds exactly the script's pairs, and `get` answers accordingly. */
  lemma TestTable(tr: Trie<string>)
    requires TestTrie(tr)
    ensures Table(tr.keys, tr.values)
    ensures Answers(tr)
  {
    forall i | 0 <= i < |tr.keys|
      ensures (tr.keys[i], tr.values[i]) in TestEntries()
    {
      assert Pairs(tr)[i] in multiset(Pairs(tr));
    }
    forall e | e in TestEntries()
      ensures exists i :: 0 <= i < |tr.keys| && tr.keys[i] == e.0 && tr.values[i] == e.1
    {
      assert e in multiset(Pairs(tr));
      var i :| 0 <= i < |Pairs(tr)| && Pairs(tr)[i] == e;
    }
    TrieGet(TestEntries(), tr);
  }

  /** `get("AB")` is "1", `get("EF")` is "3", and "EFG" is not in the trie. */
  lemma TestGet(tr: Trie<string>)
    requires TestTrie(tr)
    ensures Get(tr, AB) == Some("1") && Get(tr, EF) == Some("3")
    ensures Get(tr, EFG).None?
  {
    TestTable(tr);
    GetAnswers(tr);
  }

  lemma GetAnswers(tr: Trie<string>)
    requires Answers(tr)
    ensures Get(tr, AB) == Some("1") && Get(tr, EF) == Some("3") && Get(tr, ABCD) == Some("2")
    ensures Get(tr, EFG).None?
  {
    assert (AB, "1") in TestEntries() && (EF, "3") in TestEntries() && (ABCD, "2") in TestEntries();
    assert forall v :: (EFG, v) !in TestEntries();
  }

  /** A key the trie holds is one of the four. */
  lemma Held(tr: Trie<string>, p: Key)
    requires Answers(tr) && Get(tr, p).Some?
    ensures p == AB || p == ABCD || p == EF || p == EFGH
  {
    assert (p, Get(tr, p).value) in TestEntries();
  }

  /** `prefixes("ABC")` is ["AB"] and `prefixes("ABCD")` is ["AB", "ABCD"]. */
  lemma TestPrefixes(tr: Trie<string>)
    requires TestTrie(tr)
    ensures Prefixes(tr, ABC) == [AB]
    ensures Prefixes(tr, ABCD) == [AB, ABCD]
  {
    TestTable(tr);
    GetAnswers(tr);
    Absent(tr, []);
    Absent(tr, A);
    Absent(tr, ABC);
    PrefixesOfABC(tr);
    PrefixesOfABCD(tr);
  }

  /** A list that is none of the four keys is not in the trie. */
  lemma Absent(tr: Trie<string>, k: Key)
    requires Answers(tr) && k != AB && k != ABCD && k != EF && k != EFGH
    ensures Get(tr, k).None?
  {
    if Get(tr, k).Some? {
      Held(tr, k);
    }
  }

  lemma PrefixesOfABC(tr: Trie<string>)
    requires |tr.base| > 0 && MarkersIndexValues(tr)
    requires Get(tr, []).None? && Get(tr, A).None? && Get(tr, AB) == Some("1") && Get(tr, ABC).None?
    ensures Prefixes(tr, ABC) == [AB]
  {
    var items := PrefixItems(tr, ABC);
    assert ABC[..0] == [] && ABC[..1] == A && ABC[..2] == AB && ABC[..3] == ABC;
    assert (AB, "1") in items;
    forall j | 0 <= j < |items|
      ensures items[j].0 == AB
    {
      assert items[j].0 == ABC[..|items[j].0|];
    }
    assert |items| == 1;
    assert Prefixes(tr, ABC)[0] == AB;
  }

  lemma PrefixesOfABCD(tr: Trie<string>)
    requires |tr.base| > 0 && MarkersIndexValues(tr)
    requires Get(tr, []).None? && Get(tr, A).None? && Get(tr, AB) == Some("1") && Get(tr, ABC).None?
    requires Get(tr, ABCD) == Some("2")
    ensures Prefixes(tr, ABCD) == [AB, ABCD]
  {
    var items := PrefixItems(tr, ABCD);
    assert ABCD[..0] == [] && ABCD[..1] == A && ABCD[..2] == AB && ABCD[..3] == ABC && ABCD[..4] == ABCD;
    assert (AB, "1") in items && (ABCD, "2") in items;
    forall j | 0 <= j < |items|
      ensures items[j].0 == AB || items[j].0 == ABCD
    {
      assert items[j].0 == ABCD[..|items[j].0|];
    }
    assert |items| == 2;
    assert |items[0].0| < |items[1].0|;
    assert Prefixes(tr, ABCD)[0] == AB && Prefixes(tr, ABCD)[1] == ABCD;
  }

  /** `longest_prefix("ABC")` is "AB", with the item ("AB", "1"), and `has_prefix("EFG")` holds. */
  lemma TestLongestPrefix(tr: Trie<string>)
    requires TestTrie(tr)
    ensures LongestPrefix(tr, ABC) == Some(AB)
    ensures LongestPrefixItem(tr, ABC) == Some((AB, "1"))
    ensures HasPrefix(tr, EFG)
  {
    TestTable(tr);
    LongestOfABC(tr);
  }

  lemma LongestOfABC(tr: Trie<string>)
    requires Answers(tr)
    ensures LongestPrefix(tr, ABC) == Some(AB)
    ensures LongestPrefixItem(tr, ABC) == Some((AB, "1"))
    ensures HasPrefix(tr, EFG)
  {
    GetAnswers(tr);
    assert ABC[..2] == AB && EFG[..2] == EF;
    Held(tr, LongestPrefix(tr, ABC).value);
    Held(tr, LongestPrefixItem(tr, ABC).value.0);
  }

  /** `has_keys_with_prefix("A")` holds and `has_keys_with_prefix("X")` does not, with the loop as
      written and corrected alike. */
  lemma TestHasKeysWithPrefix(tr: Trie<string>)
    requires TestTrie(tr)
    ensures HasKeysWithPrefix(tr, A) && HasKeysWithPrefixAsWritten(tr, A)
    ensures !HasKeysWithPrefix(tr, X) && !HasKeysWithPrefixAsWritten(tr, X)
  {
    TestTable(tr);
    HasKeysWithPrefixCorrect(tr, A);
    HasKeysWithPrefixCorrect(tr, X);
    StartsWithA(tr.keys, tr.values);
    HasKeysWithPrefixAsWrittenCovers(tr, A);
    assert Walk(tr.base, tr.check, tr.base[0], X).None?;
  }

  /** Which of the four keys start with "A", "ABC" and "X". */
  lemma Starts()
    ensures IsPrefix(A, AB) && IsPrefix(A, ABCD) && !IsPrefix(A, EF) && !IsPrefix(A, EFGH)
    ensures !IsPrefix(ABC, AB) && IsPrefix(ABC, ABCD) && !IsPrefix(ABC, EF) && !IsPrefix(ABC, EFGH)
    ensures !IsPrefix(X, AB) && !IsPrefix(X, ABCD) && !IsPrefix(X, EF) && !IsPrefix(X, EFGH)
  {
    assert AB[..1] == A && ABCD[..1] == A && ABCD[..3] == ABC;
    assert EF[..1][0] == 69 && EFGH[..1][0] == 69 && EFGH[..3][0] == 69 && AB[..1][0] == 65 && ABCD[..1][0] == 65;
  }

  /** Which of the four pairs lie below "A", below "ABC" and below "X". */
  lemma Classify(k: Key, v: string)
    requires (k, v) in TestEntries()
    ensures IsPrefix(A, k) <==> (k, v) == (AB, "1") || (k, v) == (ABCD, "2")
    ensures IsPrefix(ABC, k) <==> (k, v) == (ABCD, "2")
    ensures !IsPrefix(X, k)
  {
    Starts();
  }

  /** Two of the keys start with "A", none with "X". */
  lemma StartsWithA(keys: seq<Key>, values: seq<string>)
    requires Table(keys, values)
    ensures exists i :: 0 <= i < |keys| && IsPrefix(A, keys[i])
    ensures forall i :: 0 <= i < |keys| ==> !IsPrefix(X, keys[i])
  {
    Starts();
    var i := Position(keys, values, 0);
    assert IsPrefix(A, keys[i]);
    forall i | 0 <= i < |keys|
      ensures !IsPrefix(X, keys[i])
    {
      Classify(keys[i], values[i]);
    }
  }

  /** `keys("A")` is {"AB", "ABCD"} and `keys("ABC")` is {"ABCD"}. */
  lemma TestKeysWithPrefix(tr: Trie<string>)
    requires TestTrie(tr)
    ensures KeysWithPrefix(tr, A) == {AB, ABCD}
    ensures KeysWithPrefix(tr, ABC) == {ABCD}
  {
    TestTable(tr);
    KeysWithPrefixBuilt(tr, A);
    KeysWithPrefixBuilt(tr, ABC);
    KeysBelow(tr.keys, tr.values);
  }

  lemma KeysBelow(keys: seq<Key>, values: seq<string>)
    requires Table(keys, values)
    ensures (set i | 0 <= i < |keys| && IsPrefix(A, keys[i]) :: keys[i]) == {AB, ABCD}
    ensures (set i | 0 <= i < |keys| && IsPrefix(ABC, keys[i]) :: keys[i]) == {ABCD}
  {
    forall i | 0 <= i < |keys|
      ensures IsPrefix(A, keys[i]) <==> keys[i] == AB || keys[i] == ABCD
      ensures IsPrefix(ABC, keys[i]) <==> keys[i] == ABCD
    {
      Classify(keys[i], values[i]);
    }
    var iAB := Position(keys, values, 0);
    var iABCD := Position(keys, values, 1);
  }

  /** `values("A")` is {"1", "2"}, `items("ABC")` is {("ABCD", "2")} and `suffixes("A")` is
      {"B", "BCD"}. */
  lemma TestValuesItemsSuffixes(tr: Trie<string>)
    requires TestTrie(tr)
    ensures ValuesWithPrefix(tr, A) == {"1", "2"}
    ensures ItemsWithPrefix(tr, ABC) == {(ABCD, "2")}
    ensures SuffixesOf(tr, A) == {B, BCD}
  {
    TestTable(tr);
    ValuesWithPrefixBuilt(tr, A);
    ItemsWithPrefixBuilt(tr, ABC);
    SuffixesOfBuilt(tr, A);
    ValuesBelow(tr.keys, tr.values);
    ItemsBelow(tr.keys, tr.values);
    SuffixesBelow(tr.keys, tr.values);
  }

  /** The values of the keys below "A" are "1" and "2". */
  lemma ValuesBelow(keys: seq<Key>, values: seq<string>)
    requires Table(keys, values)
    ensures (set i | 0 <= i < |keys| && IsPrefix(A, keys[i]) :: values[i]) == {"1", "2"}
  {
    forall i | 0 <= i < |keys|
      ensures IsPrefix(A, keys[i]) <==> (keys[i], values[i]) == (AB, "1") || (keys[i], values[i]) == (ABCD, "2")
    {
      Classify(keys[i], values[i]);
    }
    var iAB := Position(keys, values, 0);
    var iABCD := Position(keys, values, 1);
  }

  /** The only item below "ABC" is ("ABCD", "2"). */
  lemma ItemsBelow(keys: seq<Key>, values: seq<string>)
    requires Table(keys, values)
    ensures (set i | 0 <= i < |keys| && IsPrefix(ABC, keys[i]) :: (keys[i], values[i])) == {(ABCD, "2")}
  {
    forall i | 0 <= i < |keys|
      ensures IsPrefix(ABC, keys[i]) <==> (keys[i], values[i]) == (ABCD, "2")
    {
      Classify(keys[i], values[i]);
    }
    var iABCD := Position(keys, values, 1);
  }

  /** What follows "A" in the keys below it: "B" and "BCD". */
  lemma SuffixesBelow(keys: seq<Key>, values: seq<string>)
    requires Table(keys, values)
    ensures (set i | 0 <= i < |keys| && IsPrefix(A, keys[i]) :: keys[i][|A|..]) == {B, BCD}
  {
    forall i | 0 <= i < |keys|
      ensures IsPrefix(A, keys[i]) <==> keys[i] == AB || keys[i] == ABCD
    {
      Classify(keys[i], values[i]);
    }
    var iAB := Position(keys, values, 0);
    var iABCD := Position(keys, values, 1);
    assert AB[|A|..] == B && ABCD[|A|..] == BCD;
  }

  /** `modify_value("AB", "99")` reports true; afterwards `get("AB")` is "99" and `get("EF")` is
      still "3". */
  lemma TestModifyValue(tr: Trie<string>)
    requires TestTrie(tr)
    ensures ModifyValue(tr, AB, "99").1
    ensures Get(ModifyValue(tr, AB, "99").0, AB) == Some("99")
    ensures Get(ModifyValue(tr, AB, "99").0, EF) == Some("3")
  {
    TestGet(tr);
    ModifyThenGet(tr, AB, "99", EF);
  }
}
