# Double-array tries of pydatrie, modelled in Dafny

pydatrie stores a set of string keys, and optionally one value per key, in a *double array*: two
integer tables `base` and `check`. State `b` has a transition on code `c` exactly when
`check[base[b] + c] == b`. A key ends at a state whose slot for code 0 points back at it and whose
`base` is negative, holding `-index - 1`. The repository contains three variants, and this project
models all three:

- **The static trie** (`pydatrie/_datrie.py`) builds the tables once, from the sorted items of a
  dictionary:
  - `_fetch` splits a range of keys into sibling groups; a decreasing code is the error -3;
  - `_insert` places each sibling group at the first anchor that fits, growing the tables as it goes;
  - `_make_code_list` records which slots each state owns.
  It answers `get`, `modify_value`, `prefixes`, `prefix_items`, `longest_prefix`,
  `longest_prefix_item`, `has_prefix`, `has_keys_with_prefix`, `keys`, `values`, `items` and
  `suffixes`.
- **The DARTS port** (`pydatrie/_datrie_impl.py`) builds the same layout with the ordering check
  commented out. It keeps its values beside the tables. It answers exact-match and common-prefix
  searches and `get`.
- **The incremental trie** (`datrie/datrie.py`) grows its `base` and `check` lists one slot at a
  time and keeps a sorted list of free positions. This project models:
  - its table writes and its searches for free room;
  - the prefix walk behind `find`, including Python's negative list indexing.

A key is a sequence of natural numbers: the code points of its characters. A code is symbol + 1,
and code 0 marks the end of a key. Each module follows one piece of the program:

| module | file | models |
|---|---|---|
| `Keys` | keys.dfy | keys, Python's string order, the sort in `_build` |
| `Siblings` | fetch.dfy | `_fetch` in both builders |
| `Tables` | tables.dfy | `_resize` and the anchor search and claim of `_insert` |
| `DoubleArray` | doublearray.dfy | transitions, leaf markers, `_exact_match_search`, `get` |
| `Layout` | layout.dfy | what a correctly built subtree looks like in the tables |
| `Builder` | builder.dfy | `_insert`, `_make_code_list`, `_build` |
| `Query` | query.dfy | `_prefixes` and the queries built on it, `modify_value` |
| `Listing` | listing.dfy | `_has_keys_with_prefix`, `_search_recursive`, `_search`, `keys`, `values`, `items`, `suffixes` |
| `Darts` | darts.dfy | the DARTS builders, searches and `get` |
| `Incremental` | incremental.dfy | the incremental trie of `datrie/datrie.py` |
| `Scenario` | scenario.dfy | the usage script `tests/_test_datrie.py` as lemmas about one built trie |

The central result is a chain of three facts:

1. `Builder.Build` yields a trie whose exact-match lookup finds exactly the given entries.
2. `Layout.LookupRealised` shows that lookup in built tables agrees with the key table.
3. `Listing.WalkNode` shows that walking a prefix lands on the subtree holding exactly the keys that
   extend it.

## Model

| member | source | states |
|---|---|---|
| Keys.OrdInjective | pydatrie/_datrie.py:98 | two strings with the same symbols are the same string, so a key names exactly one string |
| Keys.OrdPrefix | pydatrie/_datrie.py:98 | one string starts with another exactly when its key starts with the other's key |
| Keys.LessTransitive | pydatrie/_datrie.py:47 | the string order `sorted` uses is transitive |
| Keys.LessTotal | pydatrie/_datrie.py:47 | any two different keys are ordered one way or the other |
| Keys.LessAsymmetric | pydatrie/_datrie.py:47 | no two keys are each below the other |
| Keys.LessIrreflexive | pydatrie/_datrie.py:47 | no key is below itself |
| Keys.PrefixLess | pydatrie/_datrie.py:47 | a proper prefix sorts before the longer key |
| Keys.LessOrdersCodes | pydatrie/_datrie.py:97-102 | in sorted order, two keys that agree on their first d symbols have non-decreasing codes at depth d, so the ordering error cannot fire on sorted input |
| Keys.SortEntries | pydatrie/_datrie.py:47 | sorting the items by key yields a key-ascending permutation of them |
| Keys.InsertEntry | pydatrie/_datrie.py:47 | inserting an entry into sorted entries keeps them sorted and adds exactly that entry |
| Keys.SortedDistinct | pydatrie/_datrie.py:47-49 | a strictly sorted key list holds no key twice |
| Keys.KeyIndex | pydatrie/_datrie.py:49 | the position of a key in a key range, or none exactly when no position in the range holds it |
| Siblings.Fetch | pydatrie/_datrie.py:85-120 | on success, the keys of the parent's range that reach its depth are split into contiguous groups, one per run of equal codes, with each group's head carrying its code and the last group ending at the range's end; with the ordering check it succeeds exactly when codes never decrease and otherwise fails with -3; without it, it never fails |
| Siblings.FetchFromStrict | pydatrie/_datrie.py:100-102 | the checked scan succeeds if and only if the codes at the depth never decrease over the range |
| Siblings.FetchFromOutcome | pydatrie/_datrie.py:100-102 | the only failure of the scan is the order error -3, and the unchecked scan cannot fail |
| Siblings.PartitionCovers | pydatrie/_datrie.py:104-118 | every key of the range that reaches the depth lies in some group |
| Siblings.PartitionOrdered | pydatrie/_datrie.py:104-118 | earlier groups end before later groups start |
| Siblings.FetchSortedSucceeds | pydatrie/_datrie.py:97-102 | on strictly sorted keys, the checked scan of any node of the trie succeeds |
| Siblings.UncheckedFetchAgrees | pydatrie/_datrie_impl.py:133-135 | where codes never decrease, dropping the ordering check changes nothing |
| Tables.Resize | pydatrie/_datrie.py:69-83 | growing keeps every existing entry and fills the new ones with 0 and false |
| Tables.LowestBegin | pydatrie/_datrie.py:126-148 | the search never tries an anchor below 1, so the first sibling never lands on slot 0 |
| Tables.Probe | pydatrie/_datrie.py:134-166 | one probe grows the tables if needed, reports an occupied first slot, and otherwise reports fit exactly when the anchor is free and all sibling slots are unclaimed |
| Tables.FindBegin | pydatrie/_datrie.py:126-168 | the anchor found is the first from the starting point whose slot and sibling slots are all free, and the new cursor lies between the old one and the first sibling's slot |
| Tables.Claim | pydatrie/_datrie.py:173-181 | the anchor becomes used, the high-water mark covers the last sibling, and exactly the sibling slots now point at the anchor |
| Tables.Place | pydatrie/_datrie.py:126-181 | search and claim keep the tables sound, move nothing claimed before, and leave the anchor owning exactly its siblings' slots |
| DoubleArray.LeafMarker | pydatrie/_datrie.py:186 | a leaf marker is negative and decodes back to its key index |
| DoubleArray.WalkAppend | pydatrie/_datrie.py:213-218 | walking `s + t` is walking `s`, then `t` from where that stopped |
| Layout.Marker | pydatrie/_datrie_impl.py:216-221 | the end marker of the i-th key decodes to its stored value, or to i when no values are given |
| Layout.RealisesGrows | pydatrie/_datrie.py:173-190 | later writes that leave the slots of a built subtree alone keep that subtree intact |
| Layout.LookupRealised | pydatrie/_datrie.py:200-224 | in the tables of a built subtree, lookup of a suffix succeeds exactly when prefix + suffix is one of its keys, and it returns that key's stored value |
| Builder.MakeCodeList | pydatrie/_datrie.py:193-198 | slot p is listed under state c exactly when `check[p] == c` and c is not the root's 0 |
| Builder.Initial | pydatrie/_datrie.py:53-55 | the starting tables are empty apart from the root's base 1 |
| Builder.RootAnchor | pydatrie/_datrie.py:54-64 | on fresh tables the root's children are anchored at 1, where lookups start |
| Builder.Insert | pydatrie/_datrie.py:122-191 | on well-ordered keys, the subtree is placed at the first fitting anchor and the tables realise it; failures are only the order error on badly ordered keys or the value error; nothing placed before moves |
| Builder.FillChild | pydatrie/_datrie.py:183-190 | a key-ending child gets its leaf marker and any other child gets the anchor of its own subtree, which the tables then realise |
| Builder.Build | pydatrie/_datrie.py:46-67 | for distinct keys, the build succeeds exactly when there are items, and afterwards lookup returns v for k exactly when (k, v) was an item |
| Builder.GetBuilt | pydatrie/_datrie.py:330-334 | in a built trie, `get` returns the value stored beside the key, and nothing for a key not in the table |
| Builder.TrieGet | pydatrie/_datrie.py:46-67 | a built trie answers exactly the entries it was built from |
| Query.PrefixItems | pydatrie/_datrie.py:226-261 | the items listed are key prefixes that are keys, with their values, shortest first, and every prefix of the query that is a key is listed |
| Query.PrefixesFromFacts | pydatrie/_datrie.py:244-259 | the walk from depth i reports the key prefixes of length i or more, in increasing length, and all of them |
| Query.Prefixes | pydatrie/_datrie.py:343-344 | the keys of `prefix_items` in the same order; p is listed if and only if p is a prefix of the query and a key |
| Query.MaxBy | pydatrie/_datrie.py:352 | `max(..., key=...)` returns the first list member of greatest size |
| Query.LongestPrefix | pydatrie/_datrie.py:349-354 | None exactly when no prefix of the query is a key; otherwise a key prefix that no longer prefix beats |
| Query.LongestPrefixItem | pydatrie/_datrie.py:356-361 | as `longest_prefix`, with that key's value |
| Query.HasPrefix | pydatrie/_datrie.py:363-364 | true if and only if some prefix of the query, the empty one included, is a key |
| Query.ModifyValue | pydatrie/_datrie.py:336-341 | returns true exactly when the key is held; then only that key's value slot changes, otherwise nothing does |
| Query.ModifyThenGet | pydatrie/_datrie.py:336-341 | after a successful modify, `get` of the key gives the new value, every other key answers as before, and the trie is still well built |
| Listing.WalkNode | pydatrie/_datrie.py:213-218 | walking s from a built subtree succeeds exactly when some key extends prefix + s, and then lands on the subtree of exactly those keys |
| Listing.WalkBuilt | pydatrie/_datrie.py:213-218 | from the root, the walk of s succeeds exactly when some key starts with s |
| Listing.HasKeysWithPrefixCorrect | pydatrie/_datrie.py:366-367 | the corrected query is true if and only if the prefix is non-empty and some key starts with it |
| Listing.HasKeysWithPrefixAsWrittenCovers | pydatrie/_datrie.py:318-328 | the code as written answers true whenever the corrected query does |
| Listing.HasKeysWithPrefixSkips | pydatrie/_datrie.py:321-326 | on a trie whose only key is "A", the code as written says some key starts with "XA"; the corrected query says none does |
| Listing.EndsTest | pydatrie/_datrie.py:268-273 | the "is a key here" test on the code list holds exactly when the node has a key-ending child |
| Listing.GatherRealised | pydatrie/_datrie.py:263-289 | the recursive search from a built subtree lists exactly the keys below it, with values on request |
| Listing.SearchBuilt | pydatrie/_datrie.py:291-303 | the corrected `_search` lists exactly the keys starting with the prefix |
| Listing.SearchAsWrittenAgrees | pydatrie/_datrie.py:291-303 | where every transition of the prefix exists, the code as written agrees with the corrected search |
| Listing.SearchSkips | pydatrie/_datrie.py:295-303 | on a trie whose only key is "A", the code as written lists "XA" as a key below "XA"; the corrected search lists nothing |
| Listing.SkipWalkFollows | pydatrie/_datrie.py:295-298 | when every transition exists, the skipping loop ends where the walk does |
| Listing.KeysWithPrefixBuilt | pydatrie/_datrie.py:369-372 | with the corrected `_search` (second finding), `keys(prefix)` is the set of keys starting with the prefix |
| Listing.ValuesWithPrefixBuilt | pydatrie/_datrie.py:374-377 | with the corrected `_search` (second finding), `values(prefix)` is the set of values of those keys |
| Listing.ItemsWithPrefixBuilt | pydatrie/_datrie.py:379-382 | with the corrected `_search` (second finding), `items(prefix)` is the set of their items |
| Listing.SuffixesOfBuilt | pydatrie/_datrie.py:384-388 | with the corrected `_search` (second finding), `suffixes(prefix)` is the set of what follows the prefix in those keys, the empty suffix included |
| Darts.UncheckedScan | pydatrie/_datrie_impl.py:114-151 | the DARTS scan always succeeds, and on non-decreasing codes it splits like the checked one |
| Darts.UncheckedAcceptsDisorder | pydatrie/_datrie_impl.py:133-135 | on keys out of order the checked scan fails with -3 while the DARTS scan returns groups out of order |
| Darts.BuildTables | pydatrie/_datrie_impl.py:69-96 | without values the build succeeds; with values it fails only with the value error; on sorted keys the tables realise the trie of the keys |
| Darts.StoredValuesNatural | pydatrie/_datrie_impl.py:223-227 | a build with values that succeeds on sorted keys stored only non-negative values |
| Darts.BuildWithKeys | pydatrie/_datrie_impl.py:46-48 | an empty key list is refused; otherwise the trie serves the keys, without values |
| Darts.BuildWithKeysAndValues | pydatrie/_datrie_impl.py:50-54 | refused exactly when the lists differ in length or are empty; otherwise the trie serves the keys and keeps the values |
| Darts.BuildWithEntries | pydatrie/_datrie_impl.py:56-62 | the entries are split into a key list and a value list of the same order |
| Darts.BuildWithDict | pydatrie/_datrie_impl.py:64-67 | for sorted keys, `get(k)` returns v exactly when (k, v) was an entry |
| Darts.ExactMatchSearch | pydatrie/_datrie_impl.py:236-261 | the result is -1 or an index decoded from some leaf marker of the tables |
| Darts.ExactMatchBuilt | pydatrie/_datrie_impl.py:236-261 | on built tables the result is non-negative exactly when the key is held, and then it is the key's position |
| Darts.CommonFromFacts | pydatrie/_datrie_impl.py:278-290 | the reports from depth i are the key prefixes of length at least i, one per key, in increasing length, and all of them |
| Darts.CommonPrefixSearch | pydatrie/_datrie_impl.py:263-290 | at most one index per symbol of the query is reported |
| Darts.CommonPrefixBuilt | pydatrie/_datrie_impl.py:263-290 | on built tables the indices reported are those of the non-empty keys that are prefixes of the query, ascending and all of them |
| Darts.Get | pydatrie/_datrie_impl.py:295-305 | exact search gives one value exactly when the key is found, and it is the value at the found index; prefix search gives nothing exactly when no index is reported, and otherwise the values at the reported indexes, in their order |
| Darts.GetFromEntries | pydatrie/_datrie_impl.py:295-305 | on a trie built from sorted entries, exact `get` returns v for k exactly when (k, v) was an entry |
| Darts.PrefixGetFromEntries | pydatrie/_datrie_impl.py:295-300 | prefix `get` returns the values of exactly the non-empty entry keys that prefix the query, and nothing when there are none |
| Incremental.SortedAdd | datrie/datrie.py:36-37 | adding a free position keeps the list sorted and adds exactly that position |
| Incremental.SortedRemove | datrie/datrie.py:38-39 | removing a position keeps the list sorted and removes exactly that position |
| Incremental.BisectRight | datrie/datrie.py:50-54 | the split point has every element before it at most v and every element after it above v |
| Incremental.New | datrie/datrie.py:23-28 | a new trie has one slot holding the root's base 1 and check -3, and no free positions |
| Incremental.SetBase | datrie/datrie.py:33-39 | only that base entry changes, and the position is free afterwards exactly when the value written is -1 |
| Incremental.SetCheck | datrie/datrie.py:41-47 | only that check entry changes, and the position is free afterwards exactly when the value written is -1 |
| Incremental.Grow | datrie/datrie.py:62-64 | one new free slot is appended and nothing else changes |
| Incremental.EnsureReachable | datrie/datrie.py:60-64 | after the call the lists reach past the limit, grown by exactly the slots needed |
| Incremental.FindConsecutiveFree | datrie/datrie.py:66-91 | returns the first free position that starts a run of the requested number of free positions, or -1 exactly when no such run exists or none was requested |
| Incremental.NextAvailableHop | datrie/datrie.py:49-58 | the hop leads to the first free position above v, after growing the lists only when there is none |
| Incremental.NextAvailableMove | datrie/datrie.py:93-106 | with the guard corrected, every slot the children need from the returned location is free |
| Incremental.NextAvailableMoveAsWritten | datrie/datrie.py:93-106 | as written, the slots are free when the first value is at least 0 or there is only one; a first value of -1 with no free run gives location `-1 - values[0]` on the unchanged trie |
| Incremental.MoveAsWrittenMisplaces | datrie/datrie.py:100-103 | an input where the guard as written returns location 0 although the first child slot, -1, is not free |
| Incremental.IsWalkable | datrie/datrie.py:189-194 | a transition is walkable only inside the lists, with check naming the state |
| Incremental.RunFrom | datrie/datrie.py:209-229 | the assertion error is raised only when some symbol from the start position on lies outside the alphabet; on consistent lists, where every slot claimed through `check` holds a non-negative base or the leaf marker, a start state with a non-negative base and in-alphabet symbols the walk always succeeds; every symbol before the stopping index lies in the alphabet, can be walked and does not land on a leaf, and the reported state is the one those steps reach; a partial match happens exactly when every symbol steps so; a perfect match happens exactly when the last symbol's transition can be walked and lands on a leaf; not-found means the symbol at the index cannot be walked, or lands on a leaf before the last symbol |
| Incremental.RunPrefix | datrie/datrie.py:202-233 | from the root state 0, the assertion error means some symbol lies outside the alphabet, and on consistent lists with a non-negative root base every in-alphabet input is walked without error; the reported state is the one reached by stepping through the symbols before the index; a partial match happens exactly when the whole input steps; a perfect match exactly when the last symbol lands on a leaf |
| Incremental.RunPrefixClosed | datrie/datrie.py:202-233 | if p + q, with q non-empty, is walked to a partial or perfect match, then p alone is a partial match with index |p| |
| Incremental.RunFromStops | datrie/datrie.py:209-229 | once a walk is not found on p, extending p changes neither where it stopped nor the answer |
| Incremental.RunFromPerfect | datrie/datrie.py:209-229 | once p is a perfect match, extending p makes it not found, stopping at p's last symbol |
| Incremental.FreshFindsNothing | datrie/datrie.py:202-233 | on a new trie every walk is not found at position 0 |
| Incremental.CreateUnicodeInjective | datrie/datrie.py:269-271 | two strings with the same symbols are the same string |
| Incremental.Find | datrie/datrie.py:199-233 | `find` fails exactly when the walk raises, and otherwise gives the walk's answer; a string starting below 'a' fails the alphabet assertion |
| Incremental.RemoveFromTrie | datrie/datrie.py:238-267 | when the walk is not a perfect match, nothing changes and the answer is false; a walk that raises makes the removal raise |
| Scenario.BuildTestTrie | tests/_test_datrie.py:5-12 | the trie of the four example items is built and holds exactly those items |
| Scenario.TestGet | tests/_test_datrie.py:15-24 | "AB" gives "1", "EF" gives "3", and "EFG" is absent |
| Scenario.TestPrefixes | tests/_test_datrie.py:29-32 | the key prefixes of "ABC" are ["AB"], and those of "ABCD" are ["AB", "ABCD"] |
| Scenario.TestLongestPrefix | tests/_test_datrie.py:45-52 | the longest key prefix of "ABC" is "AB", with value "1" |
| Scenario.TestHasKeysWithPrefix | tests/_test_datrie.py:79-82 | some key starts with "A" and none with "X" |
| Scenario.TestKeysWithPrefix | tests/_test_datrie.py:87-90 | the keys below "A" are AB and ABCD, and below "ABC" only ABCD |
| Scenario.TestValuesItemsSuffixes | tests/_test_datrie.py:95-112 | the values below "A" are "1" and "2", the items below "ABC" are (ABCD, "2"), and the suffixes after "A" are B and BCD |
| Scenario.TestModifyValue | tests/_test_datrie.py:144-146 | changing AB to "99" succeeds, after which AB gives "99" and EF still gives "3" |

## Left out

- save and load (`pydatrie/_datrie.py:390-407`) are file I/O through pickle.
- The growth factor of `_resize`: `_fetch`'s caller `_insert` resizes once, by a floating-point ratio of at least 1.05, when the last sibling's slot lies past the end (`pydatrie/_datrie.py:149-155`, `pydatrie/_datrie_impl.py:180-186`). That one resize need not reach the slot, and then `self.check[begin + siblings[i].code]` (`pydatrie/_datrie.py:162`, `pydatrie/_datrie_impl.py:193`) or `self.used[begin]` raises IndexError. Here the tables always grow to cover the highest slot needed, so that IndexError path is not modelled.
- Tables.FindBegin: ensures a fitting anchor whose slots all lie inside the tables, and Tables.Place inherits that. In Python the same anchor search of `_insert` can raise IndexError when one resize falls short of the last sibling's slot, as in the line above.
- Builder.Insert: succeeds on well-ordered keys here; Python can raise IndexError through the short resize above.
- Builder.Build: promises a trie for every non-empty input; Python can raise IndexError through the short resize above.
- Darts.BuildTables: `values.None? ==> r.Success?` is stronger than the source, which can raise IndexError through the short resize above.
- Darts.BuildWithKeys: returns a trie for every input it accepts; Python can raise IndexError through the short resize above.
- Darts.BuildWithKeysAndValues: returns a trie for every input it accepts; Python can raise IndexError through the short resize above.
- Darts.BuildWithEntries: returns a trie for every input it accepts; Python can raise IndexError through the short resize above.
- Darts.BuildWithDict: returns a trie for every input it accepts; Python can raise IndexError through the short resize above.
- Iteration order: Python lists are modelled as sets where the source builds results by walking codes. These are `keys`, `values`, `items` and `suffixes` with a prefix, and `_search_recursive`.
- Listing.ValuesWithPrefixBuilt: a set cannot repeat a value, so the multiplicity of repeated values in `values(prefix)` is not modelled.
- Listing.SearchRec: the recursion of `_search_recursive` carries a depth bound. The bound passed is one more than the longest key, which no walk exhausts, so it never cuts a search short on a built trie. Python's own stack limit does cut it short, as the Listing.GatherRealised line below says.
- Builder.Insert: `_insert` calls itself once per key symbol (`pydatrie/_datrie.py:189`). Python raises RecursionError under CPython's default limit of 1000 frames for keys of roughly 1000 or more symbols. The model has no stack limit and does not raise it.
- Builder.Build: building goes through the recursive `_insert`. Python raises RecursionError under CPython's default limit of 1000 frames for keys of roughly 1000 or more symbols. The model has no stack limit and does not raise it.
- Darts.BuildTables: the DARTS `_insert` calls itself once per key symbol (`pydatrie/_datrie_impl.py:231`). Python raises RecursionError under CPython's default limit of 1000 frames for keys of roughly 1000 or more symbols. The model has no stack limit and does not raise it.
- Darts.BuildWithKeys: building goes through the recursive DARTS `_insert`. Python raises RecursionError under CPython's default limit of 1000 frames for keys of roughly 1000 or more symbols. The model has no stack limit and does not raise it.
- Darts.BuildWithKeysAndValues: building goes through the recursive DARTS `_insert`. Python raises RecursionError under CPython's default limit of 1000 frames for keys of roughly 1000 or more symbols. The model has no stack limit and does not raise it.
- Darts.BuildWithEntries: building goes through the recursive DARTS `_insert`. Python raises RecursionError under CPython's default limit of 1000 frames for keys of roughly 1000 or more symbols. The model has no stack limit and does not raise it.
- Darts.BuildWithDict: building goes through the recursive DARTS `_insert`. Python raises RecursionError under CPython's default limit of 1000 frames for keys of roughly 1000 or more symbols. The model has no stack limit and does not raise it.
- Listing.GatherRealised: `_search_recursive` calls itself once per symbol below the prefix (`pydatrie/_datrie.py:287`). Python raises RecursionError when a key runs roughly 1000 symbols past the prefix. The model has no stack limit, so `keys`, `values`, `items` and `suffixes` and the Listing.*Built lemmas over them do not raise it.
- Listing.SearchBuilt: relies on the unlimited recursion of Listing.GatherRealised, so the RecursionError of `_search_recursive` on keys roughly 1000 symbols past the prefix is not modelled.
- Listing.KeysWithPrefixBuilt: relies on the unlimited recursion of Listing.GatherRealised, so the RecursionError of `_search_recursive` on keys roughly 1000 symbols past the prefix is not modelled.
- Listing.ValuesWithPrefixBuilt: relies on the unlimited recursion of Listing.GatherRealised, so the RecursionError of `_search_recursive` on keys roughly 1000 symbols past the prefix is not modelled.
- Listing.ItemsWithPrefixBuilt: relies on the unlimited recursion of Listing.GatherRealised, so the RecursionError of `_search_recursive` on keys roughly 1000 symbols past the prefix is not modelled.
- Listing.SuffixesOfBuilt: relies on the unlimited recursion of Listing.GatherRealised, so the RecursionError of `_search_recursive` on keys roughly 1000 symbols past the prefix is not modelled.
- Builder.Insert: when a child's `_fetch` fails, `_insert` writes the marker and continues with the error recorded. The model stops at the first error instead. It is the same error either way, and no table built from well-ordered keys reaches that path.
- Out-of-range indexes in the queries of both static tries, which raise IndexError in Python, are read as "no transition". This covers `pydatrie/_datrie.py:200-367` and the DARTS queries `pydatrie/_datrie_impl.py:236-290`, which go through the same transition function.
- Builder.Build: empty input makes `_build` raise IndexError on `siblings[0]`. Here it is the `None` result.
- `__contains__` and `__getitem__` (`pydatrie/_datrie.py:409-413`) are thin wrappers over `get` and are not modelled separately. `__getitem__` is `get` itself. `__contains__` is `get(item) is not None`, so it answers False for a key stored with the value None. The model's values are never None, so on a built trie it would be Builder.GetBuilt's `Some` case.
- `__len__`, `__iter__`, `__eq__`, the trie's `__repr__`, `shortest_prefix` and the argument-less forms of the queries used by the usage script are not defined in `pydatrie/_datrie.py`. They are not modelled.
- The optional arguments `pos`, `_len` and `node_pos` of `_exact_match_search`, `_prefixes` and `_has_keys_with_prefix` (`pydatrie/_datrie.py:200-207`, `226-237`, `305-316`), and of `_exact_match_search` and `_common_prefix_search` in `pydatrie/_datrie_impl.py:236-244` and `263-270`, are not modelled. Every caller passes the defaults, which mean the whole key from the root, and the model fixes those values.
- Darts: the fields `used`, `key` and `length` of the DARTS class only feed the build. The error code persisting across builds is not modelled, because each build starts from fresh tables.
- Darts.BuildWithDict: the DARTS builder does not sort its input. Lookups are proved only for entries whose keys are already in order; unsorted input gets tables but no lookup guarantee.
- Darts.Get: on a trie built by `build_with_keys`, `get` raises AttributeError in Python, because no value list was ever set. The model requires a trie that carries values, whose leaf markers all index that list.
- In the incremental trie, `_add_to_trie`, `_resolve_conflict`, `_update_child_move` and `put` (`datrie/datrie.py:108-187`, `235-236`, `273-274`) are not modelled. They rewrite the tables by moving whole child sets, and their correctness is not stated anywhere in the program.
- Incremental.RemoveFromTrie: only the case where the walk is not a perfect match is modelled. On a perfect match `_remove_from_trie` overwrites bases along the path. Its effect depends on the unmodelled `put`, so `remove` is not modelled beyond that case.
- Incremental.SetBase / Incremental.SetCheck: negative positions, which Python would index from the end, are excluded by their `nat` parameter. Every caller passes a non-negative position.
- Unicode: characters are their code points. Python's `ord` and `chr` are identities on that view, and the `'a'` offset of `datrie/datrie.py` is explicit.

## Findings

| source | as written | input that shows it | evidently intended | confidence | as-written member | corrected member |
|---|---|---|---|---|---|---|
| pydatrie/_datrie.py:318-328 | `_has_keys_with_prefix` skips a missing transition and carries on from the same state | trie holding only "A", query "XA": reports true | a missing transition ends the search with false | high, not executed | Listing.HasKeysWithPrefixSkips | Listing.HasKeysWithPrefixCorrect |
| pydatrie/_datrie.py:295-303 | `_search` skips a missing transition in the same way and lists what lies below the state it stayed on; `keys`, `values`, `items` and `suffixes` (lines 369-388) list through it | trie holding only "A", prefix "XA": `keys("XA")` lists "XA" | a missing transition gives an empty result | high, not executed | Listing.SearchSkips | Listing.SearchBuilt; Listing.KeysWithPrefixBuilt, Listing.ValuesWithPrefixBuilt, Listing.ItemsWithPrefixBuilt and Listing.SuffixesOfBuilt state the listings over it |
| datrie/datrie.py:100-103 | `_next_available_move` accepts the search result when `possible - min_value >= 0`; with a first child value of -1, the "nothing found" result -1 of `_find_consecutive_free` passes that test as 0, so the guard returns location 0 as if a free run had been found, and the first child's slot is -1 | a new trie, which has no free positions, asked to place the child values [-1, 0]: the guard returns location 0, and the first child's slot, -1, is not free. A value of -1 comes from `put` with the character just below 'a', which `_add_to_trie` does not reject | test the search result against -1, the value `_find_consecutive_free` returns when it finds nothing, before offsetting it | medium, not executed | Incremental.MoveAsWrittenMisplaces | Incremental.NextAvailableMove |
