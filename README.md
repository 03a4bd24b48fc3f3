# Book search indexes in Dafny

This project models the two in-memory string indexes of the Book-Search demo
(`book_search.py`) and proves properties about them:

- **The character trie** (`Trie`, `TrieNode`). Each node has a dict of children
  keyed by character, an `is_end` flag and an `entries` list. `insert` walks
  along the word and creates missing children. `search` walks along the query
  and collects every entry below the node it reaches.
- **The ternary search tree** (`TernarySearchTree`, `TSTNode`). Each node has a
  character, `left`/`eq`/`right` children, `is_end` and `entries`. `_insert`
  rebuilds the path on return. `search` finds the node for the last query
  character and collects below it.
- **The index-building loop** of `create_gui`. It inserts every title word and
  then every author word of each catalog entry into both indexes.

Both indexes are given one meaning through the log of the (word, entry)
insertions made so far (module `IndexSpec`):

- `Under(log, q)` is the entries inserted under words that have `q` as a
  prefix, in insertion order.
- `Exactly(log, w)` is the entries inserted under `w` itself.

Modules:

- `IndexSpec` holds the log-level meaning and its lemmas.
- `TrieIndex` models the trie as a class `Trie` whose `nodes` field is an
  arena. A node is referred to by its position, and a node's children are
  `(character, position)` pairs in creation order, which is the order a Python
  dict iterates them in. `Insert` and `Search` are loops over a current-node
  pointer, as in the source. Ghost fields hold the word each node spells, its
  parent and the log.
- `TstIndex` models the tree as a datatype with a functional `InsertAt`, as
  rebuild-on-return. The class `TernarySearchTree` holds the `root` and a
  ghost log.
- `BookIndex` holds the builder and lemmas that relate the two indexes.

## Behaviour notes

- The code has only a prefix search and no exact-match mode. An exact lookup
  exists here only as ghost functions (`TrieIndex.ExactMatches`,
  `TstIndex.ExactAt`) used in lemmas.
- On the empty query the trie returns every entry, while the TST returns `[]`.
- On an empty word, `Trie.insert` marks the root terminal. The TST raises
  IndexError at `word[0]` before changing anything.
- The trie's children are visited in the order their keys were created, which
  is the order a Python dict iterates them in.
- The TST search over-reports: it also returns the entries in the matched
  node's `left` and `right` subtrees (see Findings). The trie and the
  corrected TST search agree as multisets on every non-empty query. The
  source's TST search returns a superset of that, and nothing for a query
  that is a prefix of no inserted word.

## Model

| member | source | states |
|---|---|---|
| `IndexSpec.UnderAppend` | book_search.py:22-29 | One insertion of (w, e) adds `e` at the end of the prefix result of every query that is a prefix of `w`, and at the end of the exact result for `w` only; every other result is unchanged. |
| `IndexSpec.UnderEmptyIsAll` | book_search.py:31-39 | The empty query is a prefix of every word, so its prefix result is every inserted entry. |
| `IndexSpec.UnderNothing` | book_search.py:33-35 | A query that is a prefix of no inserted word has an empty prefix result. |
| `IndexSpec.UnderSplits` | book_search.py:41-45 | As a multiset, the prefix result for `p` is the entries stored exactly at `p` plus those below `p` through each next character, provided the given set covers every next character. |
| `IndexSpec.BelowAdd` | book_search.py:44-45 | What lies below `p` through character `c` is exactly the prefix result for `p + [c]`, so the children can be collected one at a time. |
| `TrieIndex.EmptyNode` | book_search.py:13-16 | No contract of its own: a new `TrieNode()`, with no children, not terminal and no entries. |
| `TrieIndex.ChildOf` | book_search.py:25-27 | The dict lookup returns the child of an edge labelled `c` when there is one, and reports absence exactly when no edge carries `c`. |
| `TrieIndex.ChildOfAppend` | book_search.py:25-26 | Adding a child under a new key changes the lookup of that key only; all earlier lookups are unchanged. |
| `TrieIndex.AddChild` | book_search.py:25-26 | No contract of its own: the arena after creating the missing child for `c` under `cur`. Its effect on the invariant is stated by `TrieIndex.AddChildKeepsInv` and `TrieIndex.NewWordIsNew`. |
| `TrieIndex.AddEntry` | book_search.py:28-29 | No contract of its own: the arena after marking `cur` terminal and appending the entry. Its effect is stated by `TrieIndex.AddEntryKeepsInv`. |
| `TrieIndex.Walk` | book_search.py:32-36 | A successful walk ends at a node inside the arena. What that node spells is stated by `TrieIndex.WalkSpells`, and what a failed walk means by `TrieIndex.WalkMisses`. |
| `TrieIndex.Collect` | book_search.py:41-45 | No contract of its own: `_collect_all` as a pre-order collection. Its meaning is stated by `TrieIndex.CollectUnder`. |
| `TrieIndex.CollectChildren` | book_search.py:44-45 | No contract of its own: the children's collections from a given edge on. Its meaning is stated by `TrieIndex.CollectChildrenBelow`. |
| `TrieIndex.Matches` | book_search.py:31-39 | No contract of its own: `search` as a function. `TrieIndex.Trie.Search` is proved to return it, and `TrieIndex.MatchesUnder` states its meaning. |
| `TrieIndex.Descend` | book_search.py:23-27 | Insert's walk, which creates missing children, keeps every edge pointing to an existing later node and reaches an existing node. The arena only grows. |
| `TrieIndex.WalkSpells` | book_search.py:32-36 | When the search walk succeeds from a node, the node it reaches spells that node's word followed by the query. |
| `TrieIndex.WalkMisses` | book_search.py:33-35 | When the search walk hits a missing edge, no inserted word has the query as a prefix, so `[]` is the right answer. |
| `TrieIndex.MissingEdgeMeansNew` | book_search.py:25-26 | A node with no child for `c` has no inserted word below its word extended by `c`. |
| `TrieIndex.NewWordIsNew` | book_search.py:25-26 | The child created for a missing key spells a word no existing node spells, so there is one node per prefix. |
| `TrieIndex.CollectUnder` | book_search.py:41-45 | As a multiset, `_collect_all` of a node gathers every entry inserted under a word that extends the node's word, duplicates included. |
| `TrieIndex.CollectChildrenBelow` | book_search.py:44-45 | Collecting the children from a given one on gathers what lies below the node through those children's characters. |
| `TrieIndex.MatchesUnder` | book_search.py:31-45 | Prefix semantics of `search`: as a multiset, the result is every entry inserted under a word with the query as a prefix, with multiplicity. For the empty query it is every entry. |
| `TrieIndex.ExactMatchesExactly` | book_search.py:22-29 | The node a word leads to holds exactly the entries inserted under that word, in insertion order. A repeated insert appends and does not replace. |
| `TrieIndex.AddChildKeepsInv` | book_search.py:25-27 | Creating a child for a missing key preserves the representation invariant. |
| `TrieIndex.AddEntryKeepsInv` | book_search.py:28-29 | Marking the reached node terminal and appending the entry records the insertion in the log and preserves the invariant. |
| `TrieIndex.AddChildDescends` | book_search.py:25-27 | A loop step of `insert` that creates the missing child keeps the loop invariant. |
| `TrieIndex.FollowDescends` | book_search.py:27 | A loop step of `insert` that follows an existing child keeps the loop invariant. |
| `TrieIndex.InsertDone` | book_search.py:28-29 | When the walk has consumed the word, appending the entry at the reached node records the insertion, keeps the invariant and yields the arena of `Descend` followed by the append. |
| `TrieIndex.Trie.constructor` | book_search.py:19-20 | A new trie has only an empty, non-terminal root and an empty log. |
| `TrieIndex.Trie.Insert` | book_search.py:22-29 | Insert keeps the invariant and appends (word, entry) to the log. The new arena is insert's walk from the root followed by the append. Existing nodes keep their words, and new nodes lie along `word`. Re-inserting a word creates no node. The empty word makes the root terminal. |
| `TrieIndex.Trie.Search` | book_search.py:31-39 | Search is read-only and returns the pre-order collection below the reached node, or `[]` at the first missing edge. As a multiset, that is the prefix result of the log. |
| `TstIndex.CollectAll` | book_search.py:97-104 | No contract of its own: `_collect_all` as left, own entries, eq, right. Its behaviour under insertion is stated by `TstIndex.InsertCollect`. |
| `TstIndex.SearchAsWritten` | book_search.py:77-82 | No contract of its own: the source's `search`. Its meaning is stated by `TstIndex.AsWrittenSplits`, `TstIndex.AsWrittenSuperset`, `TstIndex.AsWrittenAbsent` and `TstIndex.SearchAsWrittenReportsSibling`. |
| `TstIndex.SubtreeEntries` | book_search.py:80-81 | No contract of its own: what the corrected search collects at the matched node, its own entries then its eq subtree. See `TstIndex.InsertMatches`. |
| `TstIndex.Matches` | book_search.py:77-82 | No contract of its own: the corrected search. Its meaning is stated by `TstIndex.InsertMatches`, `TstIndex.InsertKeepsMeaning` and `BookIndex.SameMatches`. |
| `TstIndex.InsertAt` | book_search.py:61-75 | `_insert` always returns a node. It keeps the character of an existing node, and a node it creates carries `w[i]`. |
| `TstIndex.TraverseToNode` | book_search.py:84-95 | `_traverse_to_node` returns a node only if the query is not exhausted, and that node's character is the query's last character. That it is the node at the query's path is stated by `TstIndex.TraverseSpells`. |
| `TstIndex.TraverseSpells` | book_search.py:84-95 | The node `_traverse_to_node` returns is the node at the query's path. The rest of the query is spelled in the tree, and every string spelled below the node's `eq` link extends the query. |
| `TstIndex.TraverseFinds` | book_search.py:84-95 | On an ordered tree, the walk finds a node exactly when the rest of the query is spelled by some node along left/right moves and eq steps. |
| `TstIndex.InsertKeepsEnds` | book_search.py:72-74 | Insertion keeps "terminal" and "holds entries" in step at every node. |
| `TstIndex.InsertKeepsOrdered` | book_search.py:65-71 | Insertion preserves the ordering invariant: at each node, characters at the same key position are smaller on the left and larger on the right. It adds `w[i]` to the current level. |
| `TstIndex.InsertCollect` | book_search.py:61-75 | One insertion adds its entry at exactly one place of what `_collect_all` gathers from the whole tree and keeps everything else in order. |
| `TstIndex.InsertMatches` | book_search.py:61-75 | For a query that agrees with the word before position `i`: if the query is a prefix of the word, the subtree result gains the entry at one place; otherwise it is unchanged. |
| `TstIndex.InsertExact` | book_search.py:61-75 | Only the exact lookup of the inserted word changes, and it gains the entry at the end. |
| `TstIndex.InsertSpelled` | book_search.py:61-75 | Every string spelled by a node after `_insert` was spelled before, or is a non-empty prefix of the rest of the inserted word. |
| `TstIndex.InsertKeepsSpelledLogged` | book_search.py:58-75 | After an insertion, every string spelled by a node is still a prefix of some logged word, the new word included. |
| `TstIndex.InsertKeepsMeaning` | book_search.py:58-75 | After one insertion of a non-empty word, every non-empty query's corrected result still equals the log's prefix result as a multiset, and its exact lookup still equals the log's. |
| `TstIndex.SearchAsWrittenReportsSibling` | book_search.py:97-104 | After inserting "a" then "b", the source's search for "a" returns both entries, while the corrected search and prefix semantics give only the entry of "a". |
| `TstIndex.AsWrittenSplits` | book_search.py:77-82 | As a multiset, the source's search is the corrected search plus the matched node's `left` and `right` subtrees, since `_collect_all` visits those too (book_search.py:97-104). |
| `TstIndex.AsWrittenSuperset` | book_search.py:77-82 | On a valid tree the source's search never misses a prefix match. Its result contains the log's prefix result, and exceeds it by exactly the matched node's `left` and `right` subtrees. |
| `TstIndex.AsWrittenAbsent` | book_search.py:77-95 | On a valid tree, the source's search returns `[]` for a query that is a prefix of no inserted word: the walk only reaches nodes along inserted words. |
| `TstIndex.TernarySearchTree.constructor` | book_search.py:55-56 | A new tree has no root and an empty log. |
| `TstIndex.TernarySearchTree.Insert` | book_search.py:58-75 | An empty word yields IndexError with the state unchanged. Otherwise the root becomes `_insert` of the old root, the log gains the insertion, and the invariants are kept: ordering, terminal flags, prefix and exact agreement with the log, and every spelled string being a prefix of a logged word. |
| `TstIndex.TernarySearchTree.Search` | book_search.py:77-82 | Search is read-only. The empty query returns `[]`. For a non-empty query the result has the same multiset as the prefix result of the log. |
| `BookIndex.SameMatches` | book_search.py:31-104 | After the same insertions, the trie and the corrected TST search agree on every non-empty query as multisets. |
| `BookIndex.SameExactMatches` | book_search.py:22-75 | After the same insertions, the exact lookups of the two indexes agree for every non-empty word, order included. |
| `BookIndex.EmptyQueryDiffers` | book_search.py:31-86 | On the empty query the trie returns every stored entry and the TST returns nothing. |
| `BookIndex.InsertWords` | book_search.py:128-130 | Each word of a list goes, with the entry, into both indexes in order. Both logs grow by exactly those pairs and stay equal. |
| `BookIndex.BuildIndexes` | book_search.py:126-134 | The builder yields two fresh valid indexes. Both logs are the title words, then the author words, of each entry in catalog order. The trie and the corrected TST search agree on every non-empty query as multisets. |

## Left out

- `load_entries` (gzip file reading, JSON decoding, the bare `except`) is I/O and foreign library code. The builder takes the catalog as a sequence of records.
- The tkinter GUI is not modelled: layout, suggestions, event bindings, rounded drawing and the display cut at 1000 results.
- The timing and memory instrumentation in `perform_search` is left out: clocks, `tracemalloc` and floating-point averages.
- `sys.setrecursionlimit` is left out. Recursion depth and stack limits are not modelled.
- `str.lower()` and `str.split()` are Unicode library calls. A record carries its title and author words already split. `BookIndex.BuildIndexes` requires non-empty words, which `split` guarantees. A missing title or author, guarded by `entry.get(...)`, is an empty word list.
- The entry payload (a dict) is an opaque type parameter, since neither index inspects it.
- Trie nodes are positions in a sequence, not heap objects. The source's nodes are never shared, so no aliasing is lost. Dict iteration order is the creation order of the keys.
- The TST's in-place updates of node fields are modelled as a functional rebuild that returns the same resulting tree. The class replaces its `root` with it.
- Both `_collect_all` methods extend a shared `results` list. They are modelled as functions that return the sequence that list receives.
- `TstIndex.TernarySearchTree.Insert`: the IndexError raised on an empty word is returned as a `Status` value rather than propagated as an exception.
- `TrieIndex.MatchesUnder`: relates the trie's result to the log as a multiset, not as a sequence. The exact order is stated by `TrieIndex.Trie.Search`, pre-order with children in creation order; it differs from insertion order.
- `TstIndex.TernarySearchTree.Search`: returns the corrected search of the finding below. The source's behaviour is kept as `TstIndex.SearchAsWritten`.

## Findings

| source | as written | input that shows it | evidently intended | confidence | as-written member | corrected member |
|---|---|---|---|---|---|---|
| book_search.py:80-81 | `search` applies `_collect_all` to the matched node. That visits the node's `left` and `right` subtrees, which hold words that differ from the query in its last character. | Insert "a"→x, then "b"→y. `search("a")` returns [x, y], while the trie's `search("a")` returns [x]. | Prefix semantics, the same as the trie: the matched node's own entries, then its `eq` subtree. | not executed | `TstIndex.SearchAsWrittenReportsSibling` | `TstIndex.TernarySearchTree.Search` |
