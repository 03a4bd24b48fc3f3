/** Building the two indexes of the book search from the catalog
    (book_search.py, `create_gui`, lines 126-134) and how their answers relate. */
module BookIndex {
  import opened IndexSpec
  import TrieIndex
  import TstIndex

  /** A catalog entry with its title and author already lower-cased and split
      into words. A missing title or author has no words. */
  datatype Record<E> = Record(entry: E, titleWords: seq<Word>, authorWords: seq<Word>)

  /** Every word is non-empty, as `str.split` guarantees. */
  predicate NonEmptyWords(ws: seq<Word>)
  {
    forall k :: 0 <= k < |ws| ==> ws[k] != []
  }

  predicate WellTokenized<E>(records: seq<Record<E>>)
  {
    forall i :: 0 <= i < |records| ==>
      NonEmptyWords(records[i].titleWords) && NonEmptyWords(records[i].authorWords)
  }

  /** The insertions made for the words `ws` of one entry `e`. */
  function Pairs<E>(ws: seq<Word>, e: E): seq<(Word, E)>
  {
    seq(|ws|, k requires 0 <= k < |ws| => (ws[k], e))
  }

  /** The insertions made for a catalog, in order: per entry, its title words,
      then its author words. */
  function Postings<E>(records: seq<Record<E>>): seq<(Word, E)>
  {
    if records == [] then []
    else
      var r := records[|records| - 1];
      Postings(records[..|records| - 1]) + Pairs(r.titleWords, r.entry) + Pairs(r.authorWords, r.entry)
  }

  /** The trie and the corrected TST search agree on every non-empty query up
      to order, when they hold the same insertions: each returns every entry
      inserted under a word having the query as a prefix, duplicates kept. */
  lemma SameMatches<E>(trie: TrieIndex.Trie<E>, tst: TstIndex.TernarySearchTree<E>, q: Word)
    requires trie.Valid() && tst.Valid() && trie.log == tst.log && q != []
    ensures multiset(TrieIndex.Matches(trie.nodes, q)) == multiset(TstIndex.Matches(tst.root, q))
  {
    TrieIndex.MatchesUnder(trie.nodes, trie.paths, trie.parent, trie.log, q);
  }

  /** The exact lookups of the two indexes agree, order included. */
  lemma SameExactMatches<E>(trie: TrieIndex.Trie<E>, tst: TstIndex.TernarySearchTree<E>, q: Word)
    requires trie.Valid() && tst.Valid() && trie.log == tst.log && q != []
    ensures TrieIndex.ExactMatches(trie.nodes, q) == TstIndex.ExactAt(tst.root, q, 0)
  {
    TrieIndex.ExactMatchesExactly(trie.nodes, trie.paths, trie.parent, trie.log, q);
  }

  /** On the empty query the indexes differ: the trie returns every stored
      entry, the ternary search tree nothing. */
  lemma EmptyQueryDiffers<E>(trie: TrieIndex.Trie<E>, tst: TstIndex.TernarySearchTree<E>)
    requires trie.Valid() && tst.Valid() && trie.log == tst.log
    ensures multiset(TrieIndex.Matches(trie.nodes, [])) == multiset(AllEntries(trie.log))
    ensures TstIndex.Matches(tst.root, []) == []
  {
    TrieIndex.MatchesUnder(trie.nodes, trie.paths, trie.parent, trie.log, []);
  }

  /** The index-building loop: every title word and then every author word of
      each entry is inserted, with the entry, into both indexes. */
  method BuildIndexes<E>(records: seq<Record<E>>) returns (trie: TrieIndex.Trie<E>, tst: TstIndex.TernarySearchTree<E>)
    requires WellTokenized(records)
    ensures fresh(trie) && fresh(tst)
    ensures trie.Valid() && tst.Valid()
    ensures trie.log == Postings(records) && tst.log == Postings(records)
    ensures forall q :: q != [] ==>
      multiset(TrieIndex.Matches(trie.nodes, q)) == multiset(TstIndex.Matches(tst.root, q))
  {
    trie := new TrieIndex.Trie();
    tst := new TstIndex.TernarySearchTree();
    var i := 0;
    while i < |records|
      invariant 0 <= i <= |records|
      invariant fresh(trie) && fresh(tst)
      invariant trie.Valid() && tst.Valid()
      invariant trie.log == Postings(records[..i]) && tst.log == trie.log
    {
      var r := records[i];
      assert records[..i + 1][..i] == records[..i];
      InsertWords(trie, tst, r.titleWords, r.entry);
      InsertWords(trie, tst, r.authorWords, r.entry);
      i := i + 1;
    }
    assert records[..i] == records;
    forall q | q != []
      ensures multiset(TrieIndex.Matches(trie.nodes, q)) == multiset(TstIndex.Matches(tst.root, q))
    {
      SameMatches(trie, tst, q);
    }
  }

  /** One inner loop of the builder: each word of `ws`, with `e`, into both indexes. */
  method InsertWords<E>(trie: TrieIndex.Trie<E>, tst: TstIndex.TernarySearchTree<E>, ws: seq<Word>, e: E)
    requires trie.Valid() && tst.Valid() && trie.log == tst.log && NonEmptyWords(ws)
    modifies trie, tst
    ensures trie.Valid() && tst.Valid()
    ensures trie.log == old(trie.log) + Pairs(ws, e) && tst.log == trie.log
  {
    var j := 0;
    while j < |ws|
      invariant 0 <= j <= |ws|
      invariant trie.Valid() && tst.Valid()
      invariant trie.log == old(trie.log) + Pairs(ws[..j], e) && tst.log == trie.log
    {
      assert Pairs(ws[..j + 1], e) == Pairs(ws[..j], e) + [(ws[j], e)];
      trie.Insert(ws[j], e);
      var status := tst.Insert(ws[j], e);
      j := j + 1;
    }
    assert ws[..j] == ws;
  }
}
