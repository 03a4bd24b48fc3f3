/** The character trie index of the book search (book_search.py, classes
    TrieNode and Trie). Nodes live in an arena, a sequence in creation order;
    a reference to a node is its position there, and the root is node 0. */
module TrieIndex {
  import opened IndexSpec

  /** A trie node: its child edges as (character, node) pairs in the order
      they were first created (the iteration order of the source's dict), the
      terminal flag and the entries stored here. */
  datatype TrieNode<E> = TrieNode(children: seq<(char, nat)>, isEnd: bool, entries: seq<E>)

  /** The empty node a new edge leads to. */
  function EmptyNode<E>(): TrieNode<E>
  {
    TrieNode([], false, [])
  }

  /** The dict lookup `children[c]`: the node of the first edge labelled `c`,
      or None when `c not in children`. */
  function ChildOf(cs: seq<(char, nat)>, c: char): (r: Option<nat>)
    ensures r.Some? ==> exists k :: 0 <= k < |cs| && cs[k] == (c, r.value)
    ensures r.None? <==> forall k :: 0 <= k < |cs| ==> cs[k].0 != c
  {
    if cs == [] then None
    else if cs[0].0 == c then Some(cs[0].1)
    else ChildOf(cs[1..], c)
  }

  /** Adding an edge at the end of the dict changes only the lookup of a
      character that had no edge yet. */
  lemma {:induction false} ChildOfAppend(cs: seq<(char, nat)>, x: (char, nat), d: char)
    ensures ChildOf(cs + [x], d)
         == if ChildOf(cs, d).Some? then ChildOf(cs, d) else if x.0 == d then Some(x.1) else None
  {
    if cs != [] {
      assert (cs + [x])[1..] == cs[1..] + [x];
      ChildOfAppend(cs[1..], x, d);
    }
  }

  /** Every edge leads forward in the arena, to a node that exists. */
  ghost predicate Linked<E>(nodes: seq<TrieNode<E>>)
  {
    forall i, k :: 0 <= i < |nodes| && 0 <= k < |nodes[i].children| ==>
      i < nodes[i].children[k].1 < |nodes|
  }

  /** `_collect_all(node)`: the node's entries if it is terminal, then each
      child's collection, children in edge order (a pre-order walk). */
  function Collect<E>(nodes: seq<TrieNode<E>>, i: nat): seq<E>
    requires Linked(nodes) && i < |nodes|
    decreases |nodes| - i, 1
  {
    (if nodes[i].isEnd then nodes[i].entries else []) + CollectChildren(nodes, i, 0)
  }

  /** The collections of the children of node `i` from edge `k` on. */
  function CollectChildren<E>(nodes: seq<TrieNode<E>>, i: nat, k: nat): seq<E>
    requires Linked(nodes) && i < |nodes| && k <= |nodes[i].children|
    decreases |nodes| - i, 0, |nodes[i].children| - k
  {
    if k == |nodes[i].children| then []
    else Collect(nodes, nodes[i].children[k].1) + CollectChildren(nodes, i, k + 1)
  }

  /** The walk of `search` from node `i` along the characters of `q`: the node
      reached, or None when some character has no edge. */
  function Walk<E>(nodes: seq<TrieNode<E>>, i: nat, q: Word): (r: Option<nat>)
    requires Linked(nodes) && i < |nodes|
    ensures r.Some? ==> r.value < |nodes|
    decreases |q|
  {
    if q == [] then Some(i)
    else match ChildOf(nodes[i].children, q[0])
      case None => None
      case Some(j) => Walk(nodes, j, q[1..])
  }

  /** `search`: everything collected below the node the query leads to. */
  function Matches<E>(nodes: seq<TrieNode<E>>, q: Word): seq<E>
    requires Linked(nodes) && |nodes| > 0
  {
    match Walk(nodes, 0, q)
    case None => []
    case Some(n) => Collect(nodes, n)
  }

  /** An exact lookup, which the source does not offer: the entries of the
      node the walk reaches, if it is terminal. */
  ghost function ExactMatches<E>(nodes: seq<TrieNode<E>>, q: Word): seq<E>
    requires Linked(nodes) && |nodes| > 0
  {
    match Walk(nodes, 0, q)
    case None => []
    case Some(n) => if nodes[n].isEnd then nodes[n].entries else []
  }

  /** The trie after adding the edge `(c, |nodes|)` to node `cur` and the
      empty node it leads to. */
  function AddChild<E>(nodes: seq<TrieNode<E>>, cur: nat, c: char): seq<TrieNode<E>>
    requires cur < |nodes|
  {
    nodes[cur := nodes[cur].(children := nodes[cur].children + [(c, |nodes|)])] + [EmptyNode()]
  }

  /** The trie after marking node `cur` terminal and appending `e` to it. */
  function AddEntry<E>(nodes: seq<TrieNode<E>>, cur: nat, e: E): seq<TrieNode<E>>
    requires cur < |nodes|
  {
    nodes[cur := nodes[cur].(isEnd := true, entries := nodes[cur].entries + [e])]
  }

  /** Adding a child keeps every edge pointing forward to an existing node. */
  lemma AddChildLinked<E>(nodes: seq<TrieNode<E>>, cur: nat, c: char)
    requires Linked(nodes) && cur < |nodes|
    ensures Linked(AddChild(nodes, cur, c))
  {
    var n' := AddChild(nodes, cur, c);
    forall i, k | 0 <= i < |n'| && 0 <= k < |n'[i].children|
      ensures i < n'[i].children[k].1 < |n'|
    {
      if k < |nodes[i].children| {
        assert n'[i].children[k] == nodes[i].children[k];
      }
    }
  }

  /** The child found for a key lies after its parent, inside the arena. */
  lemma ChildLinked<E>(nodes: seq<TrieNode<E>>, cur: nat, c: char)
    requires Linked(nodes) && cur < |nodes| && ChildOf(nodes[cur].children, c).Some?
    ensures cur < ChildOf(nodes[cur].children, c).value < |nodes|
  {
    var m :| 0 <= m < |nodes[cur].children| && nodes[cur].children[m] == (c, ChildOf(nodes[cur].children, c).value);
  }

  /** The walk of `insert` from node `cur` along `w[k..]`, creating each
      missing edge: the resulting arena and the node reached. */
  function Descend<E>(nodes: seq<TrieNode<E>>, cur: nat, w: Word, k: nat): (r: (seq<TrieNode<E>>, nat))
    requires Linked(nodes) && cur < |nodes| && k <= |w|
    ensures Linked(r.0) && r.1 < |r.0| && |nodes| <= |r.0|
    decreases |w| - k
  {
    if k == |w| then (nodes, cur)
    else match ChildOf(nodes[cur].children, w[k])
      case Some(j) =>
        ChildLinked(nodes, cur, w[k]);
        Descend(nodes, j, w, k + 1)
      case None =>
        AddChildLinked(nodes, cur, w[k]);
        Descend(AddChild(nodes, cur, w[k]), |nodes|, w, k + 1)
  }

  // ---------------------------------------------------------------------------
  // The representation invariant, one clause per predicate. Each quantified
  // clause is triggered on its own per-index predicate only, so that the
  // clauses do not instantiate one another along the edges of the trie.

  /** Edge `k` of node `i`, labelled `c`, leads to a node that spells `paths[i] + [c]`. */
  ghost predicate EdgeSpells<E>(nodes: seq<TrieNode<E>>, paths: seq<Word>, i: nat, k: nat)
    requires i < |nodes| && i < |paths| && k < |nodes[i].children|
  {
    nodes[i].children[k].1 < |paths| && paths[nodes[i].children[k].1] == paths[i] + [nodes[i].children[k].0]
  }

  ghost predicate EdgesSpell<E>(nodes: seq<TrieNode<E>>, paths: seq<Word>)
    requires |paths| == |nodes|
  {
    forall i: nat, k: nat {:trigger EdgeSpells(nodes, paths, i, k)} ::
      i < |nodes| && k < |nodes[i].children| ==> EdgeSpells(nodes, paths, i, k)
  }

  /** No node has two edges with the same label (dict keys are unique). */
  ghost predicate DistinctKeys<E>(nodes: seq<TrieNode<E>>)
  {
    forall i, k, k' :: 0 <= i < |nodes| && 0 <= k < k' < |nodes[i].children| ==>
      nodes[i].children[k].0 != nodes[i].children[k'].0
  }

  /** Node `j` hangs off an edge of node `parent[j]` labelled with its last character. */
  ghost predicate ParentAt<E>(nodes: seq<TrieNode<E>>, paths: seq<Word>, parent: seq<nat>, j: nat)
    requires j < |nodes| && |paths| == |nodes| && |parent| == |nodes|
  {
    parent[j] < |nodes| && |paths[j]| > 0 && (paths[j][|paths[j]| - 1], j) in nodes[parent[j]].children
  }

  ghost predicate HasParent<E>(nodes: seq<TrieNode<E>>, paths: seq<Word>, parent: seq<nat>)
    requires |paths| == |nodes| && |parent| == |nodes|
  {
    forall j: nat {:trigger ParentAt(nodes, paths, parent, j)} ::
      0 < j < |nodes| ==> ParentAt(nodes, paths, parent, j)
  }

  /** Two different nodes spell different words. */
  ghost predicate Injective(paths: seq<Word>)
  {
    forall i, j :: 0 <= i < |paths| && 0 <= j < |paths| && paths[i] == paths[j] ==> i == j
  }

  /** Node `i` holds, in insertion order, exactly the entries inserted under
      the word it spells, and it is terminal exactly when it holds some. */
  ghost predicate StoredAt<E>(nodes: seq<TrieNode<E>>, paths: seq<Word>, log: seq<(Word, E)>, i: nat)
    requires i < |nodes| && i < |paths|
  {
    nodes[i].entries == Exactly(log, paths[i]) && nodes[i].isEnd == (nodes[i].entries != [])
  }

  ghost predicate Stored<E>(nodes: seq<TrieNode<E>>, paths: seq<Word>, log: seq<(Word, E)>)
    requires |paths| == |nodes|
  {
    forall i: nat {:trigger StoredAt(nodes, paths, log, i)} :: i < |nodes| ==> StoredAt(nodes, paths, log, i)
  }

  /** If insertion `k` lies strictly below node `i`, node `i` has an edge for
      the next character of its word. */
  ghost predicate CoversAt<E>(nodes: seq<TrieNode<E>>, paths: seq<Word>, log: seq<(Word, E)>, i: nat, k: nat)
    requires i < |nodes| && i < |paths| && k < |log|
  {
    paths[i] < log[k].0 ==> ChildOf(nodes[i].children, log[k].0[|paths[i]|]).Some?
  }

  ghost predicate Covered<E>(nodes: seq<TrieNode<E>>, paths: seq<Word>, log: seq<(Word, E)>)
    requires |paths| == |nodes|
  {
    forall i: nat, k: nat {:trigger CoversAt(nodes, paths, log, i, k)} ::
      i < |nodes| && k < |log| ==> CoversAt(nodes, paths, log, i, k)
  }

  /** The representation invariant of a trie built by the insertions `log`. */
  ghost predicate Inv<E>(nodes: seq<TrieNode<E>>, paths: seq<Word>, parent: seq<nat>, log: seq<(Word, E)>)
  {
    && |nodes| > 0 && |paths| == |nodes| && |parent| == |nodes| && paths[0] == []
    && Linked(nodes)
    && EdgesSpell(nodes, paths)
    && DistinctKeys(nodes)
    && HasParent(nodes, paths, parent)
    && Injective(paths)
    && Stored(nodes, paths, log)
    && Covered(nodes, paths, log)
  }

  /** Every proper prefix of `p` that some node spells has its edge towards `p`. */
  ghost predicate EdgesAlong<E>(nodes: seq<TrieNode<E>>, paths: seq<Word>, p: Word)
    requires |paths| == |nodes|
  {
    forall i :: 0 <= i < |nodes| && paths[i] < p ==> ChildOf(nodes[i].children, p[|paths[i]|]).Some?
  }

  // ---------------------------------------------------------------------------
  // Small facts about words.

  /** Extending a prefix by one character. */
  lemma PrefixStepIff(p: Word, c: char, w: Word)
    ensures p + [c] <= w <==> p < w && w[|p|] == c
  {
    if p + [c] <= w {
      assert w[..|p|] == (p + [c])[..|p|];
    }
    if p < w && w[|p|] == c {
      assert w[..|p| + 1] == w[..|p|] + [w[|p|]];
    }
  }

  /** A proper prefix of `p + [c]` is a prefix of `p`. */
  lemma ProperPrefixOfStep(a: Word, p: Word, c: char)
    ensures a < p + [c] <==> a <= p
  {
    if a < p + [c] {
      assert (p + [c])[..|a|] == p[..|a|];
    }
    if a <= p {
      assert (p + [c])[..|a|] == p[..|a|];
    }
  }

  // ---------------------------------------------------------------------------
  // What the invariant gives.

  /** Following the edge for `c` out of node `i` reaches a later node that
      spells `paths[i] + [c]`. */
  lemma ChildSpells<E>(nodes: seq<TrieNode<E>>, paths: seq<Word>, i: nat, c: char)
    requires |paths| == |nodes| && Linked(nodes) && EdgesSpell(nodes, paths) && i < |nodes|
    requires ChildOf(nodes[i].children, c).Some?
    ensures i < ChildOf(nodes[i].children, c).value < |nodes|
    ensures paths[ChildOf(nodes[i].children, c).value] == paths[i] + [c]
  {
    var j := ChildOf(nodes[i].children, c).value;
    var k :| 0 <= k < |nodes[i].children| && nodes[i].children[k] == (c, j);
    assert EdgeSpells(nodes, paths, i, k);
  }

  /** The walk from node `i` along `q` reaches the node that spells `paths[i] + q`. */
  lemma {:induction false} WalkSpells<E>(nodes: seq<TrieNode<E>>, paths: seq<Word>, i: nat, q: Word)
    requires |paths| == |nodes| && Linked(nodes) && EdgesSpell(nodes, paths) && i < |nodes|
    ensures Walk(nodes, i, q).Some? ==> paths[Walk(nodes, i, q).value] == paths[i] + q
    decreases |q|
  {
    if q != [] && ChildOf(nodes[i].children, q[0]).Some? {
      var j := ChildOf(nodes[i].children, q[0]).value;
      ChildSpells(nodes, paths, i, q[0]);
      WalkSpells(nodes, paths, j, q[1..]);
      assert paths[i] + [q[0]] + q[1..] == paths[i] + q;
    }
  }

  /** A node with no edge for `c` has no inserted word below `paths[cur] + [c]`. */
  lemma MissingEdgeMeansNew<E>(nodes: seq<TrieNode<E>>, paths: seq<Word>, parent: seq<nat>,
                               log: seq<(Word, E)>, cur: nat, c: char)
    requires Inv(nodes, paths, parent, log) && cur < |nodes|
    requires ChildOf(nodes[cur].children, c).None?
    ensures forall k :: 0 <= k < |log| ==> !(paths[cur] + [c] <= log[k].0)
  {
    forall k | 0 <= k < |log|
      ensures !(paths[cur] + [c] <= log[k].0)
    {
      assert CoversAt(nodes, paths, log, cur, k);
      PrefixStepIff(paths[cur], c, log[k].0);
    }
  }

  /** When the walk from node `i` along `q` falls off a missing edge, no
      inserted word has `paths[i] + q` as a prefix. */
  lemma {:induction false} WalkMisses<E>(nodes: seq<TrieNode<E>>, paths: seq<Word>, parent: seq<nat>,
                                         log: seq<(Word, E)>, i: nat, q: Word)
    requires Inv(nodes, paths, parent, log) && i < |nodes|
    requires Walk(nodes, i, q).None?
    ensures forall k :: 0 <= k < |log| ==> !(paths[i] + q <= log[k].0)
    decreases |q|
  {
    var c := q[0];
    assert paths[i] + q == paths[i] + [c] + q[1..];
    if ChildOf(nodes[i].children, c).None? {
      MissingEdgeMeansNew(nodes, paths, parent, log, i, c);
    } else {
      var j := ChildOf(nodes[i].children, c).value;
      ChildSpells(nodes, paths, i, c);
      WalkMisses(nodes, paths, parent, log, j, q[1..]);
    }
  }

  /** The labels of the edges of a node from edge `k` on. */
  ghost function KeysFrom(cs: seq<(char, nat)>, k: nat): set<char>
  {
    set j | k <= j < |cs| :: cs[j].0
  }

  /** The edges of a node cover every next character that an inserted word
      extending the node's word continues with. */
  lemma KeysCoverLog<E>(nodes: seq<TrieNode<E>>, paths: seq<Word>, parent: seq<nat>,
                        log: seq<(Word, E)>, i: nat)
    requires Inv(nodes, paths, parent, log) && i < |nodes|
    ensures forall k :: 0 <= k < |log| && paths[i] < log[k].0 ==>
      log[k].0[|paths[i]|] in KeysFrom(nodes[i].children, 0)
  {
    forall k | 0 <= k < |log| && paths[i] < log[k].0
      ensures log[k].0[|paths[i]|] in KeysFrom(nodes[i].children, 0)
    {
      assert CoversAt(nodes, paths, log, i, k);
      var c := log[k].0[|paths[i]|];
      var j := ChildOf(nodes[i].children, c).value;
      var m :| 0 <= m < |nodes[i].children| && nodes[i].children[m] == (c, j);
    }
  }

  /** Prefix semantics of the collection: as a multiset, what `_collect_all`
      gathers below node `i` is every entry inserted under a word that
      extends the word node `i` spells. */
  lemma {:induction false} CollectUnder<E>(nodes: seq<TrieNode<E>>, paths: seq<Word>, parent: seq<nat>,
                                           log: seq<(Word, E)>, i: nat)
    requires Inv(nodes, paths, parent, log) && i < |nodes|
    ensures multiset(Collect(nodes, i)) == multiset(Under(log, paths[i]))
    decreases |nodes| - i, 1
  {
    assert StoredAt(nodes, paths, log, i);
    CollectChildrenBelow(nodes, paths, parent, log, i, 0);
    KeysCoverLog(nodes, paths, parent, log, i);
    UnderSplits(log, paths[i], KeysFrom(nodes[i].children, 0));
  }

  /** The children from edge `k` on collect what lies below node `i` via
      their labels. */
  lemma {:induction false} CollectChildrenBelow<E>(nodes: seq<TrieNode<E>>, paths: seq<Word>, parent: seq<nat>,
                                                   log: seq<(Word, E)>, i: nat, k: nat)
    requires Inv(nodes, paths, parent, log) && i < |nodes| && k <= |nodes[i].children|
    ensures multiset(CollectChildren(nodes, i, k))
         == multiset(Below(log, paths[i], KeysFrom(nodes[i].children, k)))
    decreases |nodes| - i, 0, |nodes[i].children| - k
  {
    var cs := nodes[i].children;
    if k == |cs| {
      assert KeysFrom(cs, k) == {};
      BelowNone(log, paths[i]);
    } else {
      var c := cs[k].0;
      var j := cs[k].1;
      CollectUnder(nodes, paths, parent, log, j);
      CollectChildrenBelow(nodes, paths, parent, log, i, k + 1);
      assert KeysFrom(cs, k) == KeysFrom(cs, k + 1) + {c};
      assert c !in KeysFrom(cs, k + 1);
      assert EdgeSpells(nodes, paths, i, k);
      BelowAdd(log, paths[i], c, KeysFrom(cs, k + 1));
    }
  }

  /** Prefix semantics of `search`: as a multiset, the result for `q` is every
      entry inserted under a word having `q` as a prefix, duplicates kept;
      the empty query selects every entry. */
  lemma MatchesUnder<E>(nodes: seq<TrieNode<E>>, paths: seq<Word>, parent: seq<nat>,
                        log: seq<(Word, E)>, q: Word)
    requires Inv(nodes, paths, parent, log)
    ensures multiset(Matches(nodes, q)) == multiset(Under(log, q))
    ensures q == [] ==> multiset(Matches(nodes, q)) == multiset(AllEntries(log))
  {
    WalkSpells(nodes, paths, 0, q);
    assert [] + q == q;
    if Walk(nodes, 0, q).None? {
      WalkMisses(nodes, paths, parent, log, 0, q);
      UnderNothing(log, q);
    } else {
      CollectUnder(nodes, paths, parent, log, Walk(nodes, 0, q).value);
    }
    UnderEmptyIsAll(log);
  }

  /** Exact lookup: the node a word leads to holds exactly the entries
      inserted under that word, in insertion order. */
  lemma ExactMatchesExactly<E>(nodes: seq<TrieNode<E>>, paths: seq<Word>, parent: seq<nat>,
                               log: seq<(Word, E)>, q: Word)
    requires Inv(nodes, paths, parent, log)
    ensures ExactMatches(nodes, q) == Exactly(log, q)
  {
    WalkSpells(nodes, paths, 0, q);
    assert [] + q == q;
    if Walk(nodes, 0, q).None? {
      WalkMisses(nodes, paths, parent, log, 0, q);
      ExactlyNothing(log, q);
    } else {
      assert StoredAt(nodes, paths, log, Walk(nodes, 0, q).value);
    }
  }

  // ---------------------------------------------------------------------------
  // Adding a child keeps the invariant, clause by clause.

  /** The word of the new node is spelled by no existing node. */
  lemma NewWordIsNew<E>(nodes: seq<TrieNode<E>>, paths: seq<Word>, parent: seq<nat>,
                        log: seq<(Word, E)>, cur: nat, c: char)
    requires Inv(nodes, paths, parent, log) && cur < |nodes|
    requires ChildOf(nodes[cur].children, c).None?
    ensures forall i :: 0 <= i < |nodes| ==> paths[i] != paths[cur] + [c]
  {
    forall i | 0 <= i < |nodes|
      ensures paths[i] != paths[cur] + [c]
    {
      if i > 0 {
        assert ParentAt(nodes, paths, parent, i);
        var pi := parent[i];
        var d := paths[i][|paths[i]| - 1];
        var m :| 0 <= m < |nodes[pi].children| && nodes[pi].children[m] == (d, i);
        assert EdgeSpells(nodes, paths, pi, m);
        assert paths[i][..|paths[i]| - 1] == paths[pi];
        assert (paths[cur] + [c])[..|paths[cur]|] == paths[cur];
        assert paths[pi] == paths[cur] ==> pi == cur;
      }
    }
  }

  lemma AddChildShape<E>(nodes: seq<TrieNode<E>>, paths: seq<Word>, parent: seq<nat>,
                         log: seq<(Word, E)>, cur: nat, c: char)
    requires Inv(nodes, paths, parent, log) && cur < |nodes|
    requires ChildOf(nodes[cur].children, c).None?
    ensures var n' := AddChild(nodes, cur, c);
            var p' := paths + [paths[cur] + [c]];
            Linked(n') && EdgesSpell(n', p') && DistinctKeys(n')
  {
    var n' := AddChild(nodes, cur, c);
    var p' := paths + [paths[cur] + [c]];
    AddChildLinked(nodes, cur, c);
    forall i: nat, k: nat | i < |n'| && k < |n'[i].children|
      ensures EdgeSpells(n', p', i, k)
    {
      if k < |nodes[i].children| {
        assert n'[i].children[k] == nodes[i].children[k];
        assert EdgeSpells(nodes, paths, i, k);
      }
    }
    forall i, k, k' | 0 <= i < |n'| && 0 <= k < k' < |n'[i].children|
      ensures n'[i].children[k].0 != n'[i].children[k'].0
    {
      assert n'[i].children[k] == nodes[i].children[k];
    }
  }

  lemma AddChildParents<E>(nodes: seq<TrieNode<E>>, paths: seq<Word>, parent: seq<nat>,
                           log: seq<(Word, E)>, cur: nat, c: char)
    requires Inv(nodes, paths, parent, log) && cur < |nodes|
    requires ChildOf(nodes[cur].children, c).None?
    ensures var n' := AddChild(nodes, cur, c);
            var p' := paths + [paths[cur] + [c]];
            HasParent(n', p', parent + [cur]) && Injective(p')
  {
    var n' := AddChild(nodes, cur, c);
    var p' := paths + [paths[cur] + [c]];
    var pa' := parent + [cur];
    forall j: nat | 0 < j < |n'|
      ensures ParentAt(n', p', pa', j)
    {
      if j < |nodes| {
        assert ParentAt(nodes, paths, parent, j);
        var x := (paths[j][|paths[j]| - 1], j);
        var m :| 0 <= m < |nodes[parent[j]].children| && nodes[parent[j]].children[m] == x;
        assert n'[parent[j]].children[m] == x;
      } else {
        assert n'[cur].children[|nodes[cur].children|] == (c, j);
      }
    }
    NewWordIsNew(nodes, paths, parent, log, cur, c);
  }

  lemma AddChildStored<E>(nodes: seq<TrieNode<E>>, paths: seq<Word>, parent: seq<nat>,
                          log: seq<(Word, E)>, cur: nat, c: char)
    requires Inv(nodes, paths, parent, log) && cur < |nodes|
    requires ChildOf(nodes[cur].children, c).None?
    ensures var n' := AddChild(nodes, cur, c);
            var p' := paths + [paths[cur] + [c]];
            Stored(n', p', log) && Covered(n', p', log)
  {
    var n' := AddChild(nodes, cur, c);
    var p' := paths + [paths[cur] + [c]];
    MissingEdgeMeansNew(nodes, paths, parent, log, cur, c);
    ExactlyNothing(log, paths[cur] + [c]);
    forall i: nat | i < |n'|
      ensures StoredAt(n', p', log, i)
    {
      if i < |nodes| {
        assert StoredAt(nodes, paths, log, i);
      }
    }
    forall i: nat, k: nat | i < |n'| && k < |log|
      ensures CoversAt(n', p', log, i, k)
    {
      if i < |nodes| {
        assert CoversAt(nodes, paths, log, i, k);
        if paths[i] < log[k].0 {
          ChildOfAppend(nodes[i].children, (c, |nodes|), log[k].0[|paths[i]|]);
        }
      }
    }
  }

  /** Adding the edge `(c, |nodes|)` from node `cur` to a fresh node keeps the
      invariant, provided `cur` had no edge labelled `c`. */
  lemma AddChildKeepsInv<E>(nodes: seq<TrieNode<E>>, paths: seq<Word>, parent: seq<nat>,
                            log: seq<(Word, E)>, cur: nat, c: char)
    requires Inv(nodes, paths, parent, log) && cur < |nodes|
    requires ChildOf(nodes[cur].children, c).None?
    ensures Inv(AddChild(nodes, cur, c), paths + [paths[cur] + [c]], parent + [cur], log)
  {
    AddChildShape(nodes, paths, parent, log, cur, c);
    AddChildParents(nodes, paths, parent, log, cur, c);
    AddChildStored(nodes, paths, parent, log, cur, c);
  }

  /** The edges towards the insertion word survive adding its next edge. */
  lemma AddChildAlong<E>(nodes: seq<TrieNode<E>>, paths: seq<Word>, parent: seq<nat>,
                         log: seq<(Word, E)>, cur: nat, c: char)
    requires Inv(nodes, paths, parent, log) && cur < |nodes|
    requires ChildOf(nodes[cur].children, c).None?
    requires EdgesAlong(nodes, paths, paths[cur])
    ensures EdgesAlong(AddChild(nodes, cur, c), paths + [paths[cur] + [c]], paths[cur] + [c])
  {
    var n' := AddChild(nodes, cur, c);
    var p' := paths + [paths[cur] + [c]];
    var w := paths[cur] + [c];
    forall i | 0 <= i < |n'| && p'[i] < w
      ensures ChildOf(n'[i].children, w[|p'[i]|]).Some?
    {
      ProperPrefixOfStep(paths[i], paths[cur], c);
      if i == cur {
        ChildOfAppend(nodes[cur].children, (c, |nodes|), c);
      } else {
        assert paths[i] != paths[cur];
        assert w[|paths[i]|] == paths[cur][|paths[i]|];
      }
    }
  }

  /** The edges towards the insertion word survive following an existing edge. */
  lemma StepAlong<E>(nodes: seq<TrieNode<E>>, paths: seq<Word>, parent: seq<nat>,
                     log: seq<(Word, E)>, cur: nat, c: char)
    requires Inv(nodes, paths, parent, log) && cur < |nodes|
    requires ChildOf(nodes[cur].children, c).Some?
    requires EdgesAlong(nodes, paths, paths[cur])
    ensures EdgesAlong(nodes, paths, paths[cur] + [c])
  {
    var w := paths[cur] + [c];
    forall i | 0 <= i < |nodes| && paths[i] < w
      ensures ChildOf(nodes[i].children, w[|paths[i]|]).Some?
    {
      ProperPrefixOfStep(paths[i], paths[cur], c);
      if i != cur {
        assert paths[i] != paths[cur];
        assert w[|paths[i]|] == paths[cur][|paths[i]|];
      }
    }
  }

  // ---------------------------------------------------------------------------
  // Appending an entry keeps the invariant.

  lemma AddEntryShape<E>(nodes: seq<TrieNode<E>>, paths: seq<Word>, parent: seq<nat>,
                         log: seq<(Word, E)>, cur: nat, e: E)
    requires Inv(nodes, paths, parent, log) && cur < |nodes|
    ensures var n' := AddEntry(nodes, cur, e);
            Linked(n') && EdgesSpell(n', paths) && DistinctKeys(n') && HasParent(n', paths, parent)
  {
    var n' := AddEntry(nodes, cur, e);
    forall i | 0 <= i < |nodes|
      ensures n'[i].children == nodes[i].children
    {
    }
    forall i: nat, k: nat | i < |n'| && k < |n'[i].children|
      ensures EdgeSpells(n', paths, i, k)
    {
      assert EdgeSpells(nodes, paths, i, k);
    }
    forall j: nat | 0 < j < |n'|
      ensures ParentAt(n', paths, parent, j)
    {
      assert ParentAt(nodes, paths, parent, j);
    }
  }

  lemma AddEntryStored<E>(nodes: seq<TrieNode<E>>, paths: seq<Word>, parent: seq<nat>,
                          log: seq<(Word, E)>, cur: nat, w: Word, e: E)
    requires Inv(nodes, paths, parent, log) && cur < |nodes| && paths[cur] == w
    requires EdgesAlong(nodes, paths, w)
    ensures var n' := AddEntry(nodes, cur, e);
            Stored(n', paths, log + [(w, e)]) && Covered(n', paths, log + [(w, e)])
  {
    var n' := AddEntry(nodes, cur, e);
    var log' := log + [(w, e)];
    forall i: nat | i < |n'|
      ensures StoredAt(n', paths, log', i)
    {
      assert StoredAt(nodes, paths, log, i);
      UnderAppend(log, w, e, paths[i]);
    }
    forall i: nat, k: nat | i < |n'| && k < |log'|
      ensures CoversAt(n', paths, log', i, k)
    {
      if k < |log| {
        assert log'[k] == log[k];
        assert CoversAt(nodes, paths, log, i, k);
      }
    }
  }

  /** Appending `e` to the node that spells `w` records the insertion of
      `(w, e)`, provided every proper prefix of `w` already has its edge. */
  lemma AddEntryKeepsInv<E>(nodes: seq<TrieNode<E>>, paths: seq<Word>, parent: seq<nat>,
                            log: seq<(Word, E)>, cur: nat, w: Word, e: E)
    requires Inv(nodes, paths, parent, log) && cur < |nodes| && paths[cur] == w
    requires EdgesAlong(nodes, paths, w)
    ensures Inv(AddEntry(nodes, cur, e), paths, parent, log + [(w, e)])
  {
    AddEntryShape(nodes, paths, parent, log, cur, e);
    AddEntryStored(nodes, paths, parent, log, cur, w, e);
  }

  // ---------------------------------------------------------------------------
  // The loop of `insert`, one step at a time.

  /** The state of `insert` after consuming `word[..k]` from the arena `n0`
      with words `p0`: the invariant holds, `cur` spells `word[..k]`, the
      nodes added so far lie along `word`, and what is left of the walk ends
      where the whole walk from the root would. */
  ghost predicate Descending<E>(nodes: seq<TrieNode<E>>, paths: seq<Word>, parent: seq<nat>, log: seq<(Word, E)>,
                                n0: seq<TrieNode<E>>, p0: seq<Word>, word: Word, cur: nat, k: nat)
  {
    && Inv(nodes, paths, parent, log)
    && k <= |word| && cur < |nodes| && paths[cur] == word[..k]
    && EdgesAlong(nodes, paths, word[..k])
    && Linked(n0) && |n0| > 0 && |p0| == |n0| && |n0| <= |nodes| && paths[..|n0|] == p0
    && (forall j :: |n0| <= j < |nodes| ==> paths[j] <= word)
    && (word in Words(log) ==> |nodes| == |n0|)
    && Descend(n0, 0, word, 0) == Descend(nodes, cur, word, k)
  }

  /** A step of `insert` that creates the missing edge for `word[k]`. */
  lemma AddChildDescends<E>(nodes: seq<TrieNode<E>>, paths: seq<Word>, parent: seq<nat>, log: seq<(Word, E)>,
                            n0: seq<TrieNode<E>>, p0: seq<Word>, word: Word, cur: nat, k: nat)
    requires Descending(nodes, paths, parent, log, n0, p0, word, cur, k) && k < |word|
    requires ChildOf(nodes[cur].children, word[k]).None?
    ensures Descending(AddChild(nodes, cur, word[k]), paths + [paths[cur] + [word[k]]], parent + [cur], log,
                       n0, p0, word, |nodes|, k + 1)
  {
    var ch := word[k];
    assert word[..k + 1] == paths[cur] + [ch];
    MissingEdgeMeansNew(nodes, paths, parent, log, cur, ch);
    assert word !in Words(log);
    AddChildKeepsInv(nodes, paths, parent, log, cur, ch);
    AddChildAlong(nodes, paths, parent, log, cur, ch);
    var p' := paths + [paths[cur] + [ch]];
    assert p'[..|n0|] == paths[..|n0|];
  }

  /** A step of `insert` that follows the existing edge for `word[k]`. */
  lemma FollowDescends<E>(nodes: seq<TrieNode<E>>, paths: seq<Word>, parent: seq<nat>, log: seq<(Word, E)>,
                          n0: seq<TrieNode<E>>, p0: seq<Word>, word: Word, cur: nat, k: nat)
    requires Descending(nodes, paths, parent, log, n0, p0, word, cur, k) && k < |word|
    requires ChildOf(nodes[cur].children, word[k]).Some?
    ensures Descending(nodes, paths, parent, log, n0, p0, word, ChildOf(nodes[cur].children, word[k]).value, k + 1)
  {
    var ch := word[k];
    assert word[..k + 1] == paths[cur] + [ch];
    ChildSpells(nodes, paths, cur, ch);
    StepAlong(nodes, paths, parent, log, cur, ch);
  }

  /** When the loop of `insert` has consumed `word`, appending the entry at
      the reached node records the insertion and gives the same arena as
      `Descend` from the original root followed by the append. */
  lemma InsertDone<E>(nodes: seq<TrieNode<E>>, paths: seq<Word>, parent: seq<nat>, log: seq<(Word, E)>,
                      n0: seq<TrieNode<E>>, p0: seq<Word>, word: Word, cur: nat, e: E)
    requires Descending(nodes, paths, parent, log, n0, p0, word, cur, |word|)
    ensures Inv(AddEntry(nodes, cur, e), paths, parent, log + [(word, e)])
    ensures |nodes| >= |n0| && paths[..|n0|] == p0
    ensures forall j :: |n0| <= j < |nodes| ==> paths[j] <= word
    ensures word in Words(log) ==> |nodes| == |n0|
    ensures word == [] ==> AddEntry(nodes, cur, e) == AddEntry(n0, 0, e)
    ensures AddEntry(nodes, cur, e) == AddEntry(Descend(n0, 0, word, 0).0, Descend(n0, 0, word, 0).1, e)
  {
    assert word[..|word|] == word;
    AddEntryKeepsInv(nodes, paths, parent, log, cur, word, e);
  }

  /** The trie object. `paths`, `parent` and `log` are proof-only: the word
      each node spells, the node each node hangs off, and the insertions so far. */
  class Trie<E> {
    var nodes: seq<TrieNode<E>>
    ghost var paths: seq<Word>
    ghost var parent: seq<nat>
    ghost var log: seq<(Word, E)>

    ghost predicate Valid()
      reads this
    {
      Inv(nodes, paths, parent, log)
    }

    /** A trie with only its (empty, non-terminal) root. */
    constructor ()
      ensures Valid() && nodes == [EmptyNode()] && log == []
    {
      nodes := [EmptyNode()];
      paths := [[]];
      parent := [0];
      log := [];
      new;
      assert StoredAt(nodes, paths, log, 0);
    }

    /** `insert`: walk from the root, creating each missing edge, then mark
        the last node terminal and append the entry. Nodes are only added,
        and only along `word`; a word inserted before creates no node. */
    method Insert(word: Word, entry: E)
      requires Valid()
      modifies this
      ensures Valid()
      ensures log == old(log) + [(word, entry)]
      ensures |nodes| >= old(|nodes|) && paths[..old(|nodes|)] == old(paths)
      ensures forall j :: old(|nodes|) <= j < |nodes| ==> paths[j] <= word
      ensures word in Words(old(log)) ==> |nodes| == old(|nodes|)
      ensures word == [] ==> nodes == AddEntry(old(nodes), 0, entry)
      ensures nodes == AddEntry(Descend(old(nodes), 0, word, 0).0, Descend(old(nodes), 0, word, 0).1, entry)
    {
      var ns := nodes;
      ghost var ps, pa, l0 := paths, parent, log;
      var cur: nat := 0;
      var k := 0;
      assert ps[..|ns|] == ps;
      while k < |word|
        invariant k <= |word|
        invariant Descending(ns, ps, pa, l0, old(nodes), old(paths), word, cur, k)
      {
        var ch := word[k];
        var next := ChildOf(ns[cur].children, ch);
        if next.None? {
          AddChildDescends(ns, ps, pa, l0, old(nodes), old(paths), word, cur, k);
          var j := |ns|;
          ns := AddChild(ns, cur, ch);
          ps := ps + [ps[cur] + [ch]];
          pa := pa + [cur];
          cur := j;
        } else {
          FollowDescends(ns, ps, pa, l0, old(nodes), old(paths), word, cur, k);
          cur := next.value;
        }
        k := k + 1;
      }
      InsertDone(ns, ps, pa, l0, old(nodes), old(paths), word, cur, entry);
      nodes, paths, parent, log := AddEntry(ns, cur, entry), ps, pa, l0 + [(word, entry)];
    }

    /** `search`: follow the query's characters, returning [] at the first
        missing edge; otherwise collect everything below the node reached.
        It only reads the trie. */
    method Search(query: Word) returns (results: seq<E>)
      requires Valid()
      ensures results == Matches(nodes, query)
      ensures multiset(results) == multiset(Under(log, query))
    {
      var node: nat := 0;
      var k := 0;
      while k < |query|
        invariant 0 <= k <= |query| && node < |nodes|
        invariant Walk(nodes, 0, query) == Walk(nodes, node, query[k..])
      {
        var next := ChildOf(nodes[node].children, query[k]);
        assert query[k..][1..] == query[k + 1..];
        if next.None? {
          MatchesUnder(nodes, paths, parent, log, query);
          return [];
        }
        node := next.value;
        k := k + 1;
      }
      results := Collect(nodes, node);
      MatchesUnder(nodes, paths, parent, log, query);
    }
  }
}
