/** The ternary search tree index of the book search (book_search.py,
    classes TSTNode and TernarySearchTree). */
module TstIndex {
  import opened IndexSpec

  /** A TST node: its character, the `left` (smaller character, same key
      position), `eq` (next key position) and `right` (larger character, same
      key position) children, the terminal flag and the entries stored here.
      `Nil` stands for an absent child (Python's None). */
  datatype Tst<E> =
    | Nil
    | Node(c: char, left: Tst<E>, eq: Tst<E>, right: Tst<E>, isEnd: bool, entries: seq<E>)

  /** `_insert`: insert `e` under `w` starting at key position `i`, creating the
      node for `w[i]` when the slot is empty, and return the subtree to be
      stored back into the parent's slot. */
  function InsertAt<E>(t: Tst<E>, w: Word, i: nat, e: E): (r: Tst<E>)
    requires i < |w|
    ensures r.Node?
    ensures t.Node? ==> r.c == t.c
    ensures t.Nil? ==> r.c == w[i]
    decreases |w| - i, t
  {
    var ch := w[i];
    var n := if t.Nil? then Node(ch, Nil, Nil, Nil, false, []) else t;
    if ch < n.c then n.(left := InsertAt(n.left, w, i, e))
    else if ch > n.c then n.(right := InsertAt(n.right, w, i, e))
    else if i + 1 < |w| then n.(eq := InsertAt(n.eq, w, i + 1, e))
    else n.(isEnd := true, entries := n.entries + [e])
  }

  /** `_traverse_to_node`: the node matched by the last character of `w`, or
      `Nil` (None) when `w` is exhausted or the walk falls off a missing child. */
  function TraverseToNode<E>(t: Tst<E>, w: Word, i: nat): (r: Tst<E>)
    ensures r.Node? ==> i < |w| && r.c == w[|w| - 1]
    decreases |w| - i, t
  {
    if t.Nil? || i >= |w| then Nil
    else if w[i] < t.c then TraverseToNode(t.left, w, i)
    else if w[i] > t.c then TraverseToNode(t.right, w, i)
    else if i + 1 == |w| then t
    else TraverseToNode(t.eq, w, i + 1)
  }

  /** `_collect_all`: left subtree, then this node's entries if it is terminal,
      then the eq subtree, then the right subtree. */
  function CollectAll<E>(t: Tst<E>): seq<E>
  {
    match t
    case Nil => []
    case Node(_, l, m, r, isEnd, es) =>
      CollectAll(l) + (if isEnd then es else []) + CollectAll(m) + CollectAll(r)
  }

  /** `search` as the source writes it: `_collect_all` applied to the matched
      node, which also visits that node's `left` and `right` subtrees, i.e. the
      words that differ from the query in its last character. */
  function SearchAsWritten<E>(t: Tst<E>, q: Word): seq<E>
  {
    CollectAll(TraverseToNode(t, q, 0))
  }

  /** What lies at and below a matched node along the key: its own entries if
      it is terminal, then everything in its eq subtree. */
  function SubtreeEntries<E>(n: Tst<E>): seq<E>
  {
    if n.Nil? then [] else (if n.isEnd then n.entries else []) + CollectAll(n.eq)
  }

  /** `search` with the prefix semantics the trie has: the matched node's own
      entries and its eq subtree, without its left and right siblings. */
  function Matches<E>(t: Tst<E>, q: Word): seq<E>
  {
    SubtreeEntries(TraverseToNode(t, q, 0))
  }

  /** An exact lookup, which the source does not offer: the entries of the
      node the walk reaches, if it is terminal. */
  ghost function ExactAt<E>(t: Tst<E>, q: Word, i: nat): seq<E>
  {
    var n := TraverseToNode(t, q, i);
    if n.Node? && n.isEnd then n.entries else []
  }

  /** Terminal nodes are exactly the nodes that hold entries. */
  ghost predicate EndsConsistent<E>(t: Tst<E>)
  {
    match t
    case Nil => true
    case Node(_, l, m, r, isEnd, es) =>
      isEnd == (es != []) && EndsConsistent(l) && EndsConsistent(m) && EndsConsistent(r)
  }

  /** The characters of the nodes that share a key position with the root of
      `t`: those reached through `left` and `right` links only. */
  ghost function Level<E>(t: Tst<E>): set<char>
  {
    match t
    case Nil => {}
    case Node(c, l, _, r, _, _) => {c} + Level(l) + Level(r)
  }

  /** The ordering invariant: at every node, the characters at the same key
      position are smaller to the left and larger to the right. */
  ghost predicate Ordered<E>(t: Tst<E>)
  {
    match t
    case Nil => true
    case Node(c, l, m, r, _, _) =>
      && (forall x :: x in Level(l) ==> x < c)
      && (forall x :: x in Level(r) ==> c < x)
      && Ordered(l) && Ordered(m) && Ordered(r)
  }

  /** The strings spelled by the nodes of `t`: the characters of the nodes
      left through `eq` on the way down, followed by the node's own character. */
  ghost function Spelled<E>(t: Tst<E>): set<Word>
  {
    match t
    case Nil => {}
    case Node(c, l, m, r, _, _) =>
      Spelled(l) + Spelled(r) + {[c]} + (set s | s in Spelled(m) :: [c] + s)
  }

  /** Insertion keeps terminal nodes and non-empty entry lists in step. */
  lemma {:induction false} InsertKeepsEnds<E>(t: Tst<E>, w: Word, i: nat, e: E)
    requires i < |w| && EndsConsistent(t)
    ensures EndsConsistent(InsertAt(t, w, i, e))
    decreases |w| - i, t
  {
    var ch := w[i];
    var n := if t.Nil? then Node(ch, Nil, Nil, Nil, false, []) else t;
    if ch < n.c {
      InsertKeepsEnds(n.left, w, i, e);
    } else if ch > n.c {
      InsertKeepsEnds(n.right, w, i, e);
    } else if i + 1 < |w| {
      InsertKeepsEnds(n.eq, w, i + 1, e);
    }
  }

  /** Insertion adds the character `w[i]` to the current level and keeps the
      ordering invariant. */
  lemma {:induction false} InsertKeepsOrdered<E>(t: Tst<E>, w: Word, i: nat, e: E)
    requires i < |w| && Ordered(t)
    ensures Ordered(InsertAt(t, w, i, e))
    ensures Level(InsertAt(t, w, i, e)) == Level(t) + {w[i]}
    decreases |w| - i, t
  {
    var ch := w[i];
    var n := if t.Nil? then Node(ch, Nil, Nil, Nil, false, []) else t;
    if ch < n.c {
      InsertKeepsOrdered(n.left, w, i, e);
    } else if ch > n.c {
      InsertKeepsOrdered(n.right, w, i, e);
    } else if i + 1 < |w| {
      InsertKeepsOrdered(n.eq, w, i + 1, e);
    }
  }

  /** `s'` is `s` with `e` inserted at one position, everything else kept in order. */
  ghost predicate OneMore<E>(s: seq<E>, s': seq<E>, e: E)
  {
    exists k :: 0 <= k <= |s| && s' == s[..k] + [e] + s[k..]
  }

  /** Inserting one element adds it once to the multiset. */
  lemma OneMoreMultiset<E>(s: seq<E>, s': seq<E>, e: E)
    requires OneMore(s, s', e)
    ensures multiset(s') == multiset(s) + multiset{e}
  {
    var k :| 0 <= k <= |s| && s' == s[..k] + [e] + s[k..];
    assert s == s[..k] + s[k..];
  }

  /** An insertion into a prefix part is an insertion into the whole. */
  lemma OneMoreAppend<E>(s: seq<E>, s': seq<E>, b: seq<E>, e: E)
    requires OneMore(s, s', e)
    ensures OneMore(s + b, s' + b, e)
  {
    var k :| 0 <= k <= |s| && s' == s[..k] + [e] + s[k..];
    assert (s + b)[..k] == s[..k];
    assert (s + b)[k..] == s[k..] + b;
    assert s' + b == (s + b)[..k] + [e] + (s + b)[k..];
  }

  /** An insertion into a suffix part is an insertion into the whole. */
  lemma OneMorePrepend<E>(a: seq<E>, s: seq<E>, s': seq<E>, e: E)
    requires OneMore(s, s', e)
    ensures OneMore(a + s, a + s', e)
  {
    var k :| 0 <= k <= |s| && s' == s[..k] + [e] + s[k..];
    assert (a + s)[..|a| + k] == a + s[..k];
    assert (a + s)[|a| + k..] == s[k..];
    assert a + s' == (a + s)[..|a| + k] + [e] + (a + s)[|a| + k..];
  }

  /** Inserting into an empty slot builds a chain of fresh nodes that holds
      `e` alone. */
  lemma {:induction false} InsertNilCollect<E>(w: Word, i: nat, e: E)
    requires i < |w|
    ensures CollectAll(InsertAt(Nil, w, i, e)) == [e]
    ensures EndsConsistent(InsertAt(Nil, w, i, e))
    decreases |w| - i
  {
    if i + 1 < |w| {
      InsertNilCollect(w, i + 1, e);
    }
  }

  /** Growing one part of a node grows what the node collects in the same way. */
  lemma GrowLeft<E>(c: char, l: Tst<E>, l': Tst<E>, m: Tst<E>, r: Tst<E>, isEnd: bool, es: seq<E>, e: E)
    requires OneMore(CollectAll(l), CollectAll(l'), e)
    ensures OneMore(CollectAll(Node(c, l, m, r, isEnd, es)), CollectAll(Node(c, l', m, r, isEnd, es)), e)
  {
    var own := if isEnd then es else [];
    OneMoreAppend(CollectAll(l), CollectAll(l'), own, e);
    OneMoreAppend(CollectAll(l) + own, CollectAll(l') + own, CollectAll(m), e);
    OneMoreAppend(CollectAll(l) + own + CollectAll(m), CollectAll(l') + own + CollectAll(m), CollectAll(r), e);
  }

  lemma GrowEq<E>(c: char, l: Tst<E>, m: Tst<E>, m': Tst<E>, r: Tst<E>, isEnd: bool, es: seq<E>, e: E)
    requires OneMore(CollectAll(m), CollectAll(m'), e)
    ensures OneMore(CollectAll(Node(c, l, m, r, isEnd, es)), CollectAll(Node(c, l, m', r, isEnd, es)), e)
  {
    var before := CollectAll(l) + (if isEnd then es else []);
    OneMorePrepend(before, CollectAll(m), CollectAll(m'), e);
    OneMoreAppend(before + CollectAll(m), before + CollectAll(m'), CollectAll(r), e);
  }

  lemma GrowRight<E>(c: char, l: Tst<E>, m: Tst<E>, r: Tst<E>, r': Tst<E>, isEnd: bool, es: seq<E>, e: E)
    requires OneMore(CollectAll(r), CollectAll(r'), e)
    ensures OneMore(CollectAll(Node(c, l, m, r, isEnd, es)), CollectAll(Node(c, l, m, r', isEnd, es)), e)
  {
    var before := CollectAll(l) + (if isEnd then es else []) + CollectAll(m);
    OneMorePrepend(before, CollectAll(r), CollectAll(r'), e);
  }

  /** Appending to the entries of a node whose terminal flag matches them. */
  lemma GrowOwn<E>(c: char, l: Tst<E>, m: Tst<E>, r: Tst<E>, isEnd: bool, es: seq<E>, e: E)
    requires isEnd == (es != [])
    ensures OneMore(CollectAll(Node(c, l, m, r, isEnd, es)), CollectAll(Node(c, l, m, r, true, es + [e])), e)
  {
    assert OneMore(es, es + [e], e) by {
      assert es + [e] == es[..|es|] + [e] + es[|es|..];
    }
    OneMorePrepend(CollectAll(l), es, es + [e], e);
    OneMoreAppend(CollectAll(l) + es, CollectAll(l) + (es + [e]), CollectAll(m), e);
    OneMoreAppend(CollectAll(l) + es + CollectAll(m), CollectAll(l) + (es + [e]) + CollectAll(m), CollectAll(r), e);
  }

  /** Insertion adds `e` at exactly one place of what the tree collects and
      keeps everything else in its order. */
  lemma {:induction false} InsertCollect<E>(t: Tst<E>, w: Word, i: nat, e: E)
    requires i < |w| && EndsConsistent(t)
    ensures OneMore(CollectAll(t), CollectAll(InsertAt(t, w, i, e)), e)
    decreases |w| - i, t
  {
    match t
    case Nil =>
      InsertNilCollect(w, i, e);
      assert CollectAll(InsertAt(t, w, i, e)) == CollectAll(t)[..0] + [e] + CollectAll(t)[0..];
    case Node(c, l, m, rt, isEnd, es) =>
      if w[i] < c {
        InsertCollect(l, w, i, e);
        GrowLeft(c, l, InsertAt(l, w, i, e), m, rt, isEnd, es, e);
      } else if w[i] > c {
        InsertCollect(rt, w, i, e);
        GrowRight(c, l, m, rt, InsertAt(rt, w, i, e), isEnd, es, e);
      } else if i + 1 < |w| {
        InsertCollect(m, w, i + 1, e);
        GrowEq(c, l, m, InsertAt(m, w, i + 1, e), rt, isEnd, es, e);
      } else {
        GrowOwn(c, l, m, rt, isEnd, es, e);
      }
  }

  /** A prefix agrees with the word it is a prefix of at each of its positions. */
  lemma PrefixAgrees(q: Word, w: Word, i: nat)
    requires i < |q|
    ensures q <= w ==> i < |w| && q[i] == w[i]
  {
  }

  /** Two key prefixes that agree up to `i` and at `i` agree up to `i + 1`. */
  lemma PrefixStep(q: Word, w: Word, i: nat)
    requires i < |q| && i < |w| && q[..i] == w[..i] && q[i] == w[i]
    ensures q[..i + 1] == w[..i + 1]
  {
    assert q[..i + 1] == q[..i] + [q[i]];
    assert w[..i + 1] == w[..i] + [w[i]];
  }

  /** Prefix semantics of one insertion into an empty slot. */
  lemma {:induction false} InsertNilMatches<E>(w: Word, i: nat, e: E, q: Word)
    requires i < |w| && i < |q| && q[..i] == w[..i]
    ensures SubtreeEntries(TraverseToNode(InsertAt(Nil, w, i, e), q, i)) == (if q <= w then [e] else [])
    decreases |w| - i
  {
    PrefixAgrees(q, w, i);
    if q[i] == w[i] {
      PrefixStep(q, w, i);
      if i + 1 == |q| {
        assert q == q[..i + 1];
        if i + 1 < |w| {
          InsertNilCollect(w, i + 1, e);
        }
      } else if i + 1 < |w| {
        InsertNilMatches(w, i + 1, e, q);
      } else {
        assert !(q <= w);
      }
    }
  }

  /** How one insertion of (`w`, `e`) should change the subtree result for
      `q` from key position `i` on: `e` is added at one place when `q` is a
      prefix of `w`, and nothing changes otherwise. */
  ghost predicate MatchGrowth<E>(t: Tst<E>, t': Tst<E>, w: Word, e: E, q: Word, i: nat)
  {
    && (q <= w ==> OneMore(SubtreeEntries(TraverseToNode(t, q, i)), SubtreeEntries(TraverseToNode(t', q, i)), e))
    && (!(q <= w) ==> SubtreeEntries(TraverseToNode(t', q, i)) == SubtreeEntries(TraverseToNode(t, q, i)))
  }

  /** Insertion went into the left subtree (`w[i] < c`). */
  lemma MatchGrowthLeft<E>(c: char, l: Tst<E>, l': Tst<E>, m: Tst<E>, r: Tst<E>, isEnd: bool, es: seq<E>,
                           w: Word, e: E, q: Word, i: nat)
    requires i < |w| && i < |q| && q[..i] == w[..i] && w[i] < c
    requires q[i] < c ==> MatchGrowth(l, l', w, e, q, i)
    ensures MatchGrowth(Node(c, l, m, r, isEnd, es), Node(c, l', m, r, isEnd, es), w, e, q, i)
  {
    PrefixAgrees(q, w, i);
  }

  /** Insertion went into the right subtree (`w[i] > c`). */
  lemma MatchGrowthRight<E>(c: char, l: Tst<E>, m: Tst<E>, r: Tst<E>, r': Tst<E>, isEnd: bool, es: seq<E>,
                            w: Word, e: E, q: Word, i: nat)
    requires i < |w| && i < |q| && q[..i] == w[..i] && w[i] > c
    requires q[i] > c ==> MatchGrowth(r, r', w, e, q, i)
    ensures MatchGrowth(Node(c, l, m, r, isEnd, es), Node(c, l, m, r', isEnd, es), w, e, q, i)
  {
    PrefixAgrees(q, w, i);
  }

  /** Insertion went on into the eq subtree (`w[i] == c`, more of `w` left). */
  lemma MatchGrowthEq<E>(c: char, l: Tst<E>, m: Tst<E>, m': Tst<E>, r: Tst<E>, isEnd: bool, es: seq<E>,
                         w: Word, e: E, q: Word, i: nat)
    requires i + 1 < |w| && i < |q| && q[..i] == w[..i] && w[i] == c
    requires q[i] == c && i + 1 < |q| ==> MatchGrowth(m, m', w, e, q, i + 1)
    requires q[i] == c && i + 1 == |q| ==> OneMore(CollectAll(m), CollectAll(m'), e)
    ensures MatchGrowth(Node(c, l, m, r, isEnd, es), Node(c, l, m', r, isEnd, es), w, e, q, i)
  {
    PrefixAgrees(q, w, i);
    if q[i] == c {
      PrefixStep(q, w, i);
      if i + 1 == |q| {
        assert q == q[..i + 1];
        OneMorePrepend(if isEnd then es else [], CollectAll(m), CollectAll(m'), e);
      }
    }
  }

  /** Insertion ended at this node (`w[i] == c`, `w` exhausted). */
  lemma MatchGrowthHere<E>(c: char, l: Tst<E>, m: Tst<E>, r: Tst<E>, isEnd: bool, es: seq<E>,
                           w: Word, e: E, q: Word, i: nat)
    requires i + 1 == |w| && i < |q| && q[..i] == w[..i] && w[i] == c && isEnd == (es != [])
    ensures MatchGrowth(Node(c, l, m, r, isEnd, es), Node(c, l, m, r, true, es + [e]), w, e, q, i)
  {
    PrefixAgrees(q, w, i);
    if q[i] == c {
      PrefixStep(q, w, i);
      if i + 1 == |q| {
        assert q == q[..i + 1] && w == w[..i + 1];
        assert OneMore(es, es + [e], e) by {
          assert es + [e] == es[..|es|] + [e] + es[|es|..];
        }
        OneMoreAppend(es, es + [e], CollectAll(m), e);
      } else {
        assert !(q <= w);
      }
    }
  }

  /** Prefix semantics of one insertion: for a query that agrees with `w` on
      the positions before `i`, the search result gains `e` at one place when
      the query is a prefix of `w`, and is unchanged otherwise. */
  lemma {:induction false} InsertMatches<E>(t: Tst<E>, w: Word, i: nat, e: E, q: Word)
    requires i < |w| && i < |q| && q[..i] == w[..i] && EndsConsistent(t)
    ensures q <= w ==> OneMore(SubtreeEntries(TraverseToNode(t, q, i)), SubtreeEntries(TraverseToNode(InsertAt(t, w, i, e), q, i)), e)
    ensures !(q <= w) ==> SubtreeEntries(TraverseToNode(InsertAt(t, w, i, e), q, i)) == SubtreeEntries(TraverseToNode(t, q, i))
    decreases |w| - i, t
  {
    match t
    case Nil =>
      InsertNilMatches(w, i, e, q);
      assert [e] == [][..0] + [e] + [][0..];
    case Node(c, l, m, rt, isEnd, es) =>
      if w[i] < c {
        if q[i] < c {
          InsertMatches(l, w, i, e, q);
        }
        MatchGrowthLeft(c, l, InsertAt(l, w, i, e), m, rt, isEnd, es, w, e, q, i);
        assert InsertAt(t, w, i, e) == Node(c, InsertAt(l, w, i, e), m, rt, isEnd, es);
      } else if w[i] > c {
        if q[i] > c {
          InsertMatches(rt, w, i, e, q);
        }
        MatchGrowthRight(c, l, m, rt, InsertAt(rt, w, i, e), isEnd, es, w, e, q, i);
        assert InsertAt(t, w, i, e) == Node(c, l, m, InsertAt(rt, w, i, e), isEnd, es);
      } else if i + 1 < |w| {
        var m' := InsertAt(m, w, i + 1, e);
        if q[i] == c {
          PrefixStep(q, w, i);
          if i + 1 < |q| {
            InsertMatches(m, w, i + 1, e, q);
          } else {
            InsertCollect(m, w, i + 1, e);
          }
        }
        MatchGrowthEq(c, l, m, m', rt, isEnd, es, w, e, q, i);
        assert InsertAt(t, w, i, e) == Node(c, l, m', rt, isEnd, es);
      } else {
        MatchGrowthHere(c, l, m, rt, isEnd, es, w, e, q, i);
        assert InsertAt(t, w, i, e) == Node(c, l, m, rt, true, es + [e]);
      }
  }

  /** Exact semantics of one insertion into an empty slot. */
  lemma {:induction false} InsertNilExact<E>(w: Word, i: nat, e: E, q: Word)
    requires i < |w| && i < |q| && q[..i] == w[..i]
    ensures ExactAt(InsertAt(Nil, w, i, e), q, i) == (if q == w then [e] else [])
    decreases |w| - i
  {
    if i + 1 < |w| {
      assert InsertAt(Nil, w, i, e) == Node(w[i], Nil, InsertAt(Nil, w, i + 1, e), Nil, false, []);
    } else {
      assert InsertAt(Nil, w, i, e) == Node(w[i], Nil, Nil, Nil, true, [e]);
    }
    if q[i] != w[i] {
      assert TraverseToNode(InsertAt(Nil, w, i, e), q, i) == Nil;
      assert q != w;
    } else {
      PrefixStep(q, w, i);
      if i + 1 == |q| {
        assert q == q[..i + 1];
        if i + 1 == |w| {
          assert w == w[..i + 1];
        }
      } else if i + 1 < |w| {
        assert TraverseToNode(InsertAt(Nil, w, i, e), q, i) == TraverseToNode(InsertAt(Nil, w, i + 1, e), q, i + 1);
        InsertNilExact(w, i + 1, e, q);
      } else {
        assert TraverseToNode(InsertAt(Nil, w, i, e), q, i) == Nil;
        assert q != w;
      }
    }
  }

  /** How one insertion of (`w`, `e`) should change the exact lookup of `q`
      from key position `i` on: `e` is appended when `q` is `w`. */
  ghost predicate ExactGrowth<E>(t: Tst<E>, t': Tst<E>, w: Word, e: E, q: Word, i: nat)
  {
    ExactAt(t', q, i) == ExactAt(t, q, i) + (if q == w then [e] else [])
  }

  /** Insertion went into the left subtree (`w[i] < c`). */
  lemma ExactGrowthLeft<E>(c: char, l: Tst<E>, l': Tst<E>, m: Tst<E>, r: Tst<E>, isEnd: bool, es: seq<E>,
                           w: Word, e: E, q: Word, i: nat)
    requires i < |w| && i < |q| && w[i] < c
    requires q[i] < c ==> ExactGrowth(l, l', w, e, q, i)
    ensures ExactGrowth(Node(c, l, m, r, isEnd, es), Node(c, l', m, r, isEnd, es), w, e, q, i)
  {
    if q[i] >= c {
      assert q[i] != w[i];
    }
  }

  /** Insertion went into the right subtree (`w[i] > c`). */
  lemma ExactGrowthRight<E>(c: char, l: Tst<E>, m: Tst<E>, r: Tst<E>, r': Tst<E>, isEnd: bool, es: seq<E>,
                            w: Word, e: E, q: Word, i: nat)
    requires i < |w| && i < |q| && w[i] > c
    requires q[i] > c ==> ExactGrowth(r, r', w, e, q, i)
    ensures ExactGrowth(Node(c, l, m, r, isEnd, es), Node(c, l, m, r', isEnd, es), w, e, q, i)
  {
    if q[i] <= c {
      assert q[i] != w[i];
    }
  }

  /** Insertion went on into the eq subtree (`w[i] == c`, more of `w` left). */
  lemma ExactGrowthEq<E>(c: char, l: Tst<E>, m: Tst<E>, m': Tst<E>, r: Tst<E>, isEnd: bool, es: seq<E>,
                         w: Word, e: E, q: Word, i: nat)
    requires i + 1 < |w| && i < |q| && w[i] == c
    requires q[i] == c && i + 1 < |q| ==> ExactGrowth(m, m', w, e, q, i + 1)
    ensures ExactGrowth(Node(c, l, m, r, isEnd, es), Node(c, l, m', r, isEnd, es), w, e, q, i)
  {
    if q[i] != c {
      assert q[i] != w[i];
    } else if i + 1 == |q| {
      assert |q| != |w|;
    }
  }

  /** Insertion ended at this node (`w[i] == c`, `w` exhausted). */
  lemma ExactGrowthHere<E>(c: char, l: Tst<E>, m: Tst<E>, r: Tst<E>, isEnd: bool, es: seq<E>,
                           w: Word, e: E, q: Word, i: nat)
    requires i + 1 == |w| && i < |q| && q[..i] == w[..i] && w[i] == c && isEnd == (es != [])
    ensures ExactGrowth(Node(c, l, m, r, isEnd, es), Node(c, l, m, r, true, es + [e]), w, e, q, i)
  {
    if q[i] != c {
      assert q[i] != w[i];
    } else if i + 1 == |q| {
      PrefixStep(q, w, i);
      assert q == q[..i + 1] && w == w[..i + 1];
    } else {
      assert |q| != |w|;
    }
  }

  /** Exact semantics of one insertion: only the lookup of `w` itself changes,
      and it gains `e` at the end. */
  lemma {:induction false} InsertExact<E>(t: Tst<E>, w: Word, i: nat, e: E, q: Word)
    requires i < |w| && i < |q| && q[..i] == w[..i] && EndsConsistent(t)
    ensures ExactAt(InsertAt(t, w, i, e), q, i) == ExactAt(t, q, i) + (if q == w then [e] else [])
    decreases |w| - i, t
  {
    match t
    case Nil =>
      InsertNilExact(w, i, e, q);
    case Node(c, l, m, rt, isEnd, es) =>
      if w[i] < c {
        if q[i] < c {
          InsertExact(l, w, i, e, q);
        }
        ExactGrowthLeft(c, l, InsertAt(l, w, i, e), m, rt, isEnd, es, w, e, q, i);
        assert InsertAt(t, w, i, e) == Node(c, InsertAt(l, w, i, e), m, rt, isEnd, es);
      } else if w[i] > c {
        if q[i] > c {
          InsertExact(rt, w, i, e, q);
        }
        ExactGrowthRight(c, l, m, rt, InsertAt(rt, w, i, e), isEnd, es, w, e, q, i);
        assert InsertAt(t, w, i, e) == Node(c, l, m, InsertAt(rt, w, i, e), isEnd, es);
      } else if i + 1 < |w| {
        if q[i] == c && i + 1 < |q| {
          PrefixStep(q, w, i);
          InsertExact(m, w, i + 1, e, q);
        }
        ExactGrowthEq(c, l, m, InsertAt(m, w, i + 1, e), rt, isEnd, es, w, e, q, i);
        assert InsertAt(t, w, i, e) == Node(c, l, InsertAt(m, w, i + 1, e), rt, isEnd, es);
      } else {
        ExactGrowthHere(c, l, m, rt, isEnd, es, w, e, q, i);
        assert InsertAt(t, w, i, e) == Node(c, l, m, rt, true, es + [e]);
      }
  }

  /** Insertion adds to the spelled strings only non-empty prefixes of the
      rest of the inserted word. */
  lemma {:induction false} InsertSpelled<E>(t: Tst<E>, w: Word, i: nat, e: E)
    requires i < |w|
    ensures forall s :: s in Spelled(InsertAt(t, w, i, e)) ==> s in Spelled(t) || s <= w[i..]
    decreases |w| - i, t
  {
    var ch := w[i];
    var n := if t.Nil? then Node(ch, Nil, Nil, Nil, false, []) else t;
    assert [ch] <= w[i..] by {
      assert w[i..][..1] == [ch];
    }
    assert t.Nil? ==> Spelled(n) == {[ch]};
    if ch < n.c {
      InsertSpelled(n.left, w, i, e);
    } else if ch > n.c {
      InsertSpelled(n.right, w, i, e);
    } else if i + 1 < |w| {
      InsertSpelled(n.eq, w, i + 1, e);
      forall s | s <= w[i + 1..]
        ensures [ch] + s <= w[i..]
      {
        assert w[i..][..|s| + 1] == [ch] + w[i + 1..][..|s|];
      }
    }
  }

  /** Every spelled string is non-empty and starts with a character of the
      root's level. */
  lemma {:induction false} SpelledStartsAtLevel<E>(t: Tst<E>, s: Word)
    requires s in Spelled(t)
    ensures |s| > 0 && s[0] in Level(t)
  {
    match t
    case Node(c, l, m, r, _, _) =>
      if s in Spelled(l) {
        SpelledStartsAtLevel(l, s);
      } else if s in Spelled(r) {
        SpelledStartsAtLevel(r, s);
      }
  }

  /** The walk result: on an ordered tree, `_traverse_to_node` finds a node
      exactly when the rest of the query `w[i..]` is spelled by some node. */
  lemma {:induction false} TraverseFinds<E>(t: Tst<E>, w: Word, i: nat)
    requires Ordered(t)
    ensures TraverseToNode(t, w, i).Node? <==> i < |w| && w[i..] in Spelled(t)
    decreases |w| - i, t
  {
    if t.Node? && i < |w| {
      var s := w[i..];
      assert s[0] == w[i];
      if s in Spelled(t.left) {
        SpelledStartsAtLevel(t.left, s);
      }
      if s in Spelled(t.right) {
        SpelledStartsAtLevel(t.right, s);
      }
      if w[i] < t.c {
        TraverseFinds(t.left, w, i);
      } else if w[i] > t.c {
        TraverseFinds(t.right, w, i);
      } else if i + 1 == |w| {
        assert s == [t.c];
      } else {
        TraverseFinds(t.eq, w, i + 1);
        assert s == [t.c] + w[i + 1..];
        if s in (set x | x in Spelled(t.eq) :: [t.c] + x) {
          var x :| x in Spelled(t.eq) && s == [t.c] + x;
          assert x == s[1..] == w[i + 1..];
        }
      }
    }
  }

  /** The node the walk returns is the node at the query's path: the rest of
      the query is spelled in `t`, and every string spelled below the node's
      `eq` link extends it. */
  lemma {:induction false} TraverseSpells<E>(t: Tst<E>, w: Word, i: nat)
    requires TraverseToNode(t, w, i).Node?
    ensures w[i..] in Spelled(t)
    ensures forall s :: s in Spelled(TraverseToNode(t, w, i).eq) ==> w[i..] + s in Spelled(t)
    decreases |w| - i, t
  {
    var n := TraverseToNode(t, w, i);
    if w[i] < t.c {
      TraverseSpells(t.left, w, i);
    } else if w[i] > t.c {
      TraverseSpells(t.right, w, i);
    } else if i + 1 == |w| {
      assert w[i..] == [t.c];
      forall s | s in Spelled(n.eq)
        ensures w[i..] + s in Spelled(t)
      {
        assert w[i..] + s == [t.c] + s;
      }
    } else {
      TraverseSpells(t.eq, w, i + 1);
      assert w[i..] == [t.c] + w[i + 1..];
      forall s | s in Spelled(n.eq)
        ensures w[i..] + s in Spelled(t)
      {
        assert w[i + 1..] + s in Spelled(t.eq);
        assert w[i..] + s == [t.c] + (w[i + 1..] + s);
      }
    }
  }

  /** The source's `search` over-reports: after inserting "a" then "b", the
      query "a" also returns the entry of "b", which sits in the right
      subtree of the matched node, although "a" is not a prefix of "b". The
      corrected `Matches` returns only the entry of "a", as prefix semantics
      over the insertions demands. */
  lemma SearchAsWrittenReportsSibling<E>(x: E, y: E)
    ensures var t := InsertAt(InsertAt(Nil, "a", 0, x), "b", 0, y);
            && SearchAsWritten(t, "a") == [x, y]
            && Matches(t, "a") == [x]
            && Under([("a", x), ("b", y)], "a") == [x]
  {
    var a := Node('a', Nil, Nil, Nil, true, [x]);
    var b := Node('b', Nil, Nil, Nil, true, [y]);
    assert InsertAt(Nil, "a", 0, x) == a;
    assert InsertAt(Nil, "b", 0, y) == b;
    assert InsertAt(a, "b", 0, y) == a.(right := b);
    assert TraverseToNode(a.(right := b), "a", 0) == a.(right := b);
    assert CollectAll(b) == [y];
    var log := [("a", x), ("b", y)];
    assert log[..1] == [("a", x)] && log[..1][..0] == [];
    assert Under(log[..1], "a") == [x];
    assert !("a" <= "b") by {
      assert "b"[..1] != "a";
    }
  }

  /** One insertion of a non-empty word keeps a non-empty query's prefix
      result equal, as a multiset, to the log's, and its exact lookup equal
      to the log's. */
  lemma InsertKeepsMeaning<E>(t: Tst<E>, log: seq<(Word, E)>, w: Word, e: E, q: Word)
    requires w != [] && q != [] && EndsConsistent(t)
    requires multiset(Matches(t, q)) == multiset(Under(log, q))
    requires ExactAt(t, q, 0) == Exactly(log, q)
    ensures multiset(Matches(InsertAt(t, w, 0, e), q)) == multiset(Under(log + [(w, e)], q))
    ensures ExactAt(InsertAt(t, w, 0, e), q, 0) == Exactly(log + [(w, e)], q)
  {
    InsertMatches(t, w, 0, e, q);
    InsertExact(t, w, 0, e, q);
    UnderAppend(log, w, e, q);
    if q <= w {
      OneMoreMultiset(Matches(t, q), Matches(InsertAt(t, w, 0, e), q), e);
    }
  }

  /** Every string spelled by a node is a prefix of a logged word: a tree
      built by insertions holds no node off the inserted words. */
  ghost predicate SpelledLogged<E>(t: Tst<E>, log: seq<(Word, E)>)
  {
    forall s :: s in Spelled(t) ==> exists k :: 0 <= k < |log| && s <= log[k].0
  }

  /** One insertion keeps every spelled string a prefix of a logged word. */
  lemma InsertKeepsSpelledLogged<E>(t: Tst<E>, log: seq<(Word, E)>, w: Word, e: E)
    requires w != [] && SpelledLogged(t, log)
    ensures SpelledLogged(InsertAt(t, w, 0, e), log + [(w, e)])
  {
    var log' := log + [(w, e)];
    InsertSpelled(t, w, 0, e);
    forall s | s in Spelled(InsertAt(t, w, 0, e))
      ensures exists k :: 0 <= k < |log'| && s <= log'[k].0
    {
      if s in Spelled(t) {
        var k :| 0 <= k < |log| && s <= log[k].0;
        assert log'[k] == log[k];
      } else {
        assert w[0..] == w && log'[|log|] == (w, e);
      }
    }
  }

  /** The index object: `root` is None until the first insertion. */
  class TernarySearchTree<E> {
    var root: Tst<E>
    /** The insertions performed so far, in order. */
    ghost var log: seq<(Word, E)>

    ghost predicate Valid()
      reads this
    {
      && EndsConsistent(root)
      && Ordered(root)
      && (forall k :: 0 <= k < |log| ==> log[k].0 != [])
      && SpelledLogged(root, log)
      && (forall q :: q != [] ==> multiset(Matches(root, q)) == multiset(Under(log, q)))
      && (forall q :: q != [] ==> ExactAt(root, q, 0) == Exactly(log, q))
    }

    constructor ()
      ensures Valid() && root == Nil && log == []
    {
      root := Nil;
      log := [];
    }

    /** `insert`: an empty word fails at `word[0]` before anything changes. */
    method Insert(word: Word, entry: E) returns (status: Status)
      requires Valid()
      modifies this
      ensures Valid()
      ensures status == (if word == [] then IndexError else Inserted)
      ensures word == [] ==> root == old(root) && log == old(log)
      ensures word != [] ==> root == InsertAt(old(root), word, 0, entry) && log == old(log) + [(word, entry)]
    {
      if |word| == 0 {
        return IndexError;
      }
      var root' := InsertAt(root, word, 0, entry);
      var log' := log + [(word, entry)];
      InsertKeepsEnds(root, word, 0, entry);
      InsertKeepsOrdered(root, word, 0, entry);
      InsertKeepsSpelledLogged(root, log, word, entry);
      forall q | q != []
        ensures multiset(Matches(root', q)) == multiset(Under(log', q))
        ensures ExactAt(root', q, 0) == Exactly(log', q)
      {
        InsertKeepsMeaning(root, log, word, entry, q);
      }
      root := root';
      log := log';
      status := Inserted;
    }

    /** `search`: read-only; the empty query matches nothing. The result is
        the corrected `Matches`, see `SearchAsWritten` for the source's. */
    method Search(query: Word) returns (results: seq<E>)
      requires Valid()
      ensures results == Matches(root, query)
      ensures query == [] ==> results == []
      ensures query != [] ==> multiset(results) == multiset(Under(log, query))
    {
      var node := TraverseToNode(root, query, 0);
      results := [];
      if node.Node? {
        results := SubtreeEntries(node);
      }
    }
  }

  /** The source's search is the corrected one plus the matched node's
      `left` and `right` subtrees. */
  lemma AsWrittenSplits<E>(t: Tst<E>, q: Word)
    ensures var n := TraverseToNode(t, q, 0);
            multiset(SearchAsWritten(t, q))
            == multiset(Matches(t, q)) + (if n.Node? then multiset(CollectAll(n.left)) + multiset(CollectAll(n.right)) else multiset{})
  {
  }

  /** The source's search never misses a prefix match: it returns everything
      the prefix semantics asks for, and in addition exactly what lies in the
      matched node's `left` and `right` subtrees. */
  lemma AsWrittenSuperset<E>(tst: TernarySearchTree<E>, q: Word)
    requires tst.Valid() && q != []
    ensures multiset(Under(tst.log, q)) <= multiset(SearchAsWritten(tst.root, q))
    ensures var n := TraverseToNode(tst.root, q, 0);
            n.Node? ==>
              multiset(SearchAsWritten(tst.root, q))
              == multiset(Under(tst.log, q)) + multiset(CollectAll(n.left)) + multiset(CollectAll(n.right))
  {
    assert multiset(Matches(tst.root, q)) == multiset(Under(tst.log, q));
    AsWrittenSplits(tst.root, q);
  }

  /** The source's search returns nothing for a query that is a prefix of no
      inserted word, because the walk only reaches nodes along inserted words. */
  lemma AsWrittenAbsent<E>(tst: TernarySearchTree<E>, q: Word)
    requires tst.Valid()
    ensures (forall k :: 0 <= k < |tst.log| ==> !(q <= tst.log[k].0)) ==> SearchAsWritten(tst.root, q) == []
  {
    if TraverseToNode(tst.root, q, 0).Node? {
      TraverseFinds(tst.root, q, 0);
      assert q[0..] == q;
    }
  }
}
