/** The meaning shared by both indexes of the book search: a log of the
    (word, entry) pairs inserted so far, and what a prefix query or an exact
    lookup over that log should return. */
module IndexSpec {

  /** A token: a word already lower-cased and split out by the caller. */
  type Word = seq<char>

  datatype Option<+T> = None | Some(value: T)

  /** The outcome of an insertion into the ternary search tree: indexing the
      first character of an empty word raises IndexError. */
  datatype Status = Inserted | IndexError

  /** Every entry of the log, in insertion order. */
  ghost function AllEntries<E>(log: seq<(Word, E)>): seq<E>
  {
    if log == [] then [] else AllEntries(log[..|log| - 1]) + [log[|log| - 1].1]
  }

  /** The entries inserted under words that have `q` as a prefix, in insertion order. */
  ghost function Under<E>(log: seq<(Word, E)>, q: Word): seq<E>
  {
    if log == [] then []
    else Under(log[..|log| - 1], q) + (if q <= log[|log| - 1].0 then [log[|log| - 1].1] else [])
  }

  /** The entries inserted under exactly the word `w`, in insertion order. */
  ghost function Exactly<E>(log: seq<(Word, E)>, w: Word): seq<E>
  {
    if log == [] then []
    else Exactly(log[..|log| - 1], w) + (if log[|log| - 1].0 == w then [log[|log| - 1].1] else [])
  }

  /** The entries inserted under words that strictly extend `p` and whose next
      character after `p` is one of `ks`. */
  ghost function Below<E>(log: seq<(Word, E)>, p: Word, ks: set<char>): seq<E>
  {
    if log == [] then []
    else
      var w := log[|log| - 1].0;
      Below(log[..|log| - 1], p, ks) + (if p < w && w[|p|] in ks then [log[|log| - 1].1] else [])
  }

  /** The set of words that occur in the log. */
  ghost function Words<E>(log: seq<(Word, E)>): set<Word>
  {
    set k | 0 <= k < |log| :: log[k].0
  }

  /** The empty query is a prefix of every word, so it selects the whole log. */
  lemma {:induction false} UnderEmptyIsAll<E>(log: seq<(Word, E)>)
    ensures Under(log, []) == AllEntries(log)
  {
    if log != [] {
      UnderEmptyIsAll(log[..|log| - 1]);
    }
  }

  /** A query that is a prefix of no logged word selects nothing. */
  lemma {:induction false} UnderNothing<E>(log: seq<(Word, E)>, q: Word)
    requires forall k :: 0 <= k < |log| ==> !(q <= log[k].0)
    ensures Under(log, q) == []
  {
    if log != [] {
      UnderNothing(log[..|log| - 1], q);
    }
  }

  /** No word of the log equals `q` when none has `q` as a prefix. */
  lemma {:induction false} ExactlyNothing<E>(log: seq<(Word, E)>, q: Word)
    requires forall k :: 0 <= k < |log| ==> !(q <= log[k].0)
    ensures Exactly(log, q) == []
  {
    if log != [] {
      ExactlyNothing(log[..|log| - 1], q);
    }
  }

  /** Appending one insertion adds its entry to every query it is a prefix match for. */
  lemma UnderAppend<E>(log: seq<(Word, E)>, w: Word, e: E, q: Word)
    ensures Under(log + [(w, e)], q) == Under(log, q) + (if q <= w then [e] else [])
    ensures Exactly(log + [(w, e)], q) == Exactly(log, q) + (if q == w then [e] else [])
  {
    assert (log + [(w, e)])[..|log|] == log;
  }

  /** The entries under prefix `p` are those stored at `p` itself plus those
      reached through one of the next characters `ks`, provided `ks` covers
      every next character that occurs in the log. */
  lemma {:induction false} UnderSplits<E>(log: seq<(Word, E)>, p: Word, ks: set<char>)
    requires forall k :: 0 <= k < |log| && p < log[k].0 ==> log[k].0[|p|] in ks
    ensures multiset(Under(log, p)) == multiset(Exactly(log, p)) + multiset(Below(log, p, ks))
  {
    if log != [] {
      var init := log[..|log| - 1];
      var w := log[|log| - 1].0;
      var e := log[|log| - 1].1;
      forall k | 0 <= k < |init| && p < init[k].0
        ensures init[k].0[|p|] in ks
      {
        assert init[k] == log[k];
      }
      UnderSplits(init, p, ks);
      SplitsLast(p, w, e, ks);
      var u := if p <= w then [e] else [];
      var x := if w == p then [e] else [];
      var b := if p < w && w[|p|] in ks then [e] else [];
      assert Under(log, p) == Under(init, p) + u;
      assert Exactly(log, p) == Exactly(init, p) + x;
      assert Below(log, p, ks) == Below(init, p, ks) + b;
      assert multiset(Under(log, p)) == multiset(Under(init, p)) + multiset(u);
      assert multiset(Exactly(log, p)) == multiset(Exactly(init, p)) + multiset(x);
      assert multiset(Below(log, p, ks)) == multiset(Below(init, p, ks)) + multiset(b);
    }
  }

  /** `UnderSplits` for the last insertion alone. */
  lemma SplitsLast<E>(p: Word, w: Word, e: E, ks: set<char>)
    requires p < w ==> w[|p|] in ks
    ensures multiset(if p <= w then [e] else [])
         == multiset(if w == p then [e] else []) + multiset(if p < w && w[|p|] in ks then [e] else [])
  {
  }

  /** Splitting off one next character `c`: what lies below `p` via `c` is
      exactly what lies under the longer prefix `p + [c]`. */
  lemma {:induction false} BelowAdd<E>(log: seq<(Word, E)>, p: Word, c: char, ks: set<char>)
    requires c !in ks
    ensures multiset(Below(log, p, ks + {c}))
         == multiset(Under(log, p + [c])) + multiset(Below(log, p, ks))
  {
    if log != [] {
      BelowAdd(log[..|log| - 1], p, c, ks);
      BelowAddLast(p, c, log[|log| - 1].0, log[|log| - 1].1, ks);
    }
  }

  /** `BelowAdd` for the last insertion alone. */
  lemma BelowAddLast<E>(p: Word, c: char, w: Word, e: E, ks: set<char>)
    requires c !in ks
    ensures multiset(if p < w && w[|p|] in ks + {c} then [e] else [])
         == multiset(if p + [c] <= w then [e] else []) + multiset(if p < w && w[|p|] in ks then [e] else [])
  {
    if p + [c] <= w {
      assert w[..|p|] == (p + [c])[..|p|] == p;
      assert w[|p|] == c;
    }
    if p < w && w[|p|] == c {
      assert w[..|p| + 1] == p + [c];
    }
  }

  /** Nothing lies below a prefix via an empty set of next characters. */
  lemma {:induction false} BelowNone<E>(log: seq<(Word, E)>, p: Word)
    ensures Below(log, p, {}) == []
  {
    if log != [] {
      BelowNone(log[..|log| - 1], p);
    }
  }
}
