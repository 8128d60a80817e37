/** The trie of accepted words of the C++ generator: `TrieNode`, `insertWord`,
    `recognizedByTrie` and `canReachTerminal`. The heap of `TrieNode` objects is an arena owned by
    one `Trie` object: index `j` stands for one `TrieNode`, `children[j]` for its `children`
    map (character to the index of the child node) and `terminal[j]` for its `terminal` flag. */
module PrefixTrie {
  import opened Arena
  import opened Chars

  /** Whether some word ends at node `i` or below it (`canReachTerminal`). */
  function CanReachTerminal(e: Edges, t: seq<bool>, i: nat): bool
    requires Forward(e) && |t| == |e| && i < |e|
    decreases |e| - i
  {
    t[i] || exists c :: c in e[i] && CanReachTerminal(e, t, e[i][c])
  }

  /** `canReachTerminal` holds exactly when some continuation from node `i` ends a word. */
  lemma {:induction false} CanReachTerminalMeaning(e: Edges, t: seq<bool>, i: nat)
    requires Forward(e) && |t| == |e| && i < |e|
    ensures CanReachTerminal(e, t, i) <==> exists u :: EndsOnFlag(e, t, i, u)
    decreases |e| - i
  {
    if CanReachTerminal(e, t, i) {
      if t[i] {
        assert EndsOnFlag(e, t, i, []);
      } else {
        var c :| c in e[i] && CanReachTerminal(e, t, e[i][c]);
        var child := e[i][c];
        CanReachTerminalMeaning(e, t, child);
        var v :| EndsOnFlag(e, t, child, v);
        WalkAppend(e, i, [c], v);
        assert Walk(e, i, [c]) == Some(child) by {
          assert [c][..0] == [];
        }
        assert EndsOnFlag(e, t, i, [c] + v);
      }
    }
    if u :| EndsOnFlag(e, t, i, u) {
      if u != [] && !t[i] {
        var c := u[0];
        WalkAppend(e, i, [c], u[1..]);
        assert [c] + u[1..] == u;
        assert [c][..0] == [];
        var child := e[i][c];
        assert EndsOnFlag(e, t, child, u[1..]);
        CanReachTerminalMeaning(e, t, child);
      }
    }
  }

  /** In a trie in which the root ends a word or has children (any trie holding at least one
      word), every node can still reach the end of a word. */
  lemma {:induction false} EveryNodeReachesTerminal(e: Edges, t: seq<bool>, i: nat)
    requires Forward(e) && |t| == |e| && i < |e|
    requires LeavesEndWords(e, t) && (e[0] != map[] || t[0])
    ensures CanReachTerminal(e, t, i)
    decreases |e| - i
  {
    if e[i] != map[] && !t[i] {
      var c :| c in e[i];
      EveryNodeReachesTerminal(e, t, e[i][c]);
    }
  }

  class Trie {
    var children: Edges
    var terminal: seq<bool>

    ghost predicate Valid()
      reads this
    {
      IsTree(children) && |terminal| == |children| && LeavesEndWords(children, terminal)
    }

    /** `new TrieNode()` for the root: one node, no children, not terminal. */
    constructor ()
      ensures Valid() && children == [map[]] && terminal == [false]
      ensures forall u :: !Accepts(children, terminal, u)
    {
      children := [map[]];
      terminal := [false];
      new;
      forall u ensures !Accepts(children, terminal, u) {
        if u != [] { WalkPrefix(children, 0, u, 1); }
      }
    }

    /** `insertWord`: walk down from the root, creating each missing child, and mark the last
        node terminal. Afterwards the trie holds exactly the words it held and `word`; a word it
        already held leaves it exactly as it was. */
    method InsertWord(word: string)
      requires Valid()
      modifies this
      ensures Valid()
      ensures forall u :: Accepts(children, terminal, u) <==> Accepts(old(children), old(terminal), u) || u == word
      ensures Accepts(old(children), old(terminal), word) ==> children == old(children) && terminal == old(terminal)
      ensures children[0] != map[] || terminal[0]
    {
      ghost var e0, t0 := children, terminal;
      var current: nat := 0;
      InsertStart(e0, t0, word);
      for k := 0 to |word|
        invariant Inserting(e0, t0, children, terminal, word, k, current)
      {
        var c := word[k];
        if c !in children[current] {
          var grown := children[current := Attach(children[current], c, |children|)] + [map[]];
          InsertNew(e0, t0, children, terminal, grown, word, k, current);
          children := grown;
          terminal := terminal + [false];
          current := |children| - 1;
        } else {
          InsertExisting(e0, t0, children, terminal, word, k, current);
          current := children[current][c];
        }
      }
      InsertDone(e0, t0, children, terminal, word, current);
      terminal := terminal[current := true];
      if children[0] == map[] {
        ChildlessRoot(children, terminal, word);
      }
    }

    /** `recognizedByTrie`: walk down from the root; false at the first missing edge, otherwise
        whether the node reached ends a word. The trie is only read. */
    method RecognizedByTrie(word: string) returns (found: bool)
      requires Valid()
      ensures found == Accepts(children, terminal, word)
    {
      var current: nat := 0;
      for k := 0 to |word|
        invariant current < |children| && Walk(children, 0, word[..k]) == Some(current)
      {
        var c := word[k];
        SliceSnoc(word, k);
        WalkStep(children, 0, word[..k], c);
        if c !in children[current] {
          WalkPrefix(children, 0, word, k + 1);
          return false;
        }
        current := children[current][c];
      }
      SliceAll(word);
      return terminal[current];
    }
  }
}
