/** The tree of the Python generator: `WordTree`, `create_empty` and `build_word_tree`. As in the
    C++ trie, the tree of `WordTree` objects is an arena owned by one object: index `j` stands for
    one `WordTree` node, and its `patterns`, `is_terminal` and `blocked` fields are `patterns[j]`,
    `isTerminal[j]` and `blocked[j]`. */
module WordTrees {
  import opened Arena
  import opened Chars

  class WordTree {
    var patterns: Edges
    var isTerminal: seq<bool>
    var blocked: seq<bool>

    ghost predicate Valid()
      reads this
    {
      && IsTree(patterns) && |isTerminal| == |patterns| && |blocked| == |patterns|
      && LeavesEndWords(patterns, isTerminal)
    }

    /** `create_empty`: a root with no children, neither terminal nor blocked. */
    constructor CreateEmpty()
      ensures Valid() && patterns == [map[]] && isTerminal == [false] && blocked == [false]
      ensures forall u :: !Accepts(patterns, isTerminal, u)
    {
      patterns := [map[]];
      isTerminal := [false];
      blocked := [false];
      new;
      forall u ensures !Accepts(patterns, isTerminal, u) {
        if u != [] { WalkPrefix(patterns, 0, u, 1); }
      }
    }

    /** The body of the outer loop of `build_word_tree` (`src/ex.py` lines 31-37): walk down from the root,
        creating each missing child unblocked and not terminal, and mark the last node terminal.
        The tree then holds exactly the words it held and `word`, and no node becomes blocked. */
    method AddWord(word: string)
      requires Valid()
      modifies this
      ensures Valid()
      ensures forall u :: Accepts(patterns, isTerminal, u) <==> Accepts(old(patterns), old(isTerminal), u) || u == word
      ensures |old(blocked)| <= |blocked| && forall j :: 0 <= j < |blocked| ==> (blocked[j] <==> j < |old(blocked)| && old(blocked)[j])
    {
      ghost var e0, t0, b0 := patterns, isTerminal, blocked;
      var current: nat := 0;
      InsertStart(e0, t0, word);
      for k := 0 to |word|
        invariant Inserting(e0, t0, patterns, isTerminal, word, k, current)
        invariant |b0| <= |blocked| == |patterns|
        invariant forall j :: 0 <= j < |blocked| ==> (blocked[j] <==> j < |b0| && b0[j])
      {
        var c := word[k];
        if c !in patterns[current] {
          var grown := patterns[current := Attach(patterns[current], c, |patterns|)] + [map[]];
          InsertNew(e0, t0, patterns, isTerminal, grown, word, k, current);
          patterns := grown;
          isTerminal := isTerminal + [false];
          blocked := blocked + [false];
          current := |patterns| - 1;
        } else {
          InsertExisting(e0, t0, patterns, isTerminal, word, k, current);
          current := patterns[current][c];
        }
      }
      InsertDone(e0, t0, patterns, isTerminal, word, current);
      isTerminal := isTerminal[current := true];
    }
  }

  /** `build_word_tree`: None for an empty list; otherwise a new tree holding exactly the given
      words, with no node blocked. */
  method BuildWordTree(sequences: seq<string>) returns (tree: WordTree?)
    ensures sequences == [] <==> tree == null
    ensures tree != null ==> fresh(tree) && tree.Valid()
    ensures tree != null ==> forall u :: Accepts(tree.patterns, tree.isTerminal, u) <==> u in sequences
    ensures tree != null ==> forall j :: 0 <= j < |tree.blocked| ==> !tree.blocked[j]
  {
    if sequences == [] {
      return null;
    }
    var root := new WordTree.CreateEmpty();
    for k := 0 to |sequences|
      invariant root.Valid()
      invariant forall u :: Accepts(root.patterns, root.isTerminal, u) <==> u in sequences[..k]
      invariant forall j :: 0 <= j < |root.blocked| ==> !root.blocked[j]
    {
      root.AddWord(sequences[k]);
      SliceSnoc(sequences, k);
    }
    SliceAll(sequences);
    return root;
  }
}
