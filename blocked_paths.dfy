/** The rejected side of the Python generator: `gather_blocked_patterns` collects every prefix of
    the rejected words, and `mark_blocked_paths` flags the nodes whose path from the root is one
    of them. */
module BlockedPaths {
  import opened Arena
  import opened Chars
  import opened WordTrees

  /** `p` is a prefix of one of `words` (the empty string and each whole word included). */
  ghost predicate PrefixOfSome(p: string, words: seq<string>)
  {
    exists w :: w in words && p <= w
  }

  lemma PrefixSnoc(p: string, s: string, c: char)
    ensures p <= s + [c] <==> p <= s || p == s + [c]
  {
    if p <= s + [c] && p != s + [c] {
      assert |p| <= |s|;
      assert p == (s + [c])[..|p|] == s[..|p|];
    }
    if p <= s {
      assert (s + [c])[..|p|] == s[..|p|];
    }
  }

  lemma PrefixOfSomeSnoc(p: string, words: seq<string>, w: string)
    ensures PrefixOfSome(p, words + [w]) <==> PrefixOfSome(p, words) || p <= w
  {
    if PrefixOfSome(p, words + [w]) {
      var v :| v in words + [w] && p <= v;
      if v != w { assert v in words; }
    }
    if PrefixOfSome(p, words) {
      var v :| v in words && p <= v;
      assert v in words + [w];
    }
    if p <= w { assert w in words + [w]; }
  }

  /** `gather_blocked_patterns`: for each word, the empty string and each longer prefix in turn.
      The result is exactly the set of prefixes of the words; no words give the empty set. */
  method GatherBlockedPatterns(words: seq<string>) returns (patterns: set<string>)
    ensures forall p :: p in patterns <==> PrefixOfSome(p, words)
    ensures words == [] ==> patterns == {}
  {
    patterns := {};
    for k := 0 to |words|
      invariant forall p :: p in patterns <==> PrefixOfSome(p, words[..k])
    {
      var word := words[k];
      var current := "";
      patterns := patterns + {current};
      for n := 0 to |word|
        invariant current == word[..n]
        invariant forall p :: p in patterns <==> PrefixOfSome(p, words[..k]) || p <= current
      {
        var next := current + [word[n]];
        forall p ensures p in patterns + {next} <==> PrefixOfSome(p, words[..k]) || p <= next {
          PrefixSnoc(p, current, word[n]);
        }
        assert word[..n + 1] == next;
        current := next;
        patterns := patterns + {current};
      }
      assert current == word by {
        SliceAll(word);
      }
      SliceSnoc(words, k);
      forall p ensures p in patterns <==> PrefixOfSome(p, words[..k + 1]) {
        PrefixOfSomeSnoc(p, words[..k], word);
      }
    }
    SliceAll(words);
  }

  /** Node `j` is in the subtree of node `i`, and `current` followed by the path from `i` to `j`
      is in `blocked`. */
  ghost predicate MarkedBelow(e: Edges, i: nat, current: string, blocked: set<string>, j: nat)
    requires Forward(e) && i < |e|
  {
    exists u :: Walk(e, i, u) == Some(j) && current + u in blocked
  }

  /** Node `j` is marked below the child of `i` under one of `keys`. */
  ghost predicate MarkedVia(e: Edges, i: nat, current: string, blocked: set<string>, keys: seq<char>, j: nat)
    requires Forward(e) && i < |e|
    requires forall c :: c in keys ==> c in e[i]
  {
    exists m :: 0 <= m < |keys| && MarkedBelow(e, e[i][keys[m]], current + [keys[m]], blocked, j)
  }

  lemma MarkedViaStep(e: Edges, i: nat, current: string, blocked: set<string>, keys: seq<char>, k: nat, j: nat)
    requires Forward(e) && i < |e|
    requires forall c :: c in keys ==> c in e[i]
    requires k < |keys|
    ensures MarkedVia(e, i, current, blocked, keys[..k + 1], j) <==>
            MarkedVia(e, i, current, blocked, keys[..k], j) || MarkedBelow(e, e[i][keys[k]], current + [keys[k]], blocked, j)
  {
    if MarkedVia(e, i, current, blocked, keys[..k + 1], j) {
      var m :| 0 <= m < k + 1 && MarkedBelow(e, e[i][keys[..k + 1][m]], current + [keys[..k + 1][m]], blocked, j);
      if m < k {
        assert keys[..k][m] == keys[..k + 1][m];
      }
    }
    if MarkedVia(e, i, current, blocked, keys[..k], j) {
      var m :| 0 <= m < k && MarkedBelow(e, e[i][keys[..k][m]], current + [keys[..k][m]], blocked, j);
      assert keys[..k + 1][m] == keys[..k][m];
    }
    if MarkedBelow(e, e[i][keys[k]], current + [keys[k]], blocked, j) {
      assert keys[..k + 1][k] == keys[k];
    }
  }

  lemma MarkedBelowIntro(e: Edges, i: nat, current: string, blocked: set<string>, j: nat, u: string)
    requires Forward(e) && i < |e|
    requires Walk(e, i, u) == Some(j) && current + u in blocked
    ensures MarkedBelow(e, i, current, blocked, j)
  {
  }

  /** A path from `i` that starts with edge `c` is that edge followed by a path from the child. */
  lemma WalkFirst(e: Edges, i: nat, c: char, v: string)
    requires Forward(e) && i < |e|
    ensures Walk(e, i, [c] + v) == if c in e[i] then Walk(e, e[i][c], v) else None
  {
    WalkAppend(e, i, [c], v);
    assert [c][..0] == [];
  }

  lemma ConcatAssoc(a: string, b: string, c: string)
    ensures (a + b) + c == a + (b + c)
  {
  }

  /** A node marked below `i` is `i` itself with `current` blocked, or is marked below one of
      the children of `i`. */
  lemma MarkedSplitDown(e: Edges, i: nat, current: string, blocked: set<string>, j: nat)
    requires Forward(e) && i < |e|
    requires MarkedBelow(e, i, current, blocked, j)
    ensures (j == i && current in blocked) || MarkedVia(e, i, current, blocked, SortedChars(e[i].Keys), j)
  {
    var u :| Walk(e, i, u) == Some(j) && current + u in blocked;
    if u == [] {
      assert current + u == current;
    } else {
      var c, v := u[0], u[1..];
      assert u == [c] + v;
      WalkFirst(e, i, c, v);
      ConcatAssoc(current, [c], v);
      MarkedBelowIntro(e, e[i][c], current + [c], blocked, j, v);
      var keys := SortedChars(e[i].Keys);
      assert c in keys;
      var m :| 0 <= m < |keys| && keys[m] == c;
    }
  }

  /** Conversely, `i` itself with `current` blocked is marked below `i`, and so is any node
      marked below one of its children. */
  lemma MarkedSplitUp(e: Edges, i: nat, current: string, blocked: set<string>, j: nat)
    requires Forward(e) && i < |e|
    requires (j == i && current in blocked) || MarkedVia(e, i, current, blocked, SortedChars(e[i].Keys), j)
    ensures MarkedBelow(e, i, current, blocked, j)
  {
    var keys := SortedChars(e[i].Keys);
    if j == i && current in blocked {
      assert current + [] == current;
      MarkedBelowIntro(e, i, current, blocked, j, []);
    } else {
      var m :| 0 <= m < |keys| && MarkedBelow(e, e[i][keys[m]], current + [keys[m]], blocked, j);
      var c := keys[m];
      var v :| Walk(e, e[i][c], v) == Some(j) && (current + [c]) + v in blocked;
      WalkFirst(e, i, c, v);
      ConcatAssoc(current, [c], v);
      MarkedBelowIntro(e, i, current, blocked, j, [c] + v);
    }
  }

  /** One child of the marking loop: the flags set below the child under `keys[k]` extend the
      flags set so far to the children under `keys[..k + 1]`. */
  lemma MarkChildStep(e: Edges, node: nat, current: string, blocked: set<string>, keys: seq<char>, k: nat,
                      b0: seq<bool>, b1: seq<bool>, b2: seq<bool>)
    requires Forward(e) && node < |e| && k < |keys|
    requires forall c :: c in keys ==> c in e[node]
    requires |b0| == |b1| == |b2|
    requires forall j :: 0 <= j < |b1| ==>
               (b1[j] <==> b0[j] || (j == node && current in blocked) || MarkedVia(e, node, current, blocked, keys[..k], j))
    requires forall j :: 0 <= j < |b2| ==>
               (b2[j] <==> b1[j] || MarkedBelow(e, e[node][keys[k]], current + [keys[k]], blocked, j))
    ensures forall j :: 0 <= j < |b2| ==>
              (b2[j] <==> b0[j] || (j == node && current in blocked) || MarkedVia(e, node, current, blocked, keys[..k + 1], j))
  {
    forall j | 0 <= j < |b2|
      ensures b2[j] <==> b0[j] || (j == node && current in blocked) || MarkedVia(e, node, current, blocked, keys[..k + 1], j)
    {
      MarkedViaStep(e, node, current, blocked, keys, k, j);
    }
  }

  /** After the marking loop, the flags set are those of the nodes marked below `node`. */
  lemma MarkDone(e: Edges, node: nat, current: string, blocked: set<string>, b0: seq<bool>, b: seq<bool>)
    requires Forward(e) && node < |e|
    requires |b0| == |b|
    requires forall j :: 0 <= j < |b| ==>
               (b[j] <==> b0[j] || (j == node && current in blocked) || MarkedVia(e, node, current, blocked, SortedChars(e[node].Keys), j))
    ensures forall j :: 0 <= j < |b| ==> (b[j] <==> b0[j] || MarkedBelow(e, node, current, blocked, j))
  {
    forall j | 0 <= j < |b| ensures b[j] <==> b0[j] || MarkedBelow(e, node, current, blocked, j) {
      if MarkedBelow(e, node, current, blocked, j) {
        MarkedSplitDown(e, node, current, blocked, j);
      }
      if (j == node && current in blocked) || MarkedVia(e, node, current, blocked, SortedChars(e[node].Keys), j) {
        MarkedSplitUp(e, node, current, blocked, j);
      }
    }
  }

  /** `mark_blocked_paths`: flag node `node` when `current` is blocked, then do the same for each
      child with its edge character appended. A flag is only ever set, never cleared; the shape
      of the tree and the terminal flags are untouched; and the flags set are exactly those of the
      nodes below `node` whose path, after `current`, is blocked. */
  method MarkBlockedPaths(tree: WordTree, node: nat, current: string, blocked: set<string>)
    requires tree.Valid() && node < |tree.patterns|
    modifies tree
    ensures tree.Valid()
    ensures tree.patterns == old(tree.patterns) && tree.isTerminal == old(tree.isTerminal)
    ensures |tree.blocked| == |old(tree.blocked)|
    ensures forall j :: 0 <= j < |tree.blocked| ==>
              (tree.blocked[j] <==> old(tree.blocked[j]) || MarkedBelow(tree.patterns, node, current, blocked, j))
    decreases |tree.patterns| - node
  {
    ghost var e, b0 := tree.patterns, tree.blocked;
    if current in blocked {
      tree.blocked := tree.blocked[node := true];
    }
    var keys := SortedChars(tree.patterns[node].Keys);
    for k := 0 to |keys|
      invariant tree.Valid() && tree.patterns == e && tree.isTerminal == old(tree.isTerminal)
      invariant |tree.blocked| == |b0|
      invariant forall j :: 0 <= j < |tree.blocked| ==>
                  (tree.blocked[j] <==> b0[j] || (j == node && current in blocked) || MarkedVia(e, node, current, blocked, keys[..k], j))
    {
      var c := keys[k];
      ghost var b1 := tree.blocked;
      MarkBlockedPaths(tree, tree.patterns[node][c], current + [c], blocked);
      MarkChildStep(e, node, current, blocked, keys, k, b0, b1, tree.blocked);
    }
    SliceAll(keys);
    MarkDone(e, node, current, blocked, b0, tree.blocked);
  }

  /** Marking from the root with the empty path, starting from a tree with no flag set, blocks a
      node exactly when its path from the root is in `blocked`. */
  lemma MarkedFromRoot(e: Edges, blocked: set<string>, j: nat)
    requires Forward(e) && |e| > 0
    ensures MarkedBelow(e, 0, "", blocked, j) <==> exists u :: Walk(e, 0, u) == Some(j) && u in blocked
  {
    forall u: string ensures "" + u == u {
    }
  }
}
