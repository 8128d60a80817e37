/** The Python pattern writer `create_regex_pattern` and the driver `generate_pattern`. */
module WordRegex {
  import opened Arena
  import opened Chars
  import opened PrefixTrie
  import opened WordTrees
  import opened BlockedPaths

  /** The pattern `create_regex_pattern` returns for node `i` at depth `depth`: nothing once the
      depth limit is reached, `.*` at the first unblocked node, `()` at a blocked leaf, the edge
      character followed by the child's pattern for a single child, and otherwise one
      alternative per child in ascending character order. It is empty exactly at the depth
      limit. */
  function RegexPattern(e: Edges, b: seq<bool>, i: nat, depth: int, maxLength: int): (r: string)
    requires Forward(e) && |b| == |e| && i < |e|
    ensures r == "" <==> depth == maxLength
    decreases |e| - i, 1
  {
    if depth == maxLength then ""
    else if !b[i] then ".*"
    else if e[i] == map[] then "()"
    else if |e[i]| == 1 then
      var c := Min(e[i].Keys);
      [c] + RegexPattern(e, b, e[i][c], depth + 1, maxLength)
    else "(" + Join(Alternatives(e, b, i, depth, maxLength), '|') + ")"
  }

  /** `src/ex.py` lines 76-79: `char + pattern` for each child, in ascending character order. */
  function Alternatives(e: Edges, b: seq<bool>, i: nat, depth: int, maxLength: int): (r: seq<string>)
    requires Forward(e) && |b| == |e| && i < |e|
    ensures |r| == |e[i]|
    decreases |e| - i, 0
  {
    var keys := SortedChars(e[i].Keys);
    SortedCharsLength(e[i].Keys);
    seq(|keys|, m requires 0 <= m < |keys| => [keys[m]] + RegexPattern(e, b, e[i][keys[m]], depth + 1, maxLength))
  }

  /** The single key of a map with one entry is its smallest. */
  lemma OnlyKey(m: map<char, nat>, c: char)
    requires |m| == 1 && c in m
    ensures c == Min(m.Keys)
  {
    var k := Min(m.Keys);
    assert |m.Keys| == 1;
    assert m.Keys == {c} + (m.Keys - {c});
    assert m.Keys - {c} == {};
  }

  /** `create_regex_pattern`, with its loop over the sorted children. It returns the pattern
      `RegexPattern` describes, and only reads the tree. */
  method CreateRegexPattern(tree: WordTree, node: nat, depth: int, maxLength: int) returns (pattern: string)
    requires tree.Valid() && node < |tree.patterns|
    ensures pattern == RegexPattern(tree.patterns, tree.blocked, node, depth, maxLength)
    decreases |tree.patterns| - node
  {
    if depth == maxLength {
      return "";
    }
    if !tree.blocked[node] {
      return ".*";
    }
    if tree.patterns[node] == map[] {
      return "()";
    }
    if |tree.patterns[node]| == 1 {
      var c :| c in tree.patterns[node];
      OnlyKey(tree.patterns[node], c);
      var rest := CreateRegexPattern(tree, tree.patterns[node][c], depth + 1, maxLength);
      return [c] + rest;
    }
    var alternatives: seq<string> := [];
    var keys := SortedChars(tree.patterns[node].Keys);
    ghost var all := Alternatives(tree.patterns, tree.blocked, node, depth, maxLength);
    for k := 0 to |keys|
      invariant alternatives == all[..k]
    {
      var sub := CreateRegexPattern(tree, tree.patterns[node][keys[k]], depth + 1, maxLength);
      SliceExtend(alternatives, all, k, [keys[k]] + sub);
      alternatives := alternatives + [[keys[k]] + sub];
    }
    SliceAll(all);
    return "(" + Join(alternatives, '|') + ")";
  }

  /** A blocked node below the depth limit never gives the `.*` shortcut: its pattern is `()` for
      a leaf, starts with its one edge character for a single child, and with `(` otherwise. */
  lemma BlockedPatternShape(e: Edges, b: seq<bool>, i: nat, depth: int, maxLength: int)
    requires Forward(e) && |b| == |e| && i < |e|
    requires b[i] && depth != maxLength
    ensures var r := RegexPattern(e, b, i, depth, maxLength);
            && (e[i] == map[] ==> r == "()")
            && (|e[i]| == 1 ==> r[0] in e[i])
            && (|e[i]| > 1 ==> r[0] == '(' && r[|r| - 1] == ')')
  {
    var r := RegexPattern(e, b, i, depth, maxLength);
    if |e[i]| == 1 {
      var c := Min(e[i].Keys);
      var rest := RegexPattern(e, b, e[i][c], depth + 1, maxLength);
      assert r == [c] + rest;
    }
  }

  /** In a tree holding exactly `words` with every leaf terminal, an edge out of the root is the
      first character of an accepted word. */
  lemma RootEdgeStartsWord(e: Edges, t: seq<bool>, words: seq<string>, c: char)
    requires IsTree(e) && |t| == |e| && LeavesEndWords(e, t)
    requires forall u :: Accepts(e, t, u) <==> u in words
    requires c in e[0]
    ensures exists w :: w in words && w != [] && w[0] == c
  {
    var child := e[0][c];
    EveryNodeReachesTerminal(e, t, child);
    CanReachTerminalMeaning(e, t, child);
    var v :| EndsOnFlag(e, t, child, v);
    WalkFirst(e, 0, c, v);
    assert Accepts(e, t, [c] + v);
    assert ([c] + v)[0] == c;
  }

  /** `generate_pattern`: `()` without accepted words; otherwise build the tree, gather every
      prefix of the rejected words, mark the nodes whose path is one, and write the pattern from
      the root. The ghost `tree` is the marked tree. */
  method GeneratePattern(acceptWords: seq<string>, rejectWords: seq<string>, wordLength: int)
    returns (pattern: string, ghost tree: WordTree?)
    ensures acceptWords == [] ==> pattern == "()" && tree == null
    ensures acceptWords != [] ==> tree != null && tree.Valid()
    ensures tree != null ==> forall u :: Accepts(tree.patterns, tree.isTerminal, u) <==> u in acceptWords
    ensures tree != null ==> forall j :: 0 <= j < |tree.blocked| ==>
              (tree.blocked[j] <==> exists u :: Walk(tree.patterns, 0, u) == Some(j) && PrefixOfSome(u, rejectWords))
    ensures tree != null ==> pattern == RegexPattern(tree.patterns, tree.blocked, 0, 0, wordLength)
    ensures acceptWords != [] && rejectWords == [] ==> pattern == if wordLength == 0 then "" else ".*"
    ensures acceptWords != [] && rejectWords != [] && wordLength != 0 ==>
              || (pattern == "()" && forall w :: w in acceptWords ==> w == [])
              || pattern[0] == '('
              || exists w :: w in acceptWords && w != [] && w[0] == pattern[0]
  {
    if acceptWords == [] {
      return "()", null;
    }
    var wordTree := BuildWordTree(acceptWords);
    var blocked := GatherBlockedPatterns(rejectWords);
    MarkBlockedPaths(wordTree, 0, "", blocked);
    tree := wordTree;
    ghost var e, b := wordTree.patterns, wordTree.blocked;
    forall j | 0 <= j < |b|
      ensures b[j] <==> exists u :: Walk(e, 0, u) == Some(j) && PrefixOfSome(u, rejectWords)
    {
      MarkedFromRoot(e, blocked, j);
    }
    pattern := CreateRegexPattern(wordTree, 0, 0, wordLength);
    if rejectWords == [] {
      assert !b[0];
    } else if wordLength != 0 {
      assert PrefixOfSome("", rejectWords) by {
        assert rejectWords[0] in rejectWords && "" <= rejectWords[0];
      }
      assert Walk(e, 0, "") == Some(0);
      assert b[0];
      BlockedPatternShape(e, b, 0, 0, wordLength);
      if |e[0]| == 1 {
        RootEdgeStartsWord(e, wordTree.isTerminal, acceptWords, pattern[0]);
      } else if e[0] == map[] {
        forall w | w in acceptWords ensures w == [] {
          ChildlessRoot(e, wordTree.isTerminal, w);
        }
      }
    }
  }
}
