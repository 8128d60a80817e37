/** The decision logic of the C++ `main` (src/ex.cpp lines 191-233) without its file input and
    output: the accepted and rejected words are parameters and the line written after the
    `regex` header is the result. */
module TrieMain {
  import opened Arena
  import opened Chars
  import opened PrefixTrie
  import opened TrieRegex

  /** The literal alternation of the accepted words, `src/ex.cpp` lines 218-225: inside one pair
      of parentheses, cutting at every `|` gives back the accepted words, each once and in input
      order, when none of them holds a `|` itself. */
  function Literal(acceptWords: seq<string>): (r: string)
    ensures |r| >= 2 && r[0] == '(' && r[|r| - 1] == ')'
    ensures r[1..|r| - 1] == Join(acceptWords, '|')
    ensures acceptWords != [] && (forall k :: 0 <= k < |acceptWords| ==> '|' !in acceptWords[k]) ==>
              Split(r[1..|r| - 1], '|') == acceptWords
  {
    var r := "(" + Join(acceptWords, '|') + ")";
    assert r[1..|r| - 1] == Join(acceptWords, '|');
    if acceptWords != [] && (forall k :: 0 <= k < |acceptWords| ==> '|' !in acceptWords[k]) then
      SplitJoin(acceptWords, '|');
      r
    else r
  }

  /** The pattern `main` writes: `()` with no accepted word; the literal alternation when a
      rejected word is itself accepted by the exact trie; otherwise the trie pattern, `()` in place
      of an empty one. The ghost `trie` is the exact trie of the accepted words. */
  method GenerateRegex(acceptWords: seq<string>, failWords: seq<string>) returns (pattern: string, ghost trie: Trie?)
    ensures pattern != ""
    ensures acceptWords == [] ==> pattern == "()" && trie == null
    ensures acceptWords != [] ==> trie != null && trie.Valid()
    ensures trie != null ==> forall u :: Accepts(trie.children, trie.terminal, u) <==> u in acceptWords
    ensures acceptWords != [] && (exists fw :: fw in failWords && fw in acceptWords) ==> pattern == Literal(acceptWords)
    ensures trie != null && !(exists fw :: fw in failWords && fw in acceptWords) ==>
              var trieRegex := Render(trie.children, trie.terminal, 0);
              pattern == if trieRegex == "" then "()" else trieRegex
  {
    if |acceptWords| == 0 {
      return "()", null;
    }
    var root := BuildTrie(acceptWords);
    trie := root;
    var trieRegex := BuildRegexFromTrie(root, 0);
    var conflict := HasConflict(root, acceptWords, failWords);
    if conflict {
      pattern := LiteralAlternation(acceptWords);
    } else if trieRegex == "" {
      pattern := "()";
    } else {
      pattern := trieRegex;
    }
  }

  /** `src/ex.cpp` lines 198-201: insert every accepted word into a new root. The trie then holds exactly the
      accepted words. */
  method BuildTrie(acceptWords: seq<string>) returns (root: Trie)
    ensures root.Valid()
    ensures forall u :: Accepts(root.children, root.terminal, u) <==> u in acceptWords
  {
    root := new Trie();
    for k := 0 to |acceptWords|
      invariant root.Valid()
      invariant forall u :: Accepts(root.children, root.terminal, u) <==> u in acceptWords[..k]
    {
      root.InsertWord(acceptWords[k]);
      SliceSnoc(acceptWords, k);
    }
    SliceAll(acceptWords);
  }

  /** `src/ex.cpp` lines 207-214: stop at the first rejected word the trie recognises. Since the trie holds
      exactly the accepted words, a conflict is a word that is both accepted and rejected. */
  method HasConflict(root: Trie, acceptWords: seq<string>, failWords: seq<string>) returns (conflict: bool)
    requires root.Valid()
    requires forall u :: Accepts(root.children, root.terminal, u) <==> u in acceptWords
    ensures conflict <==> exists fw :: fw in failWords && fw in acceptWords
  {
    conflict := false;
    ghost var rejected: string;
    for k := 0 to |failWords|
      invariant !conflict
      invariant forall m :: 0 <= m < k ==> failWords[m] !in acceptWords
    {
      var recognized := root.RecognizedByTrie(failWords[k]);
      if recognized {
        conflict := true;
        rejected := failWords[k];
        break;
      }
    }
    assert conflict ==> rejected in failWords && rejected in acceptWords;
  }

  /** `src/ex.cpp` lines 218-225: `(`, the accepted words separated by `|` in input order, `)`. */
  method LiteralAlternation(acceptWords: seq<string>) returns (pattern: string)
    ensures pattern == Literal(acceptWords)
  {
    pattern := "(";
    for m := 0 to |acceptWords|
      invariant pattern == "(" + Join(acceptWords[..m], '|')
    {
      JoinStep(acceptWords, m, '|');
      if m > 0 {
        pattern := pattern + "|";
      }
      pattern := pattern + acceptWords[m];
    }
    SliceAll(acceptWords);
    pattern := pattern + ")";
  }
}
