/** The C++ pattern synthesiser `buildRegexFromTrie` and the policy of `main` that chooses between
    its pattern and the literal alternation of the accepted words.

    `unordered_map` leaves two orders open; this model fixes both: the children of a node are
    visited in ascending character order, and the groups of `patternMap` are visited in the order
    in which their fragment first appeared, which is the order of the smallest character of each
    group. */
module TrieRegex {
  import opened Arena
  import opened Chars
  import opened PrefixTrie

  /** `patternMap` as it is filled: the distinct fragments in the order they first appear, and
      for each fragment the edge characters that produced it, in the order they were pushed. */
  datatype Grouping<F> = Grouping(order: seq<F>, chars: map<F, seq<char>>)

  /** `patternMap[f].push_back(c)`: a new fragment starts an empty group first. */
  function PushBack<F(!new)>(g: Grouping<F>, f: F, c: char): Grouping<F>
  {
    if f in g.chars then Grouping(g.order, g.chars[f := g.chars[f] + [c]])
    else Grouping(g.order + [f], g.chars[f := [c]])
  }

  /** The grouping after the first `n` pushes of the children's loop: for each `k < n`, the
      character `keys[k]` under the fragment `frags[k]`. */
  function Group<F(!new)>(keys: seq<char>, frags: seq<F>, n: nat): (g: Grouping<F>)
    requires |keys| == |frags| && n <= |keys|
    ensures forall f :: f in g.chars <==> f in g.order
    ensures forall f :: f in g.chars ==> g.chars[f] != []
  {
    if n == 0 then Grouping([], map[])
    else PushBack(Group(keys, frags, n - 1), frags[n - 1], keys[n - 1])
  }

  /** `src/ex.cpp` lines 109-124: sort and deduplicate a group's characters; one character stays a literal,
      several become a bracketed class. */
  function CharClass(cs: seq<char>): (r: string)
    ensures r != []
  {
    var sorted := SortedChars(Elements(cs));
    if |sorted| == 1 then [sorted[0]] else "[" + sorted + "]"
  }

  /** `src/ex.cpp` lines 126-142: the class followed by its fragment, parenthesised when the fragment holds
      an alternation. */
  function Branch(sub: string, cs: seq<char>): (r: string)
    ensures r != []
  {
    var charClass := CharClass(cs);
    if sub != "" then
      if '|' in sub then charClass + "(" + sub + ")" else charClass + sub
    else charClass
  }

  /** One branch per group, in the order of the groups. */
  function Branches(g: Grouping<string>): (bs: seq<string>)
    requires forall f :: f in g.order ==> f in g.chars
    ensures |bs| == |g.order|
  {
    seq(|g.order|, j requires 0 <= j < |g.order| => Branch(g.order[j], g.chars[g.order[j]]))
  }

  /** `src/ex.cpp` lines 147-158: a single branch as it is, several joined by `|` inside one pair of
      parentheses. */
  function Combine(branches: seq<string>): string
  {
    if |branches| == 1 then branches[0] else "(" + Join(branches, '|') + ")"
  }

  /** `src/ex.cpp` lines 160-169: a node that ends a word also allows stopping there, as the option `()`. */
  function WithTerminalOption(combined: string, terminal: bool): string
  {
    if terminal then
      if combined == "" then "()" else "(" + combined + "|()" + ")"
    else combined
  }

  /** The pattern `buildRegexFromTrie` returns for node `i`. */
  function Render(e: Edges, t: seq<bool>, i: nat): string
    requires Forward(e) && |t| == |e| && i < |e|
    decreases |e| - i, 2
  {
    if e[i] == map[] then ""
    else
      var keys := SortedChars(e[i].Keys);
      var g := Group(keys, ChildRegexes(e, t, i), |keys|);
      WithTerminalOption(Combine(Branches(g)), t[i])
  }

  /** The fragments of the children of node `i`, in ascending order of their edge characters. */
  function ChildRegexes(e: Edges, t: seq<bool>, i: nat): (r: seq<string>)
    requires Forward(e) && |t| == |e| && i < |e|
    ensures |r| == |SortedChars(e[i].Keys)|
    decreases |e| - i, 1
  {
    var keys := SortedChars(e[i].Keys);
    seq(|keys|, m requires 0 <= m < |keys| => ChildRegex(e, t, e[i][keys[m]]))
  }

  /** `src/ex.cpp` lines 89-95: a child's own pattern, followed by `.*` when a word can still end in it. */
  function ChildRegex(e: Edges, t: seq<bool>, child: nat): string
    requires Forward(e) && |t| == |e| && child < |e|
    decreases |e| - child, 3
  {
    Render(e, t, child) + (if CanReachTerminal(e, t, child) then ".*" else "")
  }

  /** What grouping means: the groups are keyed by exactly the fragments that occur, each group
      holds exactly the characters whose fragment is its key, every character lands in one group,
      and since the characters are pushed in ascending order every group is already sorted and
      free of duplicates. */
  lemma GroupMeaning<F(!new)>(keys: seq<char>, frags: seq<F>)
    requires |keys| == |frags| && StrictlyAscending(keys)
    ensures forall f :: f in Group(keys, frags, |keys|).chars <==> f in frags
    ensures forall f, c :: f in Group(keys, frags, |keys|).chars ==>
              (c in Group(keys, frags, |keys|).chars[f] <==> exists k :: 0 <= k < |keys| && keys[k] == c && frags[k] == f)
    ensures forall f :: f in Group(keys, frags, |keys|).chars ==> StrictlyAscending(Group(keys, frags, |keys|).chars[f])
    ensures forall a, b :: 0 <= a < b < |Group(keys, frags, |keys|).order| ==>
              Group(keys, frags, |keys|).order[a] != Group(keys, frags, |keys|).order[b]
  {
    var g := Group(keys, frags, |keys|);
    GroupKeys(keys, frags, |keys|);
    forall f ensures f in g.chars <==> f in frags {
      if f in frags {
        var k :| 0 <= k < |frags| && frags[k] == f;
      }
    }
    forall f, c | f in g.chars
      ensures c in g.chars[f] <==> exists k :: 0 <= k < |keys| && keys[k] == c && frags[k] == f
    {
      GroupMember(keys, frags, |keys|, f, c);
    }
    GroupsAscending(keys, frags, |keys|);
    GroupOrderDistinct(keys, frags, |keys|);
  }

  /** After `n` pushes the groups are keyed by exactly the first `n` fragments. */
  lemma {:induction false} GroupKeys<F(!new)>(keys: seq<char>, frags: seq<F>, n: nat)
    requires |keys| == |frags| && n <= |keys|
    ensures forall f :: f in Group(keys, frags, n).chars <==> exists k :: 0 <= k < n && frags[k] == f
  {
    if n > 0 {
      GroupKeys(keys, frags, n - 1);
      var g := Group(keys, frags, n);
      forall f ensures f in g.chars <==> exists k :: 0 <= k < n && frags[k] == f {
        if f == frags[n - 1] {
          assert 0 <= n - 1 < n && frags[n - 1] == f;
        }
      }
    }
  }

  /** One push adds `f` to the keys and `c` to the group of `f`, and leaves every other group
      as it was. */
  lemma PushBackMember<F(!new)>(g: Grouping<F>, f: F, c: char, f0: F, c0: char)
    ensures f0 in PushBack(g, f, c).chars <==> f0 in g.chars || f0 == f
    ensures f0 in PushBack(g, f, c).chars ==>
              (c0 in PushBack(g, f, c).chars[f0] <==> (f0 in g.chars && c0 in g.chars[f0]) || (f0 == f && c0 == c))
  {
  }

  /** After `n` pushes, the group of `f0` holds exactly the characters pushed under it. */
  lemma {:induction false} GroupMember<F(!new)>(keys: seq<char>, frags: seq<F>, n: nat, f0: F, c0: char)
    requires |keys| == |frags| && n <= |keys| && f0 in Group(keys, frags, n).chars
    ensures c0 in Group(keys, frags, n).chars[f0] <==> exists k :: 0 <= k < n && keys[k] == c0 && frags[k] == f0
  {
    if n > 0 {
      var g' := Group(keys, frags, n - 1);
      PushBackMember(g', frags[n - 1], keys[n - 1], f0, c0);
      if f0 in g'.chars {
        GroupMember(keys, frags, n - 1, f0, c0);
      } else {
        GroupKeys(keys, frags, n - 1);
      }
      if k :| 0 <= k < n && keys[k] == c0 && frags[k] == f0 {
        if k < n - 1 {
          assert 0 <= k < n - 1 && keys[k] == c0 && frags[k] == f0;
          assert f0 in g'.chars by { GroupKeys(keys, frags, n - 1); }
        }
      }
      if k :| 0 <= k < n - 1 && keys[k] == c0 && frags[k] == f0 {
        assert 0 <= k < n && keys[k] == c0 && frags[k] == f0;
      }
      if keys[n - 1] == c0 && frags[n - 1] == f0 {
        assert 0 <= n - 1 < n && keys[n - 1] == c0 && frags[n - 1] == f0;
      }
    }
  }

  /** Since the characters are pushed in ascending order, every group is ascending. */
  lemma {:induction false} GroupsAscending<F(!new)>(keys: seq<char>, frags: seq<F>, n: nat)
    requires |keys| == |frags| && n <= |keys| && StrictlyAscending(keys)
    ensures forall f :: f in Group(keys, frags, n).chars ==> StrictlyAscending(Group(keys, frags, n).chars[f])
  {
    if n > 0 {
      GroupsAscending(keys, frags, n - 1);
      var g' := Group(keys, frags, n - 1);
      var c, f := keys[n - 1], frags[n - 1];
      if f in g'.chars {
        var s := g'.chars[f];
        forall j | 0 <= j < |s| ensures s[j] < c {
          GroupMember(keys, frags, n - 1, f, s[j]);
          var k :| 0 <= k < n - 1 && keys[k] == s[j] && frags[k] == f;
          assert InOrder(keys, k, n - 1);
        }
        SnocAscending(s, c);
      } else {
        assert StrictlyAscending([c]) by {
          forall j, k ensures InOrder([c], j, k) { }
        }
      }
    }
  }

  /** Whatever order the children are visited in, the characters of a group are those whose
      child has that fragment; `CharClass` reads only this set, so the class of each group does
      not depend on the visiting order. */
  lemma GroupCharsAnyOrder<F(!new)>(keys: seq<char>, frags: seq<F>, f: F)
    requires |keys| == |frags| && f in Group(keys, frags, |keys|).chars
    ensures Elements(Group(keys, frags, |keys|).chars[f]) == set k | 0 <= k < |keys| && frags[k] == f :: keys[k]
  {
    var cs := Group(keys, frags, |keys|).chars[f];
    forall c ensures c in cs <==> exists k :: 0 <= k < |keys| && keys[k] == c && frags[k] == f {
      GroupMember(keys, frags, |keys|, f, c);
    }
    CharsOfGroup(keys, frags, f, cs);
  }

  /** A sequence holding exactly the keys with fragment `f` has those keys as its elements. */
  lemma CharsOfGroup<F(!new)>(keys: seq<char>, frags: seq<F>, f: F, cs: seq<char>)
    requires |keys| == |frags|
    requires forall c :: c in cs <==> exists k :: 0 <= k < |keys| && keys[k] == c && frags[k] == f
    ensures Elements(cs) == set k | 0 <= k < |keys| && frags[k] == f :: keys[k]
  {
  }

  /** No fragment opens two groups. */
  lemma {:induction false} GroupOrderDistinct<F(!new)>(keys: seq<char>, frags: seq<F>, n: nat)
    requires |keys| == |frags| && n <= |keys|
    ensures forall a, b :: 0 <= a < b < |Group(keys, frags, n).order| ==> Group(keys, frags, n).order[a] != Group(keys, frags, n).order[b]
  {
    if n > 0 {
      GroupOrderDistinct(keys, frags, n - 1);
      var g' := Group(keys, frags, n - 1);
      if frags[n - 1] !in g'.chars {
        forall a | 0 <= a < |g'.order| ensures g'.order[a] != frags[n - 1] {
          assert g'.order[a] in g'.order;
        }
      }
    }
  }

  /** With distinct keys, the key at `k` is in the group of fragment `f` exactly when `f` is the
      fragment at `k`; and the group of that fragment exists. */
  lemma GroupOfKey<F(!new)>(keys: seq<char>, frags: seq<F>, k: nat)
    requires |keys| == |frags| && StrictlyAscending(keys) && k < |keys|
    ensures frags[k] in Group(keys, frags, |keys|).chars
    ensures var g := Group(keys, frags, |keys|);
            forall f :: f in g.chars ==> (keys[k] in g.chars[f] <==> f == frags[k])
  {
    GroupMeaning(keys, frags);
    var g := Group(keys, frags, |keys|);
    forall f | f in g.chars ensures keys[k] in g.chars[f] <==> f == frags[k] {
      if keys[k] in g.chars[f] {
        var k' :| 0 <= k' < |keys| && keys[k'] == keys[k] && frags[k'] == f;
        AscendingDistinct(keys, k', k);
      } else {
        assert !(0 <= k < |keys| && keys[k] == keys[k] && frags[k] == f);
      }
    }
  }

  /** Every child edge character lands in exactly one character class: the one of the group
      keyed by its child's fragment. */
  lemma ClassOfChild(e: Edges, t: seq<bool>, i: nat, c: char)
    requires Forward(e) && |t| == |e| && i < |e| && c in e[i]
    ensures var keys := SortedChars(e[i].Keys);
            var g := Group(keys, ChildRegexes(e, t, i), |keys|);
            && ChildRegex(e, t, e[i][c]) in g.chars
            && forall f :: f in g.chars ==> (c in g.chars[f] <==> f == ChildRegex(e, t, e[i][c]))
  {
    var keys := SortedChars(e[i].Keys);
    var frags := ChildRegexes(e, t, i);
    assert c in keys;
    var k :| 0 <= k < |keys| && keys[k] == c;
    GroupOfKey(keys, frags, k);
    assert frags[k] == ChildRegex(e, t, e[i][c]);
  }

  /** The groups are keyed by exactly the fragments of the children. */
  lemma GroupOfFragment(e: Edges, t: seq<bool>, i: nat, f: string)
    requires Forward(e) && |t| == |e| && i < |e|
    ensures var keys := SortedChars(e[i].Keys);
            var g := Group(keys, ChildRegexes(e, t, i), |keys|);
            f in g.chars <==> exists c :: c in e[i] && f == ChildRegex(e, t, e[i][c])
  {
    var keys := SortedChars(e[i].Keys);
    var frags := ChildRegexes(e, t, i);
    GroupMeaning(keys, frags);
    if f in Group(keys, frags, |keys|).chars {
      var k :| 0 <= k < |frags| && frags[k] == f;
      assert keys[k] in keys;
      assert keys[k] in e[i] && f == ChildRegex(e, t, e[i][keys[k]]);
    }
    if c :| c in e[i] && f == ChildRegex(e, t, e[i][c]) {
      ClassOfChild(e, t, i, c);
    }
  }

  /** Within a class the characters are ascending with no duplicates, already as pushed, so
      sorting and deduplicating leaves each group as it is; a group is rendered as a lone literal
      exactly when it holds one character, and otherwise in brackets. */
  lemma ClassesAscending(e: Edges, t: seq<bool>, i: nat)
    requires Forward(e) && |t| == |e| && i < |e|
    ensures var keys := SortedChars(e[i].Keys);
            var g := Group(keys, ChildRegexes(e, t, i), |keys|);
            forall f :: f in g.chars ==>
              && StrictlyAscending(g.chars[f])
              && CharClass(g.chars[f]) == (if |g.chars[f]| == 1 then g.chars[f] else "[" + g.chars[f] + "]")
  {
    var keys := SortedChars(e[i].Keys);
    var frags := ChildRegexes(e, t, i);
    var g := Group(keys, frags, |keys|);
    GroupMeaning(keys, frags);
    forall f | f in g.chars
      ensures CharClass(g.chars[f]) == (if |g.chars[f]| == 1 then g.chars[f] else "[" + g.chars[f] + "]")
    {
      SortedOfAscending(g.chars[f]);
    }
  }

  /** `buildRegexFromTrie` returns "" exactly for a childless node; a node with children always
      has a non-empty combined pattern, so the `combined.empty()` case of `src/ex.cpp` lines 162-163 never
      happens. */
  lemma RenderEmptyIff(e: Edges, t: seq<bool>, i: nat)
    requires Forward(e) && |t| == |e| && i < |e|
    ensures Render(e, t, i) == "" <==> e[i] == map[]
    ensures e[i] != map[] ==>
              var keys := SortedChars(e[i].Keys);
              Combine(Branches(Group(keys, ChildRegexes(e, t, i), |keys|))) != ""
  {
    if e[i] != map[] {
      var keys := SortedChars(e[i].Keys);
      var g := Group(keys, ChildRegexes(e, t, i), |keys|);
      var c :| c in e[i];
      assert c in keys;
      assert |keys| > 0 && g.order != [];
      var bs := Branches(g);
      assert bs[0] == Branch(g.order[0], g.chars[g.order[0]]);
      assert bs[0] != "";
    }
  }

  /** In a trie holding at least one word, every child can still reach the end of a word, so
      every fragment a node groups ends in `.*` (`src/ex.cpp` lines 93-95). */
  lemma FragmentsEndInWildcard(e: Edges, t: seq<bool>, i: nat, c: char)
    requires Forward(e) && |t| == |e| && i < |e| && c in e[i]
    requires LeavesEndWords(e, t) && (e[0] != map[] || t[0])
    ensures var f := ChildRegex(e, t, e[i][c]); |f| >= 2 && f[|f| - 2..] == ".*"
  {
    EveryNodeReachesTerminal(e, t, e[i][c]);
  }

  /** `src/ex.cpp` lines 127-142: a branch wraps its fragment in parentheses exactly when the fragment holds
      `|`; a branch with an empty fragment is its class alone. */
  lemma BranchParenthesisedIff(sub: string, cs: seq<char>)
    ensures Branch(sub, cs) == CharClass(cs) + "(" + sub + ")" <==> '|' in sub
    ensures sub == "" ==> Branch(sub, cs) == CharClass(cs)
    ensures CharClass(cs) <= Branch(sub, cs)
  {
    var r := Branch(sub, cs);
    if '|' !in sub {
      assert |r| < |CharClass(cs) + "(" + sub + ")"|;
    }
  }

  /** `patternMap[f]` default-constructs an empty group for a new fragment, and `push_back` then
      appends to it: together that is `PushBack`. */
  lemma PushBackInPlace<F(!new)>(g: Grouping<F>, f: F, c: char)
    ensures var m := if f in g.chars then g.chars else g.chars[f := []];
            var o := if f in g.chars then g.order else g.order + [f];
            Grouping(o, m[f := m[f] + [c]]) == PushBack(g, f, c)
  {
    if f !in g.chars {
      var empty: seq<char> := [];
      assert empty + [c] == [c];
      assert g.chars[f := empty][f := empty + [c]] == g.chars[f := [c]];
    }
  }

  /** `buildRegexFromTrie`: a childless node gives "", any other node the alternation of its
      groups, with the option `()` when a word ends there. It returns the pattern `Render`
      describes, and only reads the trie. */
  method BuildRegexFromTrie(trie: Trie, node: nat) returns (regex: string)
    requires trie.Valid() && node < |trie.children|
    ensures regex == Render(trie.children, trie.terminal, node)
    decreases |trie.children| - node, 1
  {
    if trie.children[node] == map[] {
      return "";
    }
    var hasTerminalOption := trie.terminal[node];
    var order, patternMap := GroupChildren(trie, node);
    var branches := RenderBranches(order, patternMap);
    var combined := CombineBranches(branches);
    if hasTerminalOption {
      if combined == "" {
        return "()";
      } else {
        return "(" + combined + "|()" + ")";
      }
    }
    return combined;
  }

  /** `src/ex.cpp` lines 82-98: the fragment of every child, with `.*` when a word can end below it, and
      `patternMap[childRegex].push_back(c)` for its edge character `c`. */
  method GroupChildren(trie: Trie, node: nat) returns (order: seq<string>, patternMap: map<string, seq<char>>)
    requires trie.Valid() && node < |trie.children|
    ensures var keys := SortedChars(trie.children[node].Keys);
            Grouping(order, patternMap) == Group(keys, ChildRegexes(trie.children, trie.terminal, node), |keys|)
    decreases |trie.children| - node, 0
  {
    var keys := SortedChars(trie.children[node].Keys);
    ghost var frags := ChildRegexes(trie.children, trie.terminal, node);
    order, patternMap := [], map[];
    for k := 0 to |keys|
      invariant Grouping(order, patternMap) == Group(keys, frags, k)
    {
      var c := keys[k];
      var child := trie.children[node][c];
      var childRegex := BuildRegexFromTrie(trie, child);
      if CanReachTerminal(trie.children, trie.terminal, child) {
        childRegex := childRegex + ".*";
      }
      assert childRegex == ChildRegex(trie.children, trie.terminal, child);
      assert frags[k] == ChildRegex(trie.children, trie.terminal, child);
      ghost var before := Grouping(order, patternMap);
      if childRegex !in patternMap {
        order := order + [childRegex];
        patternMap := patternMap[childRegex := []];
      }
      patternMap := patternMap[childRegex := patternMap[childRegex] + [c]];
      PushBackInPlace(before, childRegex, c);
    }
  }

  /** `src/ex.cpp` lines 104-145: one branch per group, in the order of the groups. */
  method RenderBranches(order: seq<string>, patternMap: map<string, seq<char>>) returns (branches: seq<string>)
    requires forall f :: f in order ==> f in patternMap
    ensures branches == Branches(Grouping(order, patternMap))
  {
    ghost var all := Branches(Grouping(order, patternMap));
    branches := [];
    for j := 0 to |order|
      invariant branches == all[..j]
    {
      var branchStr := RenderBranch(order[j], patternMap[order[j]]);
      SliceExtend(branches, all, j, branchStr);
      branches := branches + [branchStr];
    }
    SliceAll(all);
  }

  /** `src/ex.cpp` lines 109-142: the character class of one group followed by its fragment. */
  method RenderBranch(sub: string, cs: seq<char>) returns (branchStr: string)
    ensures branchStr == Branch(sub, cs)
  {
    var charClass := RenderCharClass(cs);
    var needParens := '|' in sub;
    if sub != "" {
      if needParens {
        branchStr := charClass + "(" + sub + ")";
      } else {
        branchStr := charClass + sub;
      }
    } else {
      branchStr := charClass;
    }
  }

  /** `src/ex.cpp` lines 109-124: sort and deduplicate, then a literal for one character and a bracketed
      class for several. */
  method RenderCharClass(cs: seq<char>) returns (charClass: string)
    ensures charClass == CharClass(cs)
  {
    var chars := SortedChars(Elements(cs));
    if |chars| == 1 {
      charClass := [chars[0]];
    } else {
      charClass := "[";
      for m := 0 to |chars|
        invariant charClass == "[" + chars[..m]
      {
        SliceSnoc(chars, m);
        charClass := charClass + [chars[m]];
      }
      SliceAll(chars);
      charClass := charClass + "]";
    }
  }

  /** `src/ex.cpp` lines 147-158: a single branch as it is, several separated by `|` inside parentheses. */
  method CombineBranches(branches: seq<string>) returns (combined: string)
    ensures combined == Combine(branches)
  {
    if |branches| == 1 {
      combined := branches[0];
    } else {
      combined := "(";
      for m := 0 to |branches|
        invariant combined == "(" + Join(branches[..m], '|')
      {
        JoinStep(branches, m, '|');
        if m > 0 {
          combined := combined + "|";
        }
        combined := combined + branches[m];
      }
      SliceAll(branches);
      combined := combined + ")";
    }
  }
}
