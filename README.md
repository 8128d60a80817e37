# Trie-based pattern synthesis, modelled in Dafny

The repository turns a list of accepted words (and a list of rejected words) into a
regex-like pattern string, in two independent implementations:

- `src/ex.cpp` builds a prefix trie (`TrieNode`, `insertWord`) of the accepted words and writes
  it bottom-up as a pattern (`buildRegexFromTrie`). Within a node, child edge characters whose
  sub-patterns coincide are merged into one character class. A sub-pattern that can still end a
  word is followed by `.*`. A node that ends a word ORs in `()`. `main` outputs `()` when there
  are no accepted words. It falls back to the literal alternation `(w1|...|wN)` when the exact
  trie recognises a rejected word (`recognizedByTrie`). Otherwise it outputs the trie pattern.
- `src/ex.py` builds the same kind of tree (`WordTree`, `build_word_tree`). It gathers every
  prefix of the rejected words (`gather_blocked_patterns`) and flags the tree nodes whose root
  path is one of them (`mark_blocked_paths`). Then it writes a depth-limited pattern
  (`create_regex_pattern`) that gives up with `.*` at the first unflagged node.

Both trees are modelled as arenas inside one object: node `j` is index `j` of parallel
sequences. The root is index 0 and `e[j]` maps an edge character to the index of a child.
Every edge points further along the arena and no node has two parents (`Arena.IsTree`).
`Arena.Walk` follows a string from a node, and `Arena.Accepts` is exact membership of a word.
The C++ trie is the class `PrefixTrie.Trie` (`children`, `terminal`). The Python tree is the
class `WordTrees.WordTree` (`patterns`, `isTerminal`, `blocked`). Each method that updates
nodes in place updates these fields. Each pattern writer is proved equal to a recursive
specification function: `TrieRegex.Render` for the C++ code and `WordRegex.RegexPattern` for
the Python code. The properties of the patterns are proved about those functions.

`unordered_map` iteration order is not fixed by the C++ code. The model visits the children of
a node in ascending character order. It visits the groups of `patternMap` in the order their
fragment first appears. Some of the grouping facts hold for any visiting order:
- which fragments get a group (`TrieRegex.GroupKeys`);
- which characters each group holds (`TrieRegex.GroupMember`), so each character has exactly one class;
- that no fragment is listed twice (`TrieRegex.GroupOrderDistinct`);
- the rendered class of each group, since `CharClass` reads only the set of its characters
  (`TrieRegex.GroupCharsAnyOrder`).

Other facts come from the ascending visit order:
- that each group is pushed already sorted and free of duplicates (`TrieRegex.GroupsAscending`,
  the ascending clause of `TrieRegex.GroupMeaning`, `TrieRegex.ClassesAscending`);
- the order of the branches.

Python's `mark_blocked_paths` is also modelled in ascending order; its result does not depend
on the order.

Modules: `Chars` (sorting a set of characters, joining), `Arena` (the tree shape, walks,
insertion steps), `PrefixTrie`, `TrieRegex`, `TrieMain` (C++), `WordTrees`, `BlockedPaths`,
`WordRegex` (Python).

## Model

| member | source | states |
|---|---|---|
| PrefixTrie.Trie.constructor | src/ex.cpp:9-16 | a new node has no children and is not terminal, so the trie holds no word |
| PrefixTrie.Trie.InsertWord | src/ex.cpp:19-29 | afterwards the trie holds exactly the words it held before plus `word`; inserting a word already held leaves children and flags exactly as they were (idempotent); every childless non-root node stays terminal |
| PrefixTrie.Trie.RecognizedByTrie | src/ex.cpp:32-42 | the answer is exact membership: true iff the walk along `word` exists and ends on a terminal node; the trie is only read |
| Arena.InsertStart | src/ex.cpp:19-20 | the insertion walk starts at the root of the unchanged trie |
| Arena.InsertNew | src/ex.cpp:22-25 | creating a missing child keeps the arena a tree, keeps every old walk and flag, and the new node is where the prefix read so far leads |
| Arena.InsertExisting | src/ex.cpp:21-25 | following an existing edge moves to the node of the one-longer prefix and changes nothing |
| Arena.InsertDone | src/ex.cpp:27-28 | setting the terminal flag at the end adds exactly the inserted word to the words held, and nothing else; if the word was already held, the trie is unchanged |
| Arena.MissingEdge | src/ex.cpp:34-36 | a word whose walk stops at a missing edge is not held, before or after the trie has grown |
| Arena.WalkInjective | src/ex.cpp:19-29 | in a trie built by insertion, different strings lead to different nodes: each node has one root path |
| Arena.ChildlessRoot | src/ex.cpp:19-29 | if the root has no children, the only word the trie can hold is the empty word, so a trie holding a word has a child at the root or a terminal root |
| PrefixTrie.CanReachTerminal | src/ex.cpp:48-56 | the recursive test `canReachTerminal`; its meaning is stated by `PrefixTrie.CanReachTerminalMeaning` |
| PrefixTrie.CanReachTerminalMeaning | src/ex.cpp:48-56 | `canReachTerminal` holds at a node exactly when some continuation from that node ends on a terminal node |
| PrefixTrie.EveryNodeReachesTerminal | src/ex.cpp:23-28 | in a trie whose leaves are all terminal and which holds a word, `canReachTerminal` holds at every node |
| TrieRegex.FragmentsEndInWildcard | src/ex.cpp:89-95 | in such a trie, every child fragment ends in `.*` |
| TrieRegex.BuildRegexFromTrie | src/ex.cpp:65-170 | the returned string is `Render` of the node; the trie is only read |
| TrieRegex.GroupChildren | src/ex.cpp:82-99 | after the children's loop, the order of fragments and `patternMap` are the grouping of the children's characters by their fragment (`.*` added when a word can end below) |
| TrieRegex.GroupKeys | src/ex.cpp:82-99 | for any visiting order, the groups after the loop are keyed by exactly the fragments met |
| TrieRegex.GroupMember | src/ex.cpp:98 | for any visiting order, a group holds exactly the characters pushed under its fragment |
| TrieRegex.GroupOrderDistinct | src/ex.cpp:98 | for any visiting order, no fragment opens two groups |
| TrieRegex.GroupCharsAnyOrder | src/ex.cpp:98-124 | for any visiting order, the set of characters of a group, which is all its class is rendered from, is the set of edge characters whose child has that fragment |
| TrieRegex.GroupMeaning | src/ex.cpp:82-99 | the groups are keyed by exactly the fragments that occur; a character is in a group iff its fragment is that group's key; each group is strictly ascending; no fragment is listed twice |
| TrieRegex.ClassOfChild | src/ex.cpp:98 | each child edge character is in the group of its own child's fragment and in no other group |
| TrieRegex.GroupOfFragment | src/ex.cpp:82-99 | a fragment has a group iff it is the fragment of some child |
| TrieRegex.ClassesAscending | src/ex.cpp:109-124 | within a class the characters are strictly ascending, so sorting and `unique` leave it as it is; brackets are used iff the class has two or more characters |
| TrieRegex.RenderEmptyIff | src/ex.cpp:69-166 | the pattern is `""` exactly for a childless node; a node with children has a non-empty combination, so the `combined.empty()` case is unreachable |
| TrieRegex.BranchParenthesisedIff | src/ex.cpp:126-142 | a branch is class + `(` + fragment + `)` iff the fragment contains a vertical bar; an empty fragment leaves the class alone; a branch always starts with its class |
| TrieRegex.RenderBranches | src/ex.cpp:102-145 | one branch per group, in the order of the groups |
| TrieRegex.RenderBranch | src/ex.cpp:109-142 | the branch of one group is the `Branch` of its fragment and characters |
| TrieRegex.RenderCharClass | src/ex.cpp:109-124 | the class written is the characters sorted without duplicates: a lone literal for one, bracketed for several |
| TrieRegex.CombineBranches | src/ex.cpp:147-158 | one branch is returned verbatim; several are joined by a vertical bar inside one pair of parentheses |
| Chars.SortedChars | src/ex.cpp:109-111 | the result is strictly ascending and holds exactly the characters of the set |
| Chars.SortedCharsLength | src/ex.cpp:109-111 | the result has one entry per distinct character |
| Chars.SortedOfAscending | src/ex.cpp:109-111 | sorting and deduplicating a strictly ascending sequence gives it back |
| TrieMain.GenerateRegex | src/ex.cpp:191-233 | no accepted words gives `()`; otherwise the trie holds exactly the accepted words; if a rejected word is also accepted, the result is the literal alternation; otherwise it is the trie pattern, with `()` in place of an empty one; the result is never empty |
| TrieMain.BuildTrie | src/ex.cpp:198-201 | the trie built holds exactly the accepted words |
| TrieMain.HasConflict | src/ex.cpp:206-214 | a conflict is found iff some rejected word is recognised, which is iff some rejected word is also an accepted word |
| TrieMain.LiteralAlternation | src/ex.cpp:218-225 | the output is `(`, the accepted words joined by a vertical bar in input order, `)` |
| TrieMain.Literal | src/ex.cpp:218-225 | for a non-empty list of accepted words, none of which contains a vertical bar, cutting the text between the outer parentheses at every vertical bar gives back exactly the accepted words, each once and in input order |
| Chars.SplitJoin | src/ex.cpp:218-225 | splitting the join of a non-empty list of parts that contain no separator gives back the list |
| WordTrees.WordTree.CreateEmpty | src/ex.py:14-16 | a new node has no children and is neither terminal nor blocked, so the tree holds no word |
| WordTrees.WordTree.AddWord | src/ex.py:30-37 | afterwards the tree holds exactly the words it held plus `word`; no existing node becomes blocked and every new node is unblocked |
| WordTrees.BuildWordTree | src/ex.py:25-38 | an empty list gives `None`; otherwise the tree holds exactly the given words and no node is blocked |
| BlockedPaths.GatherBlockedPatterns | src/ex.py:40-48 | the set is exactly the prefixes of the given words, including `""` and each whole word; no words give the empty set |
| BlockedPaths.MarkBlockedPaths | src/ex.py:50-56 | children and terminal flags are untouched, no flag is cleared, and a node below `node` becomes blocked iff `current` plus its path from `node` is in the set |
| BlockedPaths.MarkedFromRoot | src/ex.py:50-56 | marking from the root with the empty path blocks a node iff its root path is in the set |
| WordRegex.RegexPattern | src/ex.py:58-81 | the pattern is empty exactly at the depth limit |
| WordRegex.CreateRegexPattern | src/ex.py:58-81 | the returned string is `RegexPattern` of the node: `""` at the depth limit, `.*` at an unblocked node, `()` at a blocked leaf, the edge character then the child's pattern for one child, else the alternation of `char + pattern` in ascending character order; the tree is only read |
| WordRegex.BlockedPatternShape | src/ex.py:60-81 | a blocked node below the depth limit does not take the `.*` shortcut: a leaf gives `()`, a single child gives a pattern starting with its edge character, several children give a parenthesised pattern |
| WordRegex.RootEdgeStartsWord | src/ex.py:71-73 | in a tree holding exactly the accepted words, each root edge character is the first character of an accepted word |
| WordRegex.GeneratePattern | src/ex.py:83-97 | no accepted words gives `()`; otherwise the marked tree holds exactly the accepted words, blocks a node iff its root path is a prefix of a rejected word, and the result is the tree's pattern from the root at depth 0; with no rejected words the result is `.*` (or `""` for length 0); with rejected words and a length other than 0 the root is blocked, so the result is `()` when only the empty word is accepted, starts with `(`, or starts with the first character of an accepted word |

## Left out

- File input and output are not modelled: `main` reading `input.txt`, writing `output.txt` and the `regex` header line, and Python's `process_text_file` and `main`. The word lists and the length are parameters, and the pattern line is the result.
- Heap nodes, pointers, `new TrieNode()` and the memory that is never freed are modelled by the arena. Sharing of nodes cannot arise in the source either, and `Arena.IsTree` rules it out.
- The iteration order of `unordered_map` in `buildRegexFromTrie` is fixed as described above. The source leaves the order of branches unspecified. The exact string `TrieRegex.Render` describes is therefore one of the strings the C++ code can produce.
- The patterns are not given a regex meaning. Nothing here claims that the patterns match the accepted words or reject the rejected ones. The C++ conflict check tests the exact trie, not the pattern.
- No character escaping is modelled. The source has none.
- Characters are ordered by code point. Whether C++ `char` is signed is not modelled.
- `buildRegexFromTrie` and `main` are split into several methods (`GroupChildren`, `RenderBranches`, `RenderBranch`, `RenderCharClass`, `CombineBranches`, `BuildTrie`, `HasConflict`, `LiteralAlternation`). Each one is one loop or one step of the original function.
- The second `if not word_tree` test of `generate_pattern` (src/ex.py:89-90) is not modelled. After the non-empty check, `build_word_tree` always returns a tree.
- The tree Python builds is returned by `GeneratePattern` only as a ghost result, so that the contract can describe it.
- Bytes versus characters: a C++ `std::string` is a sequence of bytes, and `insertWord`, `recognizedByTrie` and the class sort work byte by byte. A word with a non-ASCII character is one trie edge per byte in C++ but one `char` in this model. For example, accepting `é` and `è` gives C++ a common first byte followed by a two-byte class, but `[èé]` here. The model matches the C++ code for ASCII words only.
- Recursion depth: Python's `mark_blocked_paths` and `create_regex_pattern` recurse once per character, so a word longer than the interpreter's recursion limit (about 1000) raises `RecursionError`. The recursive C++ functions can likewise overflow the stack. The model always returns a pattern.
