/** The shape shared by both prefix trees. A tree of heap nodes is modelled as an arena: node `j`
    is index `j` of a sequence, the root is index 0, and `e[j]` is node `j`'s map from an edge
    character to the index of the child it leads to. */
module Arena {

  datatype Option<T> = None | Some(value: T)

  type Edges = seq<map<char, nat>>

  /** Every edge leads to a node further along the arena, so following edges always ends. */
  ghost predicate Forward(e: Edges)
  {
    forall i, c :: 0 <= i < |e| && c in e[i] ==> i < e[i][c] < |e|
  }

  /** No node is the child of two edges: each node hangs from exactly one parent. */
  ghost predicate UniqueParents(e: Edges)
  {
    forall i, c, j, d :: SameParent(e, i, c, j, d)
  }

  /** If edge `c` of node `i` and edge `d` of node `j` lead to the same node, they are one edge. */
  ghost predicate SameParent(e: Edges, i: int, c: char, j: int, d: char)
  {
    0 <= i < |e| && 0 <= j < |e| && c in e[i] && d in e[j] && e[i][c] == e[j][d] ==> i == j && c == d
  }

  /** A true tree with a root: no sharing and no cycles. */
  ghost predicate IsTree(e: Edges)
  {
    |e| > 0 && Forward(e) && UniqueParents(e)
  }

  /** The node reached from node `i` by following the characters of `u` one edge at a time, or
      None at the first missing edge. Defined on the last character, so that a loop extending a
      prefix by one character takes one step. */
  function Walk(e: Edges, i: nat, u: string): (r: Option<nat>)
    requires Forward(e) && i < |e|
    ensures r.Some? ==> r.value < |e|
    ensures r.Some? && u != [] ==> i < r.value
    decreases |u|
  {
    if u == [] then Some(i)
    else
      match Walk(e, i, u[..|u| - 1])
      case None => None
      case Some(p) => if u[|u| - 1] in e[p] then Some(e[p][u[|u| - 1]]) else None
  }

  /** One more character is one more edge. */
  lemma WalkStep(e: Edges, i: nat, u: string, c: char)
    requires Forward(e) && i < |e|
    ensures Walk(e, i, u + [c]) ==
      match Walk(e, i, u) case None => None case Some(p) => if c in e[p] then Some(e[p][c]) else None
  {
    assert (u + [c])[..|u|] == u;
  }

  /** Walking `u + v` is walking `u`, then walking `v` from where `u` ended. */
  lemma {:induction false} WalkAppend(e: Edges, i: nat, u: string, v: string)
    requires Forward(e) && i < |e|
    ensures Walk(e, i, u + v) == match Walk(e, i, u) case None => None case Some(j) => Walk(e, j, v)
    decreases |v|
  {
    if v == [] {
      assert u + v == u;
    } else {
      var front := v[..|v| - 1];
      assert (u + v)[..|u + v| - 1] == u + front;
      assert (u + v)[|u + v| - 1] == v[|v| - 1];
      WalkAppend(e, i, u, front);
    }
  }

  /** A walk that exists passes through a node for each of its prefixes. */
  lemma WalkPrefix(e: Edges, i: nat, u: string, k: nat)
    requires Forward(e) && i < |e| && k <= |u|
    ensures Walk(e, i, u).Some? ==> Walk(e, i, u[..k]).Some?
  {
    assert u == u[..k] + u[k..];
    WalkAppend(e, i, u[..k], u[k..]);
  }

  /** In a tree, different strings lead to different nodes: every node has one path to it. */
  lemma {:induction false} WalkInjective(e: Edges, i: nat, u: string, v: string)
    requires IsTree(e) && i < |e|
    requires Walk(e, i, u).Some? && Walk(e, i, u) == Walk(e, i, v)
    ensures u == v
    decreases |u|
  {
    if u != [] && v != [] {
      var u', v' := u[..|u| - 1], v[..|v| - 1];
      var p, q := Walk(e, i, u').value, Walk(e, i, v').value;
      assert e[p][u[|u| - 1]] == e[q][v[|v| - 1]];
      assert SameParent(e, p, u[|u| - 1], q, v[|v| - 1]);
      WalkInjective(e, i, u', v');
      assert u == u' + [u[|u| - 1]] && v == v' + [v[|v| - 1]];
    }
  }

  /** `e'` is `e` with one fresh childless node appended, hung from node `p` by a new edge `c`. */
  ghost predicate Grown(e: Edges, e': Edges, p: nat, c: char)
  {
    p < |e| && c !in e[p] && e' == e[p := Attach(e[p], c, |e|)] + [map[]]
  }

  /** A child map with one more edge. */
  function Attach(m: map<char, nat>, c: char, child: nat): (r: map<char, nat>)
    ensures r.Keys == m.Keys + {c} && r[c] == child
    ensures forall b :: b in m && b != c ==> r[b] == m[b]
  {
    m[c := child]
  }

  lemma GrownIsTree(e: Edges, e': Edges, p: nat, c: char)
    requires IsTree(e) && Grown(e, e', p, c)
    ensures IsTree(e')
  {
    forall i, b, j, d ensures SameParent(e', i, b, j, d) {
      if 0 <= i < |e'| && 0 <= j < |e'| && b in e'[i] && d in e'[j] && e'[i][b] == e'[j][d] {
        if e'[i][b] == |e| {
          assert i == p && b == c && j == p && d == c;
        } else {
          assert i < |e| && j < |e| && b in e[i] && d in e[j];
          assert SameParent(e, i, b, j, d);
        }
      }
    }
  }

  /** What walks look like after growing: the old walks are unchanged, and the only new walk is
      the one that ends on the new edge, at the new node. */
  lemma {:induction false} GrownWalk(e: Edges, e': Edges, p: nat, c: char, i: nat, u: string)
    requires Forward(e) && Grown(e, e', p, c) && i < |e|
    ensures Forward(e')
    ensures Walk(e', i, u) ==
      if Walk(e, i, u).Some? then Walk(e, i, u)
      else if u != [] && Walk(e, i, u[..|u| - 1]) == Some(p) && u[|u| - 1] == c then Some(|e|)
      else None
    decreases |u|
  {
    assert Forward(e') by {
      forall j, b | 0 <= j < |e'| && b in e'[j] ensures j < e'[j][b] < |e'| {
        if j != p { assert b in e[j]; }
      }
    }
    if u != [] {
      GrownWalk(e, e', p, c, i, u[..|u| - 1]);
    }
  }

  /** Following `u` from node `i` ends on a node that `t` flags. */
  ghost predicate EndsOnFlag(e: Edges, t: seq<bool>, i: nat, u: string)
    requires Forward(e) && |t| == |e| && i < |e|
  {
    match Walk(e, i, u)
    case None => false
    case Some(j) => t[j]
  }

  /** Exact membership in the words a prefix tree holds, when `t` marks the nodes where a word
      ends. */
  ghost predicate Accepts(e: Edges, t: seq<bool>, u: string)
    requires Forward(e) && |e| > 0 && |t| == |e|
  {
    EndsOnFlag(e, t, 0, u)
  }

  /** Every node other than the root that has no children is flagged. Insertion only creates a
      node to extend it and flags where it stops, so in a prefix tree no other leaf exists. */
  ghost predicate LeavesEndWords(e: Edges, t: seq<bool>)
    requires |t| == |e|
  {
    forall j :: 0 < j < |e| && e[j] == map[] ==> t[j]
  }

  /** `(e, t)` was obtained from `(e0, t0)` by growing fresh unflagged leaves: the old nodes keep
      their flags and every old walk from the root, and a walk from the root that ends on an old
      node is an old walk. */
  ghost predicate GrowsFrom(e0: Edges, t0: seq<bool>, e: Edges, t: seq<bool>)
    requires Forward(e0) && Forward(e) && |e0| > 0
  {
    && |e0| <= |e| && |t0| == |e0| && |t| == |e|
    && t[..|e0|] == t0
    && (forall j :: |e0| <= j < |e| ==> !t[j])
    && (forall u :: KeepsWalk(e0, e, u))
  }

  /** An old walk from the root is unchanged, and a walk from the root ending on an old node is
      an old walk. */
  ghost predicate KeepsWalk(e0: Edges, e: Edges, u: string)
    requires Forward(e0) && Forward(e) && 0 < |e0| <= |e|
  {
    && (Walk(e0, 0, u).Some? ==> Walk(e, 0, u) == Walk(e0, 0, u))
    && (Walk(e, 0, u).Some? && Walk(e, 0, u).value < |e0| ==> Walk(e0, 0, u) == Walk(e, 0, u))
  }

  /** Growing keeps every walk that existed, and a walk that ends on an old node is an old walk. */
  lemma GrownKeepsWalks(e: Edges, e': Edges, p: nat, c: char, u: string)
    requires Forward(e) && Grown(e, e', p, c)
    ensures Forward(e')
    ensures Walk(e, 0, u).Some? ==> Walk(e', 0, u) == Walk(e, 0, u)
    ensures Walk(e', 0, u).Some? && Walk(e', 0, u).value < |e| ==> Walk(e, 0, u) == Walk(e', 0, u)
  {
    GrownWalk(e, e', p, c, 0, u);
  }

  /** One step of insertion that creates a node: hang a fresh unflagged leaf from node `p`, which
      `prefix` reaches, by `c`; the new leaf is the node `prefix + [c]` reaches. */
  lemma GrowStep(e0: Edges, t0: seq<bool>, e: Edges, t: seq<bool>, e': Edges, p: nat, c: char, prefix: string)
    requires Forward(e0) && |e0| > 0 && Forward(e) && GrowsFrom(e0, t0, e, t)
    requires Grown(e, e', p, c) && Walk(e, 0, prefix) == Some(p)
    ensures Forward(e') && GrowsFrom(e0, t0, e', t + [false])
    ensures Walk(e', 0, prefix + [c]) == Some(|e|)
  {
    GrownKeepsWalks(e, e', p, c, []);
    forall u ensures KeepsWalk(e0, e', u) {
      assert KeepsWalk(e0, e, u);
      GrownKeepsWalks(e, e', p, c, u);
    }
    GrownWalk(e, e', p, c, 0, prefix + [c]);
    assert (prefix + [c])[..|prefix|] == prefix;
    assert (t + [false])[..|e0|] == t[..|e0|];
  }

  /** While a word is being inserted, the node reached so far is the only leaf left unflagged;
      growing moves that exception to the new leaf. */
  lemma GrowLeaves(e: Edges, t: seq<bool>, e': Edges, p: nat, c: char)
    requires |t| == |e| && Grown(e, e', p, c)
    requires forall j :: 0 < j < |e| && e[j] == map[] && j != p ==> t[j]
    ensures forall j :: 0 < j < |e'| && e'[j] == map[] && j != |e| ==> (t + [false])[j]
  {
    forall j | 0 < j < |e'| && e'[j] == map[] && j != |e| ensures (t + [false])[j] {
      assert j < |e| && j != p && e[j] == map[];
    }
  }

  /** One step of insertion that creates a node, all at once: the grown arena is a tree, it grows
      from the original, `prefix + [c]` reaches the new leaf, and that leaf is the only unflagged
      one. */
  lemma GrowLeaf(e0: Edges, t0: seq<bool>, e: Edges, t: seq<bool>, e': Edges, p: nat, c: char, prefix: string)
    requires IsTree(e0) && IsTree(e) && GrowsFrom(e0, t0, e, t)
    requires Walk(e, 0, prefix) == Some(p) && c !in e[p]
    requires forall j :: 0 < j < |e| && e[j] == map[] && j != p ==> t[j]
    requires e' == e[p := Attach(e[p], c, |e|)] + [map[]]
    ensures IsTree(e') && GrowsFrom(e0, t0, e', t + [false])
    ensures Walk(e', 0, prefix + [c]) == Some(|e|)
    ensures forall j :: 0 < j < |e'| && e'[j] == map[] && j != |e| ==> (t + [false])[j]
  {
    GrowStep(e0, t0, e, t, e', p, c, prefix);
    GrownIsTree(e, e', p, c);
    GrowLeaves(e, t, e', p, c);
  }

  /** The last step of insertion: flagging the node that `w` reaches adds exactly `w` to the
      accepted strings. */
  lemma FlagStep(e0: Edges, t0: seq<bool>, e: Edges, t: seq<bool>, w: string, j: nat)
    requires IsTree(e0) && IsTree(e) && GrowsFrom(e0, t0, e, t) && Walk(e, 0, w) == Some(j)
    ensures forall u :: Accepts(e, t[j := true], u) <==> Accepts(e0, t0, u) || u == w
  {
    forall u ensures Accepts(e, t[j := true], u) <==> Accepts(e0, t0, u) || u == w {
      assert KeepsWalk(e0, e, u);
      match Walk(e, 0, u)
      case None =>
      case Some(k) =>
        if k == j {
          WalkInjective(e, 0, u, w);
        } else if k >= |e0| {
          assert !t[k];
        } else {
          assert t[..|e0|][k] == t0[k];
        }
    }
  }

  /** The state of an insertion of `w` after following `w[..k]`: the tree grew from `(e0, t0)`,
      `w[..k]` reaches node `p`, every leaf other than `p` is flagged, and nothing has changed
      yet if `w` was already held. */
  ghost predicate Inserting(e0: Edges, t0: seq<bool>, e: Edges, t: seq<bool>, w: string, k: nat, p: nat)
  {
    && IsTree(e0) && IsTree(e) && GrowsFrom(e0, t0, e, t) && k <= |w| && p < |e|
    && Walk(e, 0, w[..k]) == Some(p)
    && (forall j :: 0 < j < |e| && e[j] == map[] && j != p ==> t[j])
    && (Accepts(e0, t0, w) ==> e == e0 && t == t0)
  }

  /** An insertion starts at the root of an unchanged tree. */
  lemma InsertStart(e0: Edges, t0: seq<bool>, w: string)
    requires IsTree(e0) && |t0| == |e0| && LeavesEndWords(e0, t0)
    ensures Inserting(e0, t0, e0, t0, w, 0, 0)
  {
    assert w[..0] == [];
    assert t0[..|e0|] == t0;
  }

  /** A missing edge: hang a fresh unflagged leaf from the current node and move to it. */
  lemma InsertNew(e0: Edges, t0: seq<bool>, e: Edges, t: seq<bool>, e': Edges, w: string, k: nat, p: nat)
    requires Inserting(e0, t0, e, t, w, k, p) && k < |w| && w[k] !in e[p]
    requires e' == e[p := Attach(e[p], w[k], |e|)] + [map[]]
    ensures Inserting(e0, t0, e', t + [false], w, k + 1, |e|)
  {
    MissingEdge(e0, t0, e, t, w, k, p);
    GrowLeaf(e0, t0, e, t, e', p, w[k], w[..k]);
    assert w[..k + 1] == w[..k] + [w[k]];
  }

  /** An existing edge: follow it, changing nothing. */
  lemma InsertExisting(e0: Edges, t0: seq<bool>, e: Edges, t: seq<bool>, w: string, k: nat, p: nat)
    requires Inserting(e0, t0, e, t, w, k, p) && k < |w| && w[k] in e[p]
    ensures Inserting(e0, t0, e, t, w, k + 1, e[p][w[k]])
  {
    WalkStep(e, 0, w[..k], w[k]);
    assert w[..k + 1] == w[..k] + [w[k]];
  }

  /** The end of an insertion: flagging the node `w` reaches leaves a tree whose leaves are all
      flagged, which holds exactly the old words and `w`, and which is the old tree if `w` was
      already held. */
  lemma InsertDone(e0: Edges, t0: seq<bool>, e: Edges, t: seq<bool>, w: string, p: nat)
    requires Inserting(e0, t0, e, t, w, |w|, p)
    ensures IsTree(e) && |t| == |e| && LeavesEndWords(e, t[p := true])
    ensures forall u :: Accepts(e, t[p := true], u) <==> Accepts(e0, t0, u) || u == w
    ensures Accepts(e0, t0, w) ==> e == e0 && t[p := true] == t0
  {
    assert w[..|w|] == w;
    FlagStep(e0, t0, e, t, w, p);
    if Accepts(e0, t0, w) {
      assert t[p := true] == t0;
    }
  }

  /** A word whose walk stops at a missing edge is not accepted, and neither was it before the
      tree grew. */
  lemma MissingEdge(e0: Edges, t0: seq<bool>, e: Edges, t: seq<bool>, w: string, k: nat, p: nat)
    requires Forward(e0) && Forward(e) && |e0| > 0 && GrowsFrom(e0, t0, e, t) && k < |w|
    requires Walk(e, 0, w[..k]) == Some(p) && w[k] !in e[p]
    ensures !Accepts(e, t, w) && !Accepts(e0, t0, w)
  {
    WalkPrefix(e, 0, w, k + 1);
    WalkStep(e, 0, w[..k], w[k]);
    assert w[..k + 1] == w[..k] + [w[k]];
    assert KeepsWalk(e0, e, w);
  }

  /** A word flagged in a trie whose root is a childless node is the empty word. */
  lemma ChildlessRoot(e: Edges, t: seq<bool>, w: string)
    requires IsTree(e) && |t| == |e| && e[0] == map[] && Accepts(e, t, w)
    ensures w == [] && t[0]
  {
    if w != [] { WalkPrefix(e, 0, w, 1); }
  }
}
