/** Character, string and sequence helpers shared by both pattern generators. */
module Chars {

  /** Every character is strictly smaller than the ones after it: sorted, no duplicates. */
  ghost predicate StrictlyAscending(s: seq<char>)
  {
    forall j, k :: InOrder(s, j, k)
  }

  /** Positions `j` before `k` of `s` hold characters in ascending order. */
  ghost predicate InOrder(s: seq<char>, j: int, k: int)
  {
    0 <= j < k < |s| ==> s[j] < s[k]
  }

  lemma {:induction false} MinExists(s: set<char>)
    requires s != {}
    ensures exists m :: m in s && forall x :: x in s ==> m <= x
    decreases |s|
  {
    var y :| y in s;
    if s != {y} {
      MinExists(s - {y});
      var m :| m in s - {y} && forall x :: x in s - {y} ==> m <= x;
      var lo := if y < m then y else m;
      forall x | x in s ensures lo <= x {
        if x != y { assert x in s - {y}; }
      }
    } else {
      assert forall x :: x in s ==> y <= x;
    }
  }

  /** The smallest character of a non-empty set. */
  function Min(s: set<char>): (m: char)
    requires s != {}
    ensures m in s && forall x :: x in s ==> m <= x
  {
    MinExists(s);
    var m :| m in s && forall x :: x in s ==> m <= x;
    m
  }

  /** The characters of `s` in ascending code-point order, each once: what `sort` followed by
      `unique` leaves, and the order in which this model visits the children of a node. */
  function SortedChars(s: set<char>): (r: seq<char>)
    ensures StrictlyAscending(r)
    ensures forall c :: c in r <==> c in s
    decreases |s|
  {
    if s == {} then []
    else
      var m := Min(s);
      var rest := SortedChars(s - {m});
      assert forall j :: 0 <= j < |rest| ==> m < rest[j] by {
        forall j | 0 <= j < |rest| ensures m < rest[j] {
          assert rest[j] in s - {m};
        }
      }
      ConsAscending(m, rest);
      [m] + rest
  }

  /** Sorting keeps one entry per element of the set. */
  lemma {:induction false} SortedCharsLength(s: set<char>)
    ensures |SortedChars(s)| == |s|
    decreases |s|
  {
    if s != {} {
      SortedCharsLength(s - {Min(s)});
    }
  }

  /** A character below every character of an ascending sequence can go in front of it. */
  lemma ConsAscending(m: char, rest: seq<char>)
    requires StrictlyAscending(rest) && forall j :: 0 <= j < |rest| ==> m < rest[j]
    ensures StrictlyAscending([m] + rest)
  {
    var s := [m] + rest;
    forall j, k ensures InOrder(s, j, k) {
      if 0 < j < k < |s| {
        assert InOrder(rest, j - 1, k - 1);
      } else if 0 == j < k < |s| {
        assert s[k] == rest[k - 1];
      }
    }
  }

  /** A character above every character of an ascending sequence can go after it. */
  lemma SnocAscending(rest: seq<char>, m: char)
    requires StrictlyAscending(rest) && forall j :: 0 <= j < |rest| ==> rest[j] < m
    ensures StrictlyAscending(rest + [m])
  {
    var s := rest + [m];
    forall j, k ensures InOrder(s, j, k) {
      if 0 <= j < k < |rest| {
        assert InOrder(rest, j, k);
      } else if 0 <= j < k == |rest| {
        assert s[j] == rest[j];
      }
    }
  }

  /** An ascending sequence stays ascending when cut short. */
  lemma AscendingPrefix(s: seq<char>, n: nat)
    requires StrictlyAscending(s) && n <= |s|
    ensures StrictlyAscending(s[..n])
  {
    forall j, k ensures InOrder(s[..n], j, k) {
      assert InOrder(s, j, k);
    }
  }

  /** In an ascending sequence, each character is at one position only. */
  lemma AscendingDistinct(s: seq<char>, j: nat, k: nat)
    requires StrictlyAscending(s) && j < |s| && k < |s| && s[j] == s[k]
    ensures j == k
  {
    assert InOrder(s, j, k) && InOrder(s, k, j);
  }

  /** A prefix of `s` one element longer is the shorter prefix and that element. */
  lemma SliceSnoc<T>(s: seq<T>, j: nat)
    requires j < |s|
    ensures s[..j + 1] == s[..j] + [s[j]]
  {
  }

  /** A loop that has rebuilt `all[..j]` and appends `all[j]` has rebuilt `all[..j + 1]`. */
  lemma SliceExtend<T>(xs: seq<T>, all: seq<T>, j: nat, x: T)
    requires j < |all| && xs == all[..j] && x == all[j]
    ensures xs + [x] == all[..j + 1]
  {
    SliceSnoc(all, j);
  }

  /** The prefix as long as the sequence is the sequence. */
  lemma SliceAll<T>(s: seq<T>)
    ensures s[..|s|] == s
  {
  }

  /** The elements of a sequence, as a set. */
  function Elements(s: seq<char>): (r: set<char>)
    ensures forall c :: c in r <==> c in s
  {
    set c | c in s
  }

  /** `parts` separated by `sep`, as the C++ join loops and Python's `str.join` write them;
      defined from the last part backward, the way those loops extend the result. */
  function Join(parts: seq<string>, sep: char): (r: string)
    ensures |parts| == 1 ==> r == parts[0]
    ensures |parts| == 0 ==> r == ""
  {
    if |parts| == 0 then ""
    else if |parts| == 1 then parts[0]
    else Join(parts[..|parts| - 1], sep) + [sep] + parts[|parts| - 1]
  }

  /** Joining one more part, as the join loops do at each step. */
  lemma JoinStep(parts: seq<string>, m: nat, sep: char)
    requires m < |parts|
    ensures Join(parts[..m + 1], sep) == if m == 0 then parts[0] else Join(parts[..m], sep) + [sep] + parts[m]
  {
    assert parts[..m + 1][..m] == parts[..m];
  }

  /** `s` cut at every `sep`: each separator closes one part and opens the next, so the result
      always has at least one part. */
  function Split(s: string, sep: char): (r: seq<string>)
    ensures r != []
    decreases |s|
  {
    if s == [] then [[]]
    else
      var init := Split(s[..|s| - 1], sep);
      var c := s[|s| - 1];
      if c == sep then init + [[]]
      else init[..|init| - 1] + [init[|init| - 1] + [c]]
  }

  /** Reading a piece without separators extends the last part by that piece. */
  lemma {:induction false} SplitAppendPiece(s: string, w: string, sep: char)
    requires sep !in w
    ensures var p := Split(s, sep);
            Split(s + w, sep) == p[..|p| - 1] + [p[|p| - 1] + w]
    decreases |w|
  {
    var p := Split(s, sep);
    if w == [] {
      assert s + w == s;
      assert p[|p| - 1] + w == p[|p| - 1];
    } else {
      var front := w[..|w| - 1];
      assert (s + w)[..|s + w| - 1] == s + front;
      assert (s + w)[|s + w| - 1] == w[|w| - 1];
      assert sep !in front;
      SplitAppendPiece(s, front, sep);
      var q := Split(s + front, sep);
      assert q == p[..|p| - 1] + [p[|p| - 1] + front];
      assert q[..|q| - 1] == p[..|p| - 1];
      assert q[|q| - 1] + [w[|w| - 1]] == p[|p| - 1] + w;
    }
  }

  /** Joining parts that contain no separator and splitting the result again gives back the
      parts, in order: each element is one part, and there are no others. */
  lemma {:induction false} SplitJoin(parts: seq<string>, sep: char)
    requires parts != [] && forall k :: 0 <= k < |parts| ==> sep !in parts[k]
    ensures Split(Join(parts, sep), sep) == parts
    decreases |parts|
  {
    if |parts| == 1 {
      SplitAppendPiece([], parts[0], sep);
      assert [] + parts[0] == parts[0];
    } else {
      var init := parts[..|parts| - 1];
      var last := parts[|parts| - 1];
      SplitJoin(init, sep);
      var s := Join(init, sep) + [sep];
      assert Split(s, sep) == init + [[]];
      SplitAppendPiece(s, last, sep);
      assert Join(parts, sep) == s + last;
      assert [] + last == last;
      assert init + [last] == parts;
    }
  }

  /** The first character of a strictly ascending sequence is its smallest, and the rest hold
      the other characters. */
  lemma AscendingHead(s: seq<char>)
    requires StrictlyAscending(s) && s != []
    ensures s[0] in Elements(s) && Min(Elements(s)) == s[0]
    ensures Elements(s) - {s[0]} == Elements(s[1..])
  {
    assert s[0] in Elements(s);
    var m := Min(Elements(s));
    assert m == s[0] by {
      var k :| 0 <= k < |s| && s[k] == m;
      assert InOrder(s, 0, k);
    }
    forall c ensures c in Elements(s) - {s[0]} <==> c in Elements(s[1..]) {
      if c in s[1..] {
        var k :| 1 <= k < |s| && s[k] == c;
        assert InOrder(s, 0, k);
      }
      if c in s && c != s[0] {
        var k :| 0 <= k < |s| && s[k] == c;
        assert s[1..][k - 1] == c;
      }
    }
  }

  lemma AscendingTail(s: seq<char>)
    requires StrictlyAscending(s) && s != []
    ensures StrictlyAscending(s[1..])
  {
    forall j, k ensures InOrder(s[1..], j, k) {
      assert InOrder(s, j + 1, k + 1);
    }
  }

  /** Sorting a set puts its smallest character first, then the rest sorted. */
  lemma SortedCharsUnfold(t: set<char>)
    requires t != {}
    ensures SortedChars(t) == [Min(t)] + SortedChars(t - {Min(t)})
  {
  }

  /** Sorting and deduplicating a sequence that is already strictly ascending gives it back. */
  lemma {:induction false} SortedOfAscending(s: seq<char>)
    requires StrictlyAscending(s)
    ensures SortedChars(Elements(s)) == s
    decreases |s|
  {
    if s != [] {
      AscendingTail(s);
      SortedOfAscending(s[1..]);
      AscendingHead(s);
      SortedCharsUnfold(Elements(s));
      assert s == [s[0]] + s[1..];
    }
  }
}
