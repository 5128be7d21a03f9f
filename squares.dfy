/** Squares, offsets and walks on the 8x8 board, plus the sequence operations
    (map, uniq, array difference, reverse) that the board rules use. */
module Squares {

  /** A square as the pair (x, y); the program keeps it as a two-element array. */
  type Square = (int, int)

  /** A displacement (dx, dy) that a piece may apply to a square. */
  type Offset = (int, int)

  /** Both coordinates lie in the range 0..7. */
  predicate InBounds(s: Square)
  {
    0 <= s.0 <= 7 && 0 <= s.1 <= 7
  }

  /** The square reached from `p` by the displacement `m`. */
  function Add(p: Square, m: Offset): (r: Square)
    ensures r.0 - p.0 == m.0 && r.1 - p.1 == m.1
  {
    (p.0 + m.0, p.1 + m.1)
  }

  /** The displacement that leads from `a` to `b`. */
  function Sub(b: Square, a: Square): (m: Offset)
    ensures Add(a, m) == b
  {
    (b.0 - a.0, b.1 - a.1)
  }

  /** All 64 squares of the board. */
  ghost function BoardSquares(): (r: set<Square>)
    ensures forall s :: s in r <==> InBounds(s)
  {
    var r := set x: int, y: int | 0 <= x <= 7 && 0 <= y <= 7 :: (x, y);
    assert forall s :: InBounds(s) ==> s == (s.0, s.1) && s in r;
    r
  }

  /** One step of the search graph: `b` is on the board and is `a` plus one of `moves`.
      Only the target is checked against the board, never `a`. */
  predicate IsMove(moves: seq<Offset>, a: Square, b: Square)
  {
    InBounds(b) && Sub(b, a) in moves
  }

  /** Every consecutive pair of `w` is one step. */
  ghost predicate Steps(moves: seq<Offset>, w: seq<Square>)
  {
    forall i :: 0 <= i < |w| - 1 ==> IsMove(moves, w[i], w[i + 1])
  }

  /** `w` is a walk from `from` to `to`; it makes |w| - 1 moves. */
  ghost predicate IsWalk(moves: seq<Offset>, w: seq<Square>, from: Square, to: Square)
  {
    |w| >= 1 && w[0] == from && w[|w| - 1] == to && Steps(moves, w)
  }

  /** A walk that makes at least one move ends on the board. */
  lemma WalkEndInBounds(moves: seq<Offset>, w: seq<Square>, from: Square, to: Square)
    requires IsWalk(moves, w, from, to) && |w| >= 2
    ensures InBounds(to)
  {
    assert IsMove(moves, w[|w| - 2], w[|w| - 1]);
  }

  /** A walk followed by one more step is a walk. */
  lemma StepsExtend(moves: seq<Offset>, w: seq<Square>, x: Square)
    requires |w| >= 1 && Steps(moves, w) && IsMove(moves, w[|w| - 1], x)
    ensures Steps(moves, w + [x])
  {
    var w' := w + [x];
    forall i | 0 <= i < |w'| - 1 ensures IsMove(moves, w'[i], w'[i + 1]) {
      if i < |w| - 1 {
        assert w'[i] == w[i] && w'[i + 1] == w[i + 1];
      }
    }
  }

  /** A prefix of a walk is a walk. */
  lemma StepsPrefix(moves: seq<Offset>, w: seq<Square>, n: nat)
    requires Steps(moves, w) && n <= |w|
    ensures Steps(moves, w[..n])
  {
    var w' := w[..n];
    forall i | 0 <= i < |w'| - 1 ensures IsMove(moves, w'[i], w'[i + 1]) {
      assert w'[i] == w[i] && w'[i + 1] == w[i + 1];
    }
  }

  predicate NoDuplicates<T(==)>(s: seq<T>)
  {
    forall i, j :: 0 <= i < j < |s| ==> s[i] != s[j]
  }

  lemma NoDuplicatesAppend<T>(s: seq<T>, x: T)
    requires NoDuplicates(s) && x !in s
    ensures NoDuplicates(s + [x])
  {
    var s' := s + [x];
    forall i, j | 0 <= i < j < |s'| ensures s'[i] != s'[j] {
      assert s'[i] == s[i];
    }
  }

  /** The elements of `s`, as a set. */
  function Elements<T>(s: seq<T>): set<T>
  {
    set x | x in s
  }

  /** `r` is `s` with some elements left out, the others kept in their order. */
  ghost predicate IsSubsequence<T>(r: seq<T>, s: seq<T>)
    decreases |s|
  {
    if r == [] then true
    else if s == [] then false
    else if r[|r| - 1] == s[|s| - 1] then IsSubsequence(r[..|r| - 1], s[..|s| - 1])
    else IsSubsequence(r, s[..|s| - 1])
  }

  lemma {:induction false} SubsequenceOfExtension<T>(r: seq<T>, s: seq<T>, x: T)
    requires IsSubsequence(r, s)
    ensures IsSubsequence(r, s + [x]) && IsSubsequence(r + [x], s + [x])
  {
    assert (s + [x])[..|s|] == s;
    assert (r + [x])[..|r|] == r;
    if r != [] && r[|r| - 1] == x {
      SubsequenceDropLast(r, s);
    }
  }

  lemma {:induction false} SubsequenceDropLast<T>(r: seq<T>, s: seq<T>)
    requires IsSubsequence(r, s) && r != []
    ensures IsSubsequence(r[..|r| - 1], s)
    decreases |s|
  {
    var r' := r[..|r| - 1];
    var s' := s[..|s| - 1];
    if r[|r| - 1] == s[|s| - 1] {
      if r' != [] && r'[|r'| - 1] == s[|s| - 1] {
        SubsequenceDropLast(r', s');
      }
    } else {
      SubsequenceDropLast(r, s');
      if r' != [] && r'[|r'| - 1] == s[|s| - 1] {
        assert r'[..|r'| - 1] == r[..|r| - 2];
        SubsequenceDropLast(r', s');
      }
    }
  }

  lemma {:induction false} SubsequenceTransitive<T>(a: seq<T>, b: seq<T>, c: seq<T>)
    requires IsSubsequence(a, b) && IsSubsequence(b, c)
    ensures IsSubsequence(a, c)
    decreases |c|
  {
    if a != [] {
      var c' := c[..|c| - 1];
      if b[|b| - 1] == c[|c| - 1] {
        var b' := b[..|b| - 1];
        if a[|a| - 1] == b[|b| - 1] {
          SubsequenceTransitive(a[..|a| - 1], b', c');
        } else {
          SubsequenceTransitive(a, b', c');
        }
      } else {
        SubsequenceTransitive(a, b, c');
        if a[|a| - 1] == c[|c| - 1] {
          SubsequenceDropLast(a, c');
        }
      }
    }
  }

  /** Ruby's `map` of a displacement over a list of offsets. */
  function Translate(p: Square, ms: seq<Offset>): (r: seq<Square>)
    ensures |r| == |ms|
    ensures forall i :: 0 <= i < |ms| ==> r[i] == Add(p, ms[i])
    decreases |ms|
  {
    if ms == [] then [] else Translate(p, ms[..|ms| - 1]) + [Add(p, ms[|ms| - 1])]
  }

  /** Translating keeps a subsequence a subsequence. */
  lemma {:induction false} TranslateSubsequence(p: Square, a: seq<Offset>, b: seq<Offset>)
    requires IsSubsequence(a, b)
    ensures IsSubsequence(Translate(p, a), Translate(p, b))
    decreases |b|
  {
    if a != [] {
      var a' := a[..|a| - 1];
      var b' := b[..|b| - 1];
      assert Translate(p, b) == Translate(p, b') + [Add(p, b[|b| - 1])];
      if a[|a| - 1] == b[|b| - 1] {
        TranslateSubsequence(p, a', b');
        assert Translate(p, a) == Translate(p, a') + [Add(p, a[|a| - 1])];
        SubsequenceOfExtension(Translate(p, a'), Translate(p, b'), Add(p, b[|b| - 1]));
      } else {
        TranslateSubsequence(p, a, b');
        SubsequenceOfExtension(Translate(p, a), Translate(p, b'), Add(p, b[|b| - 1]));
      }
    }
  }

  /** Ruby's `uniq`: the first occurrence of every element, in order. */
  function Uniq(s: seq<Square>): (r: seq<Square>)
    ensures forall x :: x in r <==> x in s
    ensures NoDuplicates(r)
    ensures IsSubsequence(r, s)
    decreases |s|
  {
    if s == [] then []
    else
      var s' := s[..|s| - 1];
      var rest := Uniq(s');
      assert s == s' + [s[|s| - 1]];
      SubsequenceOfExtension(rest, s', s[|s| - 1]);
      if s[|s| - 1] in rest then rest else rest + [s[|s| - 1]]
  }

  /** `r` lists elements of `s` in the order of their first occurrences in `s`:
      r[i] occurs in `s` before the first occurrence of any later r[j]. */
  ghost predicate FirstOrder(r: seq<Square>, s: seq<Square>)
  {
    forall i, j :: 0 <= i < j < |r| ==> OccursBefore(r[i], r[j], s)
  }

  /** `x` occurs in `s` before the first occurrence of `z`. */
  ghost predicate OccursBefore(x: Square, z: Square, s: seq<Square>)
  {
    exists k :: 0 <= k < |s| && s[k] == x && z !in s[..k]
  }

  lemma OccursBeforeExtend(x: Square, z: Square, s: seq<Square>, y: Square)
    requires OccursBefore(x, z, s)
    ensures OccursBefore(x, z, s + [y])
  {
    var k :| 0 <= k < |s| && s[k] == x && z !in s[..k];
    assert (s + [y])[..k] == s[..k] && (s + [y])[k] == x;
  }

  /** `uniq` keeps the first occurrence of every element. */
  lemma {:induction false} UniqFirstOrder(s: seq<Square>)
    ensures FirstOrder(Uniq(s), s)
    decreases |s|
  {
    if s != [] {
      var s' := s[..|s| - 1];
      var x := s[|s| - 1];
      var rest := Uniq(s');
      UniqFirstOrder(s');
      var r := Uniq(s);
      assert r == if x in rest then rest else rest + [x];
      forall i, j | 0 <= i < j < |r| ensures OccursBefore(r[i], r[j], s) {
        if j < |rest| {
          assert r[i] == rest[i] && r[j] == rest[j];
          assert OccursBefore(rest[i], rest[j], s');
          var k :| 0 <= k < |s'| && s'[k] == rest[i] && rest[j] !in s'[..k];
          assert s[..k] == s'[..k];
          assert s[k] == r[i] && r[j] !in s[..k];
        } else {
          assert r[i] == rest[i] && r[j] == x && x !in s';
          assert rest[i] in s';
          var k :| 0 <= k < |s'| && s'[k] == rest[i];
          assert s[..k] == s'[..k];
          assert s[k] == r[i] && r[j] !in s[..k];
        }
      }
    }
  }

  /** Ruby's array difference `s - t`: the elements of `s` that do not occur in `t`, in order. */
  function Minus(s: seq<Square>, t: seq<Square>): (r: seq<Square>)
    ensures forall x :: x in r <==> x in s && x !in t
    ensures NoDuplicates(s) ==> NoDuplicates(r)
    ensures IsSubsequence(r, s)
    decreases |s|
  {
    if s == [] then []
    else
      var s' := s[..|s| - 1];
      var rest := Minus(s', t);
      assert s == s' + [s[|s| - 1]];
      SubsequenceOfExtension(rest, s', s[|s| - 1]);
      if s[|s| - 1] in t then rest else rest + [s[|s| - 1]]
  }

  /** Array difference keeps the order of first occurrences. */
  lemma {:induction false} MinusFirstOrder(s: seq<Square>, t: seq<Square>, u: seq<Square>)
    requires FirstOrder(s, u)
    ensures FirstOrder(Minus(s, t), u)
    decreases |s|
  {
    if s != [] {
      var s' := s[..|s| - 1];
      var x := s[|s| - 1];
      forall i, j | 0 <= i < j < |s'| ensures OccursBefore(s'[i], s'[j], u) {
        assert s'[i] == s[i] && s'[j] == s[j];
      }
      MinusFirstOrder(s', t, u);
      var rest := Minus(s', t);
      if x !in t {
        var r := rest + [x];
        assert Minus(s, t) == r;
        forall i, j | 0 <= i < j < |r| ensures OccursBefore(r[i], r[j], u) {
          if j < |rest| {
            assert r[i] == rest[i] && r[j] == rest[j];
          } else {
            assert r[i] == rest[i] && rest[i] in s';
            var i0 :| 0 <= i0 < |s'| && s'[i0] == rest[i];
            assert s[i0] == r[i] && s[|s| - 1] == r[j];
            assert OccursBefore(s[i0], s[|s| - 1], u);
          }
        }
      } else {
        assert Minus(s, t) == rest;
      }
    }
  }

  /** Array difference keeps every copy of an element that `t` does not contain. */
  lemma {:induction false} MinusKeepsCopies(s: seq<Square>, t: seq<Square>, x: Square)
    requires x !in t
    ensures multiset(Minus(s, t))[x] == multiset(s)[x]
    decreases |s|
  {
    if s != [] {
      var s' := s[..|s| - 1];
      MinusKeepsCopies(s', t, x);
      assert s == s' + [s[|s| - 1]];
      assert multiset(s) == multiset(s') + multiset{s[|s| - 1]};
      if s[|s| - 1] !in t {
        assert Minus(s, t) == Minus(s', t) + [s[|s| - 1]];
        assert multiset(Minus(s, t)) == multiset(Minus(s', t)) + multiset{s[|s| - 1]};
      }
    }
  }

  /** Ruby's `reverse`: element k of the result is element k from the end of `s`. */
  function Reversed<T>(s: seq<T>): (r: seq<T>)
    ensures |r| == |s|
    ensures forall k :: 0 <= k < |s| ==> r[k] == s[|s| - 1 - k]
    decreases |s|
  {
    if s == [] then []
    else
      var rest := Reversed(s[..|s| - 1]);
      var r := [s[|s| - 1]] + rest;
      assert forall k :: 0 < k < |s| ==> r[k] == rest[k - 1];
      r
  }

  /** Distinct squares on the board number at most 64. */
  lemma DistinctSquaresBound(s: seq<Square>)
    requires NoDuplicates(s)
    requires forall i :: 0 <= i < |s| ==> InBounds(s[i])
    ensures |s| <= 64
  {
    DistinctElements(s);
    SquareSetBound(Elements(s), 8);
  }

  lemma {:induction false} DistinctElements<T>(s: seq<T>)
    requires NoDuplicates(s)
    ensures |Elements(s)| == |s|
    decreases |s|
  {
    if s != [] {
      var s' := s[..|s| - 1];
      DistinctElements(s');
      assert Elements(s) == Elements(s') + {s[|s| - 1]};
      assert s[|s| - 1] !in Elements(s');
    }
  }

  /** A set of board squares whose x lies below `rows` has at most 8 * rows members. */
  lemma {:induction false} SquareSetBound(squares: set<Square>, rows: nat)
    requires forall s :: s in squares ==> 0 <= s.0 < rows && 0 <= s.1 <= 7
    ensures |squares| <= 8 * rows
    decreases rows
  {
    if rows > 0 {
      var last := set s | s in squares && s.0 == rows - 1;
      var others := squares - last;
      SquareSetBound(others, rows - 1);
      RowSetBound(last, rows - 1, 8);
      assert squares == others + last;
    } else {
      assert squares == {};
    }
  }

  /** A set of squares on row `x` whose y lies below `cols` has at most `cols` members. */
  lemma {:induction false} RowSetBound(squares: set<Square>, x: int, cols: nat)
    requires forall s :: s in squares ==> s.0 == x && 0 <= s.1 < cols
    ensures |squares| <= cols
    decreases cols
  {
    if cols > 0 {
      var rest := squares - {(x, cols - 1)};
      RowSetBound(rest, x, cols - 1);
    } else {
      assert squares == {};
    }
  }
}
