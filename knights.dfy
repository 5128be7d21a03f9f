/** The knight: its L-shaped offsets, the query that searches for a shortest
    sequence of knight moves, and facts about knight distances. */
module Knights {
  import opened Squares
  import opened Vertices
  import opened BreadthFirst
  import opened Graphs

  /** The eight L-shaped knight offsets, in the order the search tries them. */
  const AllowedMoves: seq<Offset> := [(-2, 1), (-1, 2), (1, 2), (2, 1), (-2, -1), (-1, -2), (1, -2), (2, -1)]

  /** Knight#move (and knight_moves): a fresh graph rooted at `from`, traversed
      towards `to` with the knight's offsets. */
  method Move(from: Square, to: Square) returns (result: Option<Outcome>)
    ensures IsShortest(AllowedMoves, from, to, result)
    ensures to == from ==> result == Some(Outcome(0, [from]))
    ensures !InBounds(to) && to != from ==> result == None
  {
    var graph := new Graph(from);
    result := graph.CheckQueue(to, AllowedMoves);
    if to == from {
      ShortestToSelf(AllowedMoves, from, result);
    }
    if !InBounds(to) && to != from {
      ShortestOffBoard(AllowedMoves, from, to, result);
    }
  }

  /** The table holds each of the eight L-shaped offsets exactly once: one coordinate
      changes by 1 and the other by 2. */
  lemma LShaped()
    ensures |AllowedMoves| == 8 && NoDuplicates(AllowedMoves)
    ensures forall m :: m in AllowedMoves <==>
      || ((m.0 == 1 || m.0 == -1) && (m.1 == 2 || m.1 == -2))
      || ((m.0 == 2 || m.0 == -2) && (m.1 == 1 || m.1 == -1))
  {
  }

  /** Every knight offset can be undone by another knight offset. */
  lemma OffsetsSymmetric(m: Offset)
    requires m in AllowedMoves
    ensures (-m.0, -m.1) in AllowedMoves
  {
  }

  /** A knight walk read backwards is a knight walk, provided it starts on the board
      (every later square is on the board already, as the target of a move). */
  lemma ReversedWalk(w: seq<Square>, from: Square, to: Square)
    requires IsWalk(AllowedMoves, w, from, to) && InBounds(from)
    ensures IsWalk(AllowedMoves, Reversed(w), to, from)
  {
    var r := Reversed(w);
    var n := |w|;
    forall i | 0 <= i < n - 1 ensures IsMove(AllowedMoves, r[i], r[i + 1]) {
      assert r[i] == w[n - 1 - i] && r[i + 1] == w[n - 2 - i];
      BackStep(w, from, to, n - 2 - i);
    }
  }

  /** The step from w[j] to w[j + 1] of a knight walk can be taken backwards. */
  lemma BackStep(w: seq<Square>, from: Square, to: Square, j: nat)
    requires IsWalk(AllowedMoves, w, from, to) && InBounds(from) && j + 1 < |w|
    ensures IsMove(AllowedMoves, w[j + 1], w[j])
  {
    var a, b := w[j], w[j + 1];
    assert IsMove(AllowedMoves, a, b);
    OffsetsSymmetric(Sub(b, a));
    assert Sub(a, b) == (-Sub(b, a).0, -Sub(b, a).1);
    if j > 0 {
      assert IsMove(AllowedMoves, w[j - 1], a);
    }
  }

  /** Between two board squares, the knight distance is the same both ways. */
  lemma DistanceSymmetric(a: Square, b: Square, ab: Option<Outcome>, ba: Option<Outcome>)
    requires InBounds(a) && InBounds(b)
    requires IsShortest(AllowedMoves, a, b, ab) && IsShortest(AllowedMoves, b, a, ba)
    ensures ab.Some? <==> ba.Some?
    ensures ab.Some? && ba.Some? ==> ab.value.moves == ba.value.moves
  {
    if ab.Some? {
      ReversedWalk(ab.value.path, a, b);
    }
    if ba.Some? {
      ReversedWalk(ba.value.path, b, a);
    }
  }

  /** One knight move changes x + y by at most 3, so a walk of k moves changes it
      by at most 3 k. */
  lemma {:induction false} WalkSumBound(w: seq<Square>, from: Square, to: Square)
    requires IsWalk(AllowedMoves, w, from, to)
    ensures (to.0 + to.1) - (from.0 + from.1) <= 3 * (|w| - 1)
    decreases |w|
  {
    if |w| > 1 {
      var w' := w[..|w| - 1];
      StepsPrefix(AllowedMoves, w, |w| - 1);
      WalkSumBound(w', from, w'[|w'| - 1]);
      assert IsMove(AllowedMoves, w[|w| - 2], w[|w| - 1]);
    }
  }

  /** The query the program runs, from [1, 1] to [7, 7], takes four knight moves. */
  lemma CornerToCorner(result: Option<Outcome>)
    requires IsShortest(AllowedMoves, (1, 1), (7, 7), result)
    ensures result.Some? && result.value.moves == 4
  {
    var w: seq<Square> := [(1, 1)];
    assert Steps(AllowedMoves, w);
    StepsExtend(AllowedMoves, w, (3, 2));
    w := w + [(3, 2)];
    StepsExtend(AllowedMoves, w, (4, 4));
    w := w + [(4, 4)];
    StepsExtend(AllowedMoves, w, (6, 5));
    w := w + [(6, 5)];
    StepsExtend(AllowedMoves, w, (7, 7));
    w := w + [(7, 7)];
    assert IsWalk(AllowedMoves, w, (1, 1), (7, 7));
    if result.Some? {
      WalkSumBound(result.value.path, (1, 1), (7, 7));
    }
  }
}
