/** The board: legal destinations of a piece, and the squares already discovered. */
module Boards {
  import opened Squares

  class Board {
    /** The squares discovered so far by one search, in the order they were enqueued. */
    var visited: seq<Square>

    constructor ()
      ensures visited == []
    {
      visited := [];
    }

    /** The offsets of `allowedMoves` whose target lies on the board, in their order. */
    function PossibleMoves(position: Square, allowedMoves: seq<Offset>): (r: seq<Offset>)
      ensures forall m :: m in r <==> m in allowedMoves && InBounds(Add(position, m))
      ensures IsSubsequence(r, allowedMoves)
      decreases |allowedMoves|
    {
      if allowedMoves == [] then []
      else
        var ms := allowedMoves[..|allowedMoves| - 1];
        var m := allowedMoves[|allowedMoves| - 1];
        var rest := PossibleMoves(position, ms);
        assert allowedMoves == ms + [m];
        SubsequenceOfExtension(rest, ms, m);
        if InBounds(Add(position, m)) then rest + [m] else rest
    }

    /** The squares one move away from `position` that are on the board and not yet
        visited: each exactly once, in the order of `allowedMoves`. */
    function PossibleDestinations(position: Square, allowedMoves: seq<Offset>): (r: seq<Square>)
      reads this
      ensures forall d :: d in r <==> IsMove(allowedMoves, position, d) && d !in visited
      ensures NoDuplicates(r)
      ensures IsSubsequence(r, Translate(position, allowedMoves))
    {
      var moves := PossibleMoves(position, allowedMoves);
      DestinationsFromMoves(position, allowedMoves, moves, visited);
      Minus(Uniq(Translate(position, moves)), visited)
    }
  }

  /** The proof obligations of `PossibleDestinations`, given what `PossibleMoves` promises. */
  lemma DestinationsFromMoves(position: Square, allowedMoves: seq<Offset>, moves: seq<Offset>, visited: seq<Square>)
    requires forall m :: m in moves <==> m in allowedMoves && InBounds(Add(position, m))
    requires IsSubsequence(moves, allowedMoves)
    ensures var r := Minus(Uniq(Translate(position, moves)), visited);
      && (forall d :: d in r <==> IsMove(allowedMoves, position, d) && d !in visited)
      && IsSubsequence(r, Translate(position, allowedMoves))
  {
    var targets := Translate(position, moves);
    var u := Uniq(targets);
    var r := Minus(u, visited);
    TargetsAreMoves(position, allowedMoves, moves);
    assert forall d :: d in r <==> d in targets && d !in visited;
    TranslateSubsequence(position, moves, allowedMoves);
    SubsequenceTransitive(u, targets, Translate(position, allowedMoves));
    SubsequenceTransitive(r, u, Translate(position, allowedMoves));
  }

  /** Translating the in-bounds offsets gives exactly the squares one move away. */
  lemma TargetsAreMoves(position: Square, allowedMoves: seq<Offset>, moves: seq<Offset>)
    requires forall m :: m in moves <==> m in allowedMoves && InBounds(Add(position, m))
    ensures forall d :: d in Translate(position, moves) <==> IsMove(allowedMoves, position, d)
  {
    var targets := Translate(position, moves);
    forall d | d in targets ensures IsMove(allowedMoves, position, d) {
      var i :| 0 <= i < |targets| && targets[i] == d;
      assert Sub(d, position) == moves[i];
    }
    forall d | IsMove(allowedMoves, position, d) ensures d in targets {
      var m := Sub(d, position);
      var i :| 0 <= i < |moves| && moves[i] == m;
      assert targets[i] == d;
    }
  }

  /** `select` keeps every copy of an offset whose target is on the board, and none
      of the others. */
  lemma {:induction false} MovesKeepCopies(b: Board, position: Square, allowedMoves: seq<Offset>, m: Offset)
    ensures multiset(b.PossibleMoves(position, allowedMoves))[m]
         == if InBounds(Add(position, m)) then multiset(allowedMoves)[m] else 0
    decreases |allowedMoves|
  {
    if allowedMoves != [] {
      var ms := allowedMoves[..|allowedMoves| - 1];
      MovesKeepCopies(b, position, ms, m);
      assert allowedMoves == ms + [allowedMoves[|allowedMoves| - 1]];
      assert multiset(allowedMoves) == multiset(ms) + multiset{allowedMoves[|allowedMoves| - 1]};
    }
  }

  /** The destinations come in the order in which their squares first occur among
      the targets of all allowed offsets, as `uniq` keeps first occurrences. */
  lemma DestinationsInOffsetOrder(b: Board, position: Square, allowedMoves: seq<Offset>)
    ensures FirstOrder(b.PossibleDestinations(position, allowedMoves), Translate(position, allowedMoves))
  {
    var targets := Translate(position, b.PossibleMoves(position, allowedMoves));
    var u := Uniq(targets);
    UniqFirstOrder(targets);
    MinusFirstOrder(u, b.visited, targets);
    var r := Minus(u, b.visited);
    assert r == b.PossibleDestinations(position, allowedMoves);
    forall i, j | 0 <= i < j < |r| ensures OccursBefore(r[i], r[j], Translate(position, allowedMoves)) {
      assert OccursBefore(r[i], r[j], targets);
      assert r[j] in r && InBounds(r[j]);
      FilterOccursBefore(b, position, allowedMoves, r[i], r[j]);
    }
  }

  /** Dropping the offsets whose target is off the board does not change which of
      two squares first occurs earlier, when the later one is on the board. */
  lemma {:induction false} FilterOccursBefore(b: Board, position: Square, allowedMoves: seq<Offset>, x: Square, z: Square)
    requires InBounds(z) && OccursBefore(x, z, Translate(position, b.PossibleMoves(position, allowedMoves)))
    ensures OccursBefore(x, z, Translate(position, allowedMoves))
    decreases |allowedMoves|
  {
    if allowedMoves != [] {
      var ms := allowedMoves[..|allowedMoves| - 1];
      var m := allowedMoves[|allowedMoves| - 1];
      var y := Add(position, m);
      var kept := b.PossibleMoves(position, ms);
      var all0, kept0 := Translate(position, ms), Translate(position, kept);
      assert Translate(position, allowedMoves) == all0 + [y];
      if InBounds(y) {
        assert (kept + [m])[..|kept|] == kept;
        assert Translate(position, b.PossibleMoves(position, allowedMoves)) == kept0 + [y];
        var k :| 0 <= k < |kept0 + [y]| && (kept0 + [y])[k] == x && z !in (kept0 + [y])[..k];
        if k < |kept0| {
          assert (kept0 + [y])[..k] == kept0[..k];
          assert OccursBefore(x, z, kept0);
          FilterOccursBefore(b, position, ms, x, z);
          OccursBeforeExtend(x, z, all0, y);
        } else {
          assert (kept0 + [y])[..k] == kept0;
          KeptTargets(b, position, ms, z);
          assert (all0 + [y])[|all0|] == x && (all0 + [y])[..|all0|] == all0;
        }
      } else {
        FilterOccursBefore(b, position, ms, x, z);
        OccursBeforeExtend(x, z, all0, y);
      }
    }
  }

  /** An on-board target of an allowed offset is a target of a kept offset. */
  lemma KeptTargets(b: Board, position: Square, allowedMoves: seq<Offset>, z: Square)
    ensures InBounds(z) && z in Translate(position, allowedMoves)
        ==> z in Translate(position, b.PossibleMoves(position, allowedMoves))
  {
    var all, kept := Translate(position, allowedMoves), b.PossibleMoves(position, allowedMoves);
    if InBounds(z) && z in all {
      var i :| 0 <= i < |all| && all[i] == z;
      var i1 :| 0 <= i1 < |kept| && kept[i1] == allowedMoves[i];
      assert Translate(position, kept)[i1] == z;
    }
  }
}
