/** The search of one query: Graph.new(from) and check_queue, add_vertex and
    trace_path over the arena of vertices. */
module Graphs {
  import opened Squares
  import opened Boards
  import opened Vertices
  import opened BreadthFirst

  /** The search of one query: Graph.new(from) builds the root vertex and a fresh board. */
  class Graph {
    /** The board of this search; only its `visited` list changes. */
    const board: Board
    /** Every vertex created so far; index 0 is the root vertex `from`. */
    var vertices: seq<Vertex>

    constructor (data: Square)
      ensures vertices == [Vertex(data, None)]
      ensures fresh(board) && board.visited == []
    {
      vertices := [Vertex(data, None)];
      board := new Board();
    }

    /** trace_path: collects squares along parent links from `goal` until the root
        vertex (identity: index 0), then reports them reversed with their move count. */
    method TracePath(goal: nat) returns (outcome: Outcome)
      requires ValidArena(vertices) && goal < |vertices|
      ensures outcome.path == Chain(vertices, goal)
      ensures outcome.moves == |outcome.path| - 1
    {
      var path: seq<Square> := [];
      var current: nat := goal;
      while true
        invariant current < |vertices|
        invariant Chain(vertices, current) + Reversed(path) == Chain(vertices, goal)
        decreases current
      {
        var extended := path + [vertices[current].data];
        assert extended[..|extended| - 1] == path;
        assert Reversed(extended) == [vertices[current].data] + Reversed(path);
        path := extended;
        if current == 0 {
          outcome := Outcome(|path| - 1, Reversed(path));
          return;
        }
        current := vertices[current].parent.value;
      }
    }

    /** add_vertex for one destination: marks it visited, creates its vertex with
        parent `current` and appends that vertex to the queue. */
    method AddVertex(current: nat, destination: Square, queue: seq<nat>) returns (newQueue: seq<nat>)
      modifies this, board
      ensures board.visited == old(board.visited) + [destination]
      ensures vertices == old(vertices) + [Vertex(destination, Some(current))]
      ensures newQueue == queue + [|old(vertices)|]
    {
      board.visited := board.visited + [destination];
      vertices := vertices + [Vertex(destination, Some(current))];
      newQueue := queue + [|vertices| - 1];
    }

    /** `destinations.each(&add_vertex(board, current, queue))`: adds every
        destination, in order, as a child of `current`. */
    method AddVertices(ghost moves: seq<Offset>, ghost from: Square, ghost to: Square, current: nat,
                       destinations: seq<Square>, queue: seq<nat>, ghost depth: seq<nat>,
                       ghost nodeOf: map<Square, nat>)
      returns (newQueue: seq<nat>, ghost newDepth: seq<nat>, ghost newNodeOf: map<Square, nat>)
      requires Expanding(moves, from, to, current, [], vertices, board.visited, queue, depth, nodeOf)
      requires NoDuplicates(destinations)
      requires forall d :: d in destinations ==> IsMove(moves, vertices[current].data, d) && d !in board.visited
      modifies this, board
      ensures board.visited == old(board.visited) + destinations
      ensures vertices == old(vertices) + Children(destinations, current)
      ensures Expanding(moves, from, to, current, destinations, vertices, board.visited, newQueue, newDepth, newNodeOf)
    {
      ghost var visited0 := board.visited;
      ghost var vertices0 := vertices;
      newQueue, newDepth, newNodeOf := queue, depth, nodeOf;
      var k := 0;
      while k < |destinations|
        invariant 0 <= k <= |destinations|
        invariant board.visited == visited0 + destinations[..k]
        invariant vertices == vertices0 + Children(destinations[..k], current)
        invariant Expanding(moves, from, to, current, destinations[..k], vertices, board.visited, newQueue, newDepth, newNodeOf)
        decreases |destinations| - k
      {
        var destination := destinations[k];
        PendingNotVisited(visited0, destinations, k, board.visited);
        assert vertices[current] == vertices0[current];
        ExpandStep(moves, from, to, current, destinations[..k], vertices, board.visited, newQueue, newDepth, newNodeOf, destination);
        ChildrenStep(vertices0, destinations, k, current);
        AppendToPrefix(visited0, destinations, k);
        newDepth := newDepth + [newDepth[current] + 1];
        newNodeOf := NextNodeOf(newNodeOf, destination, |vertices|);
        newQueue := AddVertex(current, destination, newQueue);
        k := k + 1;
      }
      assert destinations[..k] == destinations;
    }

    /** The expansion of a dequeued vertex: its possible destinations, each added as
        its child. Afterwards the vertex counts as expanded, and either some square
        was newly visited or nothing changed. */
    method ExpandVertex(ghost from: Square, ghost to: Square, current: nat, allowedMoves: seq<Offset>,
                        queue: seq<nat>, ghost depth: seq<nat>, ghost nodeOf: map<Square, nat>)
      returns (newQueue: seq<nat>, ghost newDepth: seq<nat>, ghost newNodeOf: map<Square, nat>)
      requires Expanding(allowedMoves, from, to, current, [], vertices, board.visited, queue, depth, nodeOf)
      modifies this, board
      ensures var destinations := old(board.PossibleDestinations(vertices[current].data, allowedMoves));
        && board.visited == old(board.visited) + destinations
        && vertices == old(vertices) + Children(destinations, current)
      ensures Frontier(allowedMoves, from, to, vertices, board.visited, newQueue, newDepth, newNodeOf)
      ensures |vertices| - |newQueue| == current + 1
      ensures || BoardSquares() - Elements(board.visited) < BoardSquares() - Elements(old(board.visited))
              || (board.visited == old(board.visited) && newQueue == queue)
    {
      ghost var visited0 := board.visited;
      ghost var vertices0 := vertices;
      var destinations := board.PossibleDestinations(vertices[current].data, allowedMoves);
      newQueue, newDepth, newNodeOf := AddVertices(allowedMoves, from, to, current, destinations, queue, depth, nodeOf);
      assert vertices[current] == vertices0[current];
      FinishExpanding(allowedMoves, from, to, current, destinations, visited0, vertices, board.visited, newQueue, newDepth, newNodeOf);
      UnvisitedShrinks(allowedMoves, vertices0[current].data, visited0, destinations);
      if destinations == [] {
        assert board.visited == visited0 && vertices == vertices0;
      }
    }

    /** check_queue: breadth-first search from the root vertex to `to`. */
    method CheckQueue(to: Square, allowedMoves: seq<Offset>) returns (result: Option<Outcome>)
      requires |vertices| == 1 && vertices[0].parent.None? && board.visited == []
      modifies this, board
      ensures IsShortest(allowedMoves, old(vertices[0].data), to, result)
      ensures Tree(allowedMoves, old(vertices[0].data), vertices, board.visited)
      ensures |vertices| <= 65
    {
      ghost var from := vertices[0].data;
      var queue: seq<nat> := [0];
      ghost var depth: seq<nat> := [0];
      ghost var nodeOf: map<Square, nat> := map[from := 0];
      FrontierStart(allowedMoves, from, to);
      while queue != []
        invariant Frontier(allowedMoves, from, to, vertices, board.visited, queue, depth, nodeOf)
        decreases BoardSquares() - Elements(board.visited), |queue|
      {
        ghost var queue0 := queue;
        var current := queue[0];
        queue := queue[1..];
        if vertices[current].data == to {
          FoundShortest(allowedMoves, from, to, vertices, board.visited, queue0, depth, nodeOf);
          var outcome := TracePath(current);
          result := Some(outcome);
          VisitedBound(allowedMoves, from, vertices, board.visited);
          return;
        }
        StartExpanding(allowedMoves, from, to, vertices, board.visited, queue0, depth, nodeOf);
        queue, depth, nodeOf := ExpandVertex(from, to, current, allowedMoves, queue, depth, nodeOf);
      }
      result := None;
      ExhaustedShortest(allowedMoves, from, to, vertices, board.visited, depth, nodeOf);
      VisitedBound(allowedMoves, from, vertices, board.visited);
    }
  }

  /** The vertices that add_vertex creates for `destinations`, children of `parent`:
      as a collection, exactly one vertex per destination square, each with parent `parent`. */
  function Children(destinations: seq<Square>, parent: nat): (r: seq<Vertex>)
    ensures forall v :: v in r <==> v.parent == Some(parent) && v.data in destinations
    ensures NoDuplicates(destinations) ==> NoDuplicates(r)
  {
    var r := seq(|destinations|, j requires 0 <= j < |destinations| => Vertex(destinations[j], Some(parent)));
    ChildrenMembers(destinations, parent, r);
    r
  }

  lemma ChildrenMembers(destinations: seq<Square>, parent: nat, r: seq<Vertex>)
    requires |r| == |destinations|
    requires forall j :: 0 <= j < |r| ==> r[j] == Vertex(destinations[j], Some(parent))
    ensures forall v :: v in r <==> v.parent == Some(parent) && v.data in destinations
    ensures NoDuplicates(destinations) ==> NoDuplicates(r)
  {
    forall v: Vertex | v.parent == Some(parent) && v.data in destinations ensures v in r {
      var j :| 0 <= j < |destinations| && destinations[j] == v.data;
      assert r[j] == v;
    }
  }

  lemma ChildrenStep(vertices0: seq<Vertex>, destinations: seq<Square>, k: nat, parent: nat)
    requires k < |destinations|
    ensures vertices0 + Children(destinations[..k], parent) + [Vertex(destinations[k], Some(parent))]
         == vertices0 + Children(destinations[..k + 1], parent)
  {
    assert Children(destinations[..k + 1], parent) == Children(destinations[..k], parent) + [Vertex(destinations[k], Some(parent))];
  }

  lemma AppendToPrefix(visited0: seq<Square>, destinations: seq<Square>, k: nat)
    requires k < |destinations|
    ensures destinations[..k] + [destinations[k]] == destinations[..k + 1]
    ensures visited0 + destinations[..k] + [destinations[k]] == visited0 + destinations[..k + 1]
  {
    assert destinations[..k + 1] == destinations[..k] + [destinations[k]];
  }

  /** Visiting new board squares shrinks the set of squares not yet visited. */
  lemma UnvisitedShrinks(moves: seq<Offset>, p: Square, visited0: seq<Square>, destinations: seq<Square>)
    requires forall d :: d in destinations ==> IsMove(moves, p, d) && d !in visited0
    ensures destinations != [] ==> BoardSquares() - Elements(visited0 + destinations) < BoardSquares() - Elements(visited0)
    ensures destinations == [] ==> visited0 + destinations == visited0
  {
    if destinations != [] {
      var d := destinations[0];
      var after := visited0 + destinations;
      assert d in after && InBounds(d);
      assert d in after && d !in visited0;
      assert Elements(visited0) <= Elements(after);
      assert d in Elements(after) - Elements(visited0);
    }
  }

  lemma PendingNotVisited(visited0: seq<Square>, destinations: seq<Square>, k: nat, visited: seq<Square>)
    requires k < |destinations| && visited == visited0 + destinations[..k]
    requires NoDuplicates(destinations) && forall d :: d in destinations ==> d !in visited0
    ensures destinations[k] !in visited
  {
  }
}
