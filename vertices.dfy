/** Vertices of the search tree, kept in an arena: the objects the program links
    through `parent` become entries of a sequence that refer to earlier entries by index. */
module Vertices {
  import opened Squares

  datatype Option<T> = None | Some(value: T)

  /** What a search that reaches its goal reports: the number of moves and the
      squares from the start to the goal. */
  datatype Outcome = Outcome(moves: int, path: seq<Square>)

  /** One vertex of the search tree: its square and the arena index of the vertex
      it was discovered from (None for the root). */
  datatype Vertex = Vertex(data: Square, parent: Option<nat>)

  /** Parent links point to earlier vertices, and only the root, at index 0, has none. */
  ghost predicate ValidArena(vs: seq<Vertex>)
  {
    && |vs| >= 1
    && vs[0].parent.None?
    && forall i :: 0 < i < |vs| ==> vs[i].parent.Some? && vs[i].parent.value < i
  }

  /** Each vertex other than the root is one step away from its parent. */
  ghost predicate ParentSteps(moves: seq<Offset>, vs: seq<Vertex>)
  {
    && ValidArena(vs)
    && forall i :: 0 < i < |vs| ==> StepFromParent(moves, vs, i)
  }

  /** Vertex i is one step away from its parent. */
  ghost predicate StepFromParent(moves: seq<Offset>, vs: seq<Vertex>, i: nat)
    requires ValidArena(vs) && 0 < i < |vs|
  {
    IsMove(moves, vs[vs[i].parent.value].data, vs[i].data)
  }

  /** `depth[i]` counts the parent links from vertex i up to the root. */
  ghost predicate Depths(vs: seq<Vertex>, depth: seq<nat>)
  {
    && ValidArena(vs)
    && |depth| == |vs|
    && depth[0] == 0
    && forall i :: 0 < i < |vs| ==> depth[i] == depth[vs[i].parent.value] + 1
  }

  /** The squares on the parent links from the root down to vertex i. */
  function Chain(vs: seq<Vertex>, i: nat): (r: seq<Square>)
    requires ValidArena(vs) && i < |vs|
    ensures |r| >= 1 && r[0] == vs[0].data && r[|r| - 1] == vs[i].data
    decreases i
  {
    if i == 0 then [vs[0].data] else Chain(vs, vs[i].parent.value) + [vs[i].data]
  }

  /** The parent chain of every vertex is a walk from the root's square. */
  lemma {:induction false} ChainIsWalk(moves: seq<Offset>, vs: seq<Vertex>, i: nat)
    requires ParentSteps(moves, vs) && i < |vs|
    ensures IsWalk(moves, Chain(vs, i), vs[0].data, vs[i].data)
    decreases i
  {
    if i == 0 {
      assert Steps(moves, [vs[0].data]);
    } else {
      var p := vs[i].parent.value;
      ChainIsWalk(moves, vs, p);
      assert StepFromParent(moves, vs, i);
      StepsExtend(moves, Chain(vs, p), vs[i].data);
    }
  }

  /** The parent chain of a vertex makes as many moves as the vertex's depth. */
  lemma {:induction false} ChainLength(vs: seq<Vertex>, depth: seq<nat>, i: nat)
    requires Depths(vs, depth) && i < |vs|
    ensures |Chain(vs, i)| == depth[i] + 1
    decreases i
  {
    if i > 0 {
      ChainLength(vs, depth, vs[i].parent.value);
    }
  }

}
