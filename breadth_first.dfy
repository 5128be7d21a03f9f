/** What breadth-first search promises, and the invariants of check_queue that keep
    the promise. */
module BreadthFirst {
  import opened Squares
  import opened Vertices

  /** `result` is what a shortest-path search from `from` to `to` must report:
      a walk whose move count no other walk beats, or None when no walk exists. */
  ghost predicate IsShortest(moves: seq<Offset>, from: Square, to: Square, result: Option<Outcome>)
  {
    match result
    case Some(o) =>
      && IsWalk(moves, o.path, from, to)
      && o.moves == |o.path| - 1
      && forall w :: IsWalk(moves, w, from, to) ==> o.moves <= |w| - 1
    case None =>
      forall w :: !IsWalk(moves, w, from, to)
  }

  /** When the goal is the start, the only shortest answer is the one-square path. */
  lemma ShortestToSelf(moves: seq<Offset>, from: Square, result: Option<Outcome>)
    requires IsShortest(moves, from, from, result)
    ensures result == Some(Outcome(0, [from]))
  {
    assert Steps(moves, [from]);
    assert IsWalk(moves, [from], from, from);
    if result.Some? {
      var path := result.value.path;
      assert |path| == 1 && path[0] == from;
      assert path == [from];
    }
  }

  /** A goal off the board is never reached, unless it is the start itself. */
  lemma ShortestOffBoard(moves: seq<Offset>, from: Square, to: Square, result: Option<Outcome>)
    requires IsShortest(moves, from, to, result)
    requires !InBounds(to) && to != from
    ensures result == None
  {
    if result.Some? {
      WalkEndInBounds(moves, result.value.path, from, to);
    }
  }

  /** Depths never decrease along the arena, which is the order of the queue. */
  ghost predicate Monotone(depth: seq<nat>)
  {
    forall i, j :: 0 <= i <= j < |depth| ==> depth[i] <= depth[j]
  }

  /** `nodeOf` maps each discovered square to the first vertex created for it,
      and the root square to the root. */
  ghost predicate Discovered(vs: seq<Vertex>, depth: seq<nat>, nodeOf: map<Square, nat>)
  {
    && Depths(vs, depth)
    && vs[0].data in nodeOf
    && nodeOf[vs[0].data] == 0
    && forall s :: s in nodeOf ==> nodeOf[s] < |vs| && vs[nodeOf[s]].data == s
  }

  /** The first h vertices are expanded: every square one step from one of them was
      discovered at a depth at most one more than its own. */
  ghost predicate Closed(moves: seq<Offset>, vs: seq<Vertex>, depth: seq<nat>, nodeOf: map<Square, nat>, h: nat)
    requires Discovered(vs, depth, nodeOf)
  {
    && h <= |vs|
    && forall i, m :: 0 <= i < h && m in moves && InBounds(Add(vs[i].data, m)) ==>
         Add(vs[i].data, m) in nodeOf && depth[nodeOf[Add(vs[i].data, m)]] <= depth[i] + 1
  }

  /** The heart of breadth-first minimality. Let every vertex shallower than `bound` be
      among the first h, which are expanded. Then a walk from the root square either
      makes at least `bound` moves, or ends on a square whose first vertex is expanded
      and no deeper than the walk is long. */
  lemma {:induction false} WalkCovered(moves: seq<Offset>, vs: seq<Vertex>, depth: seq<nat>,
                                       nodeOf: map<Square, nat>, h: nat, bound: int, w: seq<Square>)
    requires Discovered(vs, depth, nodeOf) && Closed(moves, vs, depth, nodeOf, h)
    requires forall i :: 0 <= i < |vs| && depth[i] < bound ==> i < h
    requires |w| >= 1 && w[0] == vs[0].data && Steps(moves, w)
    ensures var t := w[|w| - 1];
      || bound <= |w| - 1
      || (t in nodeOf && nodeOf[t] < h && depth[nodeOf[t]] <= |w| - 1)
    decreases |w|
  {
    if |w| > 1 {
      var w' := w[..|w| - 1];
      StepsPrefix(moves, w, |w| - 1);
      WalkCovered(moves, vs, depth, nodeOf, h, bound, w');
      var p := w'[|w'| - 1];
      var t := w[|w| - 1];
      assert IsMove(moves, w[|w| - 2], w[|w| - 1]);
      if bound > |w'| - 1 {
        var j := nodeOf[p];
        var m := Sub(t, p);
        assert vs[j].data == p && Add(vs[j].data, m) == t;
      }
    }
  }


  /** The tree built so far: parent links are steps, the root holds `from`, and
      `visited` lists the squares of the other vertices, in order and each once. */
  ghost predicate Tree(moves: seq<Offset>, from: Square, vs: seq<Vertex>, visited: seq<Square>)
  {
    && ParentSteps(moves, vs)
    && vs[0] == Vertex(from, None)
    && |visited| == |vs| - 1
    && (forall i :: 0 < i < |vs| ==> visited[i - 1] == vs[i].data)
    && NoDuplicates(visited)
  }

  /** The queue holds the last |queue| arena indices, oldest first. */
  ghost predicate Fifo(queue: seq<nat>, n: nat)
  {
    && |queue| <= n
    && forall k :: 0 <= k < |queue| ==> queue[k] == n - |queue| + k
  }

  /** Depth and first-vertex bookkeeping, and depths in queue order. */
  ghost predicate Layers(vs: seq<Vertex>, visited: seq<Square>, depth: seq<nat>, nodeOf: map<Square, nat>)
  {
    && Discovered(vs, depth, nodeOf)
    && (forall s :: s in visited ==> s in nodeOf)
    && Monotone(depth)
  }

  /** The invariant of the loop of check_queue: the vertices before the queue are
      expanded, none of them holds `to`, and the queue spans at most two depths. */
  ghost predicate Frontier(moves: seq<Offset>, from: Square, to: Square, vs: seq<Vertex>, visited: seq<Square>,
                           queue: seq<nat>, depth: seq<nat>, nodeOf: map<Square, nat>)
  {
    && Tree(moves, from, vs, visited)
    && Layers(vs, visited, depth, nodeOf)
    && Fifo(queue, |vs|)
    && (queue != [] ==> forall i :: 0 <= i < |vs| ==> depth[i] <= depth[queue[0]] + 1)
    && Closed(moves, vs, depth, nodeOf, |vs| - |queue|)
    && forall i :: 0 <= i < |vs| - |queue| ==> vs[i].data != to
  }

  /** The invariant while the destinations of the dequeued vertex `current` are
      added: `added` lists those added so far. */
  ghost predicate Expanding(moves: seq<Offset>, from: Square, to: Square, current: nat, added: seq<Square>,
                            vs: seq<Vertex>, visited: seq<Square>, queue: seq<nat>, depth: seq<nat>,
                            nodeOf: map<Square, nat>)
  {
    && Tree(moves, from, vs, visited)
    && Layers(vs, visited, depth, nodeOf)
    && Fifo(queue, |vs|)
    && |vs| - |queue| == current + 1
    && (forall i :: 0 <= i < |vs| ==> depth[i] <= depth[current] + 1)
    && Closed(moves, vs, depth, nodeOf, current)
    && (forall d :: d in added ==> d in nodeOf && depth[nodeOf[d]] <= depth[current] + 1)
    && forall i :: 0 <= i <= current ==> vs[i].data != to
  }

  /** The first vertex of `d`, once a vertex at index `index` is created for it. */
  function NextNodeOf(nodeOf: map<Square, nat>, d: Square, index: nat): map<Square, nat>
  {
    if d in nodeOf then nodeOf else nodeOf[d := index]
  }

  /** The queue seeded with the root vertex alone satisfies the loop invariant. */
  lemma FrontierStart(moves: seq<Offset>, from: Square, to: Square)
    ensures Frontier(moves, from, to, [Vertex(from, None)], [], [0], [0], map[from := 0])
  {
  }

  /** Dequeuing a vertex that does not hold `to` starts its expansion. */
  lemma StartExpanding(moves: seq<Offset>, from: Square, to: Square, vs: seq<Vertex>, visited: seq<Square>,
                       queue: seq<nat>, depth: seq<nat>, nodeOf: map<Square, nat>)
    requires Frontier(moves, from, to, vs, visited, queue, depth, nodeOf)
    requires queue != [] && vs[queue[0]].data != to
    ensures Expanding(moves, from, to, queue[0], [], vs, visited, queue[1..], depth, nodeOf)
  {
  }

  /** add_vertex keeps the expansion invariant for a destination not yet visited. */
  lemma ExpandStep(moves: seq<Offset>, from: Square, to: Square, current: nat, added: seq<Square>,
                   vs: seq<Vertex>, visited: seq<Square>, queue: seq<nat>, depth: seq<nat>,
                   nodeOf: map<Square, nat>, d: Square)
    requires Expanding(moves, from, to, current, added, vs, visited, queue, depth, nodeOf)
    requires IsMove(moves, vs[current].data, d) && d !in visited
    ensures Expanding(moves, from, to, current, added + [d], vs + [Vertex(d, Some(current))], visited + [d],
                      queue + [|vs|], depth + [depth[current] + 1], NextNodeOf(nodeOf, d, |vs|))
  {
    TreeStep(moves, from, vs, visited, current, d);
    LayersStep(vs, visited, depth, nodeOf, current, d);
    ClosedStep(moves, vs, depth, nodeOf, current, d);
    QueueStep(to, current, added, vs, queue, depth, nodeOf, d);
  }

  lemma QueueStep(to: Square, current: nat, added: seq<Square>, vs: seq<Vertex>, queue: seq<nat>,
                  depth: seq<nat>, nodeOf: map<Square, nat>, d: Square)
    requires Fifo(queue, |vs|) && |vs| - |queue| == current + 1 && |depth| == |vs|
    requires forall i :: 0 <= i < |vs| ==> depth[i] <= depth[current] + 1
    requires forall s :: s in nodeOf ==> nodeOf[s] < |vs|
    requires forall e :: e in added ==> e in nodeOf && depth[nodeOf[e]] <= depth[current] + 1
    requires forall i :: 0 <= i <= current ==> vs[i].data != to
    ensures var vs', depth', nodeOf' := vs + [Vertex(d, Some(current))], depth + [depth[current] + 1], NextNodeOf(nodeOf, d, |vs|);
      && Fifo(queue + [|vs|], |vs'|)
      && |vs'| - |queue + [|vs|]| == current + 1
      && (forall i :: 0 <= i < |vs'| ==> depth'[i] <= depth'[current] + 1)
      && (forall e :: e in added + [d] ==> e in nodeOf' && depth'[nodeOf'[e]] <= depth'[current] + 1)
      && forall i :: 0 <= i <= current ==> vs'[i].data != to
  {
    var vs', depth', nodeOf' := vs + [Vertex(d, Some(current))], depth + [depth[current] + 1], NextNodeOf(nodeOf, d, |vs|);
    assert Fifo(queue + [|vs|], |vs'|);
    forall e | e in added + [d] ensures e in nodeOf' && depth'[nodeOf'[e]] <= depth'[current] + 1 {
      if e in added {
        assert depth'[nodeOf'[e]] == depth[nodeOf[e]];
      }
    }
  }

  lemma TreeStep(moves: seq<Offset>, from: Square, vs: seq<Vertex>, visited: seq<Square>, current: nat, d: Square)
    requires Tree(moves, from, vs, visited) && current < |vs|
    requires IsMove(moves, vs[current].data, d) && d !in visited
    ensures Tree(moves, from, vs + [Vertex(d, Some(current))], visited + [d])
  {
    var vs' := vs + [Vertex(d, Some(current))];
    NoDuplicatesAppend(visited, d);
    assert ValidArena(vs');
    forall i | 0 < i < |vs'| ensures StepFromParent(moves, vs', i) {
      if i < |vs| {
        assert StepFromParent(moves, vs, i);
        assert vs'[i] == vs[i] && vs'[vs[i].parent.value] == vs[vs[i].parent.value];
      }
    }
  }

  lemma LayersStep(vs: seq<Vertex>, visited: seq<Square>, depth: seq<nat>, nodeOf: map<Square, nat>, current: nat, d: Square)
    requires Layers(vs, visited, depth, nodeOf) && current < |vs|
    requires forall i :: 0 <= i < |vs| ==> depth[i] <= depth[current] + 1
    ensures Layers(vs + [Vertex(d, Some(current))], visited + [d], depth + [depth[current] + 1], NextNodeOf(nodeOf, d, |vs|))
  {
    var vs', depth', nodeOf' := vs + [Vertex(d, Some(current))], depth + [depth[current] + 1], NextNodeOf(nodeOf, d, |vs|);
    assert ValidArena(vs');
    forall i | 0 < i < |vs'| ensures depth'[i] == depth'[vs'[i].parent.value] + 1 {
      if i < |vs| {
        assert vs'[i] == vs[i];
      }
    }
    assert Depths(vs', depth');
    assert Discovered(vs', depth', nodeOf');
    assert Monotone(depth');
  }

  lemma ClosedStep(moves: seq<Offset>, vs: seq<Vertex>, depth: seq<nat>, nodeOf: map<Square, nat>, current: nat, d: Square)
    requires Discovered(vs, depth, nodeOf) && current < |vs|
    requires Closed(moves, vs, depth, nodeOf, current)
    requires Discovered(vs + [Vertex(d, Some(current))], depth + [depth[current] + 1], NextNodeOf(nodeOf, d, |vs|))
    ensures Closed(moves, vs + [Vertex(d, Some(current))], depth + [depth[current] + 1], NextNodeOf(nodeOf, d, |vs|), current)
  {
    var vs', depth', nodeOf' := vs + [Vertex(d, Some(current))], depth + [depth[current] + 1], NextNodeOf(nodeOf, d, |vs|);
    forall i, m | 0 <= i < current && m in moves && InBounds(Add(vs'[i].data, m))
      ensures Add(vs'[i].data, m) in nodeOf' && depth'[nodeOf'[Add(vs'[i].data, m)]] <= depth'[i] + 1
    {
      assert vs'[i] == vs[i];
      var t := Add(vs[i].data, m);
      assert t in nodeOf && nodeOf'[t] == nodeOf[t];
    }
  }

  /** Once every destination of `current` is added, `current` counts as expanded. */
  lemma FinishExpanding(moves: seq<Offset>, from: Square, to: Square, current: nat, destinations: seq<Square>,
                        visited0: seq<Square>, vs: seq<Vertex>, visited: seq<Square>, queue: seq<nat>,
                        depth: seq<nat>, nodeOf: map<Square, nat>)
    requires Expanding(moves, from, to, current, destinations, vs, visited, queue, depth, nodeOf)
    requires forall d :: IsMove(moves, vs[current].data, d) && d !in visited0 ==> d in destinations
    requires forall s :: s in visited0 ==> s in visited
    ensures Frontier(moves, from, to, vs, visited, queue, depth, nodeOf)
  {
    var p := vs[current].data;
    forall i, m | 0 <= i < current + 1 && m in moves && InBounds(Add(vs[i].data, m))
      ensures Add(vs[i].data, m) in nodeOf && depth[nodeOf[Add(vs[i].data, m)]] <= depth[i] + 1
    {
      if i == current {
        var t := Add(p, m);
        assert Sub(t, p) == m && IsMove(moves, p, t);
      }
    }
    assert Closed(moves, vs, depth, nodeOf, current + 1);
  }

  /** When the dequeued vertex holds `to`, its parent chain is a shortest walk. */
  lemma FoundShortest(moves: seq<Offset>, from: Square, to: Square, vs: seq<Vertex>, visited: seq<Square>,
                      queue: seq<nat>, depth: seq<nat>, nodeOf: map<Square, nat>)
    requires Frontier(moves, from, to, vs, visited, queue, depth, nodeOf)
    requires queue != [] && vs[queue[0]].data == to
    ensures var c := Chain(vs, queue[0]); IsShortest(moves, from, to, Some(Outcome(|c| - 1, c)))
  {
    var g := queue[0];
    ChainIsWalk(moves, vs, g);
    ChainLength(vs, depth, g);
    forall w | IsWalk(moves, w, from, to) ensures depth[g] <= |w| - 1 {
      WalkCovered(moves, vs, depth, nodeOf, g, depth[g], w);
    }
  }

  /** When the queue runs empty, no walk reaches `to`. */
  lemma ExhaustedShortest(moves: seq<Offset>, from: Square, to: Square, vs: seq<Vertex>, visited: seq<Square>,
                          depth: seq<nat>, nodeOf: map<Square, nat>)
    requires Frontier(moves, from, to, vs, visited, [], depth, nodeOf)
    ensures IsShortest(moves, from, to, None)
  {
    forall w ensures !IsWalk(moves, w, from, to) {
      if |w| >= 1 && w[0] == from && Steps(moves, w) {
        WalkCovered(moves, vs, depth, nodeOf, |vs|, |w|, w);
      }
    }
  }

  /** Apart from the root, no square is given two vertices, so none is enqueued twice. */
  lemma EnqueuedOnce(moves: seq<Offset>, from: Square, vs: seq<Vertex>, visited: seq<Square>, i: nat, j: nat)
    requires Tree(moves, from, vs, visited)
    requires 0 < i < j < |vs|
    ensures vs[i].data != vs[j].data
  {
    assert visited[i - 1] == vs[i].data && visited[j - 1] == vs[j].data;
  }

  /** The visited list holds distinct board squares, so there are at most 65 vertices. */
  lemma VisitedBound(moves: seq<Offset>, from: Square, vs: seq<Vertex>, visited: seq<Square>)
    requires Tree(moves, from, vs, visited)
    ensures |vs| <= 65
  {
    forall i | 0 <= i < |visited| ensures InBounds(visited[i]) {
      assert StepFromParent(moves, vs, i + 1);
    }
    DistinctSquaresBound(visited);
  }
}
