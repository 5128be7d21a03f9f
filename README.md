# Knight moves: a verified model of the breadth-first search

The program finds a shortest sequence of knight moves between two squares of an
8x8 chess board. It runs a breadth-first search over a graph of vertices that it
builds as it goes:

- `Board#possible_moves` keeps the offsets whose target square lies on the board.
- `Board#possible_destinations` turns those offsets into squares, drops repeats
  and drops squares already visited.
- `Vertex#check_queue` runs a FIFO queue seeded with the root vertex. It stops at
  the first dequeued vertex that holds the goal.
- `Vertex#add_vertex` marks a destination visited when it is enqueued, creates
  its vertex with the dequeued vertex as parent, and appends it to the queue.
- `Vertex#trace_path` follows parent links back to the root and reports the path,
  reversed, and its number of moves.

The model has six modules:

- `Squares` (squares.dfy): squares and offsets as `(int, int)`, walks on the
  board, and the Ruby sequence operations the board uses (`map`, `uniq`, array
  difference, `reverse`).
- `Boards` (boards.dfy): `class Board` with the mutable `visited` list and the
  two pure move-generation functions.
- `Vertices` (vertices.dfy): the vertex objects as an arena. This is a sequence
  of `Vertex(data, parent)` in which the parent is the index of an earlier entry.
  Index 0 is the root vertex, so the identity test `current == from` in
  `trace_path` becomes `current == 0`.
- `BreadthFirst` (breadth_first.dfy): what a shortest-path answer must be
  (`IsShortest`), the loop invariants of `check_queue`, and the lemmas that move
  those invariants through one step.
- `Graphs` (graphs.dfy): `class Graph` holding the board and the arena, with the
  imperative `CheckQueue`, `AddVertex` and `TracePath`. The queue is a sequence
  of arena indices that is shifted and appended exactly as the Ruby array is.
- `Knights` (knights.dfy): the offset table, the entry point `Move`, and facts
  about knight distances.

`Graph.CheckQueue` is proved to return a shortest walk when one exists and
`None` when none does. The proof uses ghost depths and a ghost map from each
discovered square to its first vertex. The invariant says every vertex before
the queue has been expanded. Because the queue is FIFO, depths along the arena
never decrease, and every vertex is at most one deeper than the head of the
queue. Termination follows because each expansion either visits a new board
square or shortens the queue.

Two behaviours of the code are kept as written:

- The start square is never added to `visited`, so a grandchild of the root can
  hold the start square again. `Tree` only rules out repeats among the
  non-root vertices (`EnqueuedOnce`).
- Neither square is checked against the board. A goal off the board is never
  dequeued, and the search returns `None` (`ShortestOffBoard`). A start off the
  board still expands, because only the target of each move is bounds-checked.

So the code neither marks the start visited nor checks either square against
the board, and the model does the same.

## Model

| member | source | states |
|---|---|---|
| Squares.Add | knight.rb:78 | The `destination` proc gives the square whose difference from the position is the offset, coordinate by coordinate |
| Squares.Translate | knight.rb:78-81 | Mapping the displacement over the offsets gives one square per offset, each the position plus that offset, in the same order |
| Squares.Uniq | knight.rb:81 | `uniq` keeps exactly the elements of its input, once each, in their original order |
| Squares.UniqFirstOrder | knight.rb:81 | `uniq` lists the elements in the order of their first occurrences |
| Squares.Minus | knight.rb:81 | Array difference keeps exactly the elements of `s` not in `t`, in order, and keeps them distinct when `s` is |
| Squares.MinusFirstOrder | knight.rb:81 | Array difference keeps the order of first occurrences that its receiver has |
| Squares.MinusKeepsCopies | knight.rb:81 | Array difference keeps every copy in `s` of an element that `t` does not contain |
| Squares.TranslateSubsequence | knight.rb:78-81 | Mapping the displacement over an ordered selection of offsets gives an ordered selection of the mapped squares |
| Squares.SubsequenceTransitive | knight.rb:81 | An ordered selection from an ordered selection is an ordered selection, so `select`, `map`, `uniq` and `-` together keep the offset order |
| Squares.Reversed | knight.rb:51 | `reverse` keeps the length, and element k of the result is element k from the end of the collected path |
| Squares.DistinctSquaresBound | knight.rb:89-90 | At most 64 distinct squares lie on the board |
| Squares.WalkEndInBounds | knight.rb:85-92 | A walk of at least one move ends on the board, since every move's target is bounds-checked |
| Boards.Board.constructor | knight.rb:70-73 | A new board has visited nothing |
| Boards.Board.PossibleMoves | knight.rb:85-92 | An offset is kept exactly when it is allowed and its target has both coordinates in 0..7, and the kept offsets stay in their order |
| Boards.Board.PossibleDestinations | knight.rb:76-82 | A square is returned exactly when it is on the board, one allowed offset from the position and not yet visited; each is returned once, in the order of the offsets |
| Boards.MovesKeepCopies | knight.rb:86-91 | `select` keeps every copy of an offset whose target is on the board and no copy of the others |
| Boards.DestinationsInOffsetOrder | knight.rb:76-82 | The destinations come in the order in which their squares first occur among the targets of all allowed offsets, even when the offset list has repeats |
| Boards.FilterOccursBefore | knight.rb:81-91 | Leaving out the offsets whose target is off the board keeps which of two squares first occurs earlier, when the later one is on the board |
| Boards.KeptTargets | knight.rb:85-92 | Every on-board target of an allowed offset is the target of an offset that `possible_moves` keeps |
| Boards.TargetsAreMoves | knight.rb:77-81 | Translating the in-bounds offsets yields exactly the squares one allowed move away |
| Boards.DestinationsFromMoves | knight.rb:76-82 | The membership and order that `PossibleDestinations` promises follow from those of `possible_moves`, `map`, `uniq` and `-` |
| Vertices.Chain | knight.rb:37-46 | The squares along the parent links of a vertex run from the root's square to the vertex's own square |
| Vertices.ChainIsWalk | knight.rb:59 | Since each vertex is one allowed move from its parent, the parent chain of every vertex is a walk from the root's square |
| Vertices.ChainLength | knight.rb:37-46 | The parent chain of a vertex has one square more than the vertex's depth |
| BreadthFirst.ShortestToSelf | knight.rb:24-28 | When the goal is the start, the only acceptable answer is the path `[from]` with 0 moves |
| BreadthFirst.ShortestOffBoard | knight.rb:26-34 | A goal off the board, other than the start itself, is never reached, so the answer is `None` |
| BreadthFirst.WalkCovered | knight.rb:26-34 | If every vertex shallower than a bound is expanded, then any walk from the root either makes at least that many moves or ends on a square whose first vertex is expanded and is no deeper than the walk |
| BreadthFirst.FrontierStart | knight.rb:24 | The queue holding only the root vertex, with nothing visited, satisfies the loop invariant |
| BreadthFirst.StartExpanding | knight.rb:27-28 | Shifting a vertex that does not hold the goal starts its expansion with the invariant intact |
| BreadthFirst.ExpandStep | knight.rb:54-64 | Adding an unvisited destination as a child of the dequeued vertex keeps the expansion invariant |
| BreadthFirst.TreeStep | knight.rb:57-59 | Appending the destination to visited and its vertex, with the dequeued vertex as parent, keeps the tree shape and the distinctness of visited |
| BreadthFirst.LayersStep | knight.rb:59-62 | The new vertex is one deeper than its parent, and depths stay non-decreasing along the queue order |
| BreadthFirst.ClosedStep | knight.rb:59-62 | Appending a vertex keeps every earlier expanded vertex expanded |
| BreadthFirst.QueueStep | knight.rb:62 | Appending the new vertex's index keeps the queue the suffix of the arena, and keeps every vertex at most one deeper than the dequeued one |
| BreadthFirst.FinishExpanding | knight.rb:30-32 | Once all destinations of the dequeued vertex are enqueued, it counts as expanded, which restores the loop invariant |
| BreadthFirst.FoundShortest | knight.rb:28 | When the dequeued vertex holds the goal, its parent chain is a walk to the goal that no other walk beats |
| BreadthFirst.ExhaustedShortest | knight.rb:26-34 | When the queue runs empty without the goal, no walk reaches the goal |
| BreadthFirst.EnqueuedOnce | knight.rb:57-62 | No two non-root vertices hold the same square, so no square other than the start is enqueued twice |
| BreadthFirst.VisitedBound | knight.rb:57-62 | The visited list holds distinct board squares, so a search never creates more than 65 vertices |
| Graphs.Graph.constructor | knight.rb:4-7 | A new graph holds only the root vertex for the start square and a fresh, empty board |
| Graphs.Graph.TracePath | knight.rb:37-46 | Following parent links from the goal vertex to the root and reversing yields the root-to-goal chain, with a move count one less than its length |
| Graphs.Graph.AddVertex | knight.rb:54-64 | The destination is appended to visited, its vertex with parent `current` to the arena, and that vertex's index to the queue |
| Graphs.Graph.AddVertices | knight.rb:32 | The destinations, in order, are appended to visited and as children of `current`, and the expansion invariant holds afterwards |
| Graphs.Graph.ExpandVertex | knight.rb:30-32 | Visited and the arena grow by exactly the possible destinations of the dequeued vertex, and the queue by their new vertices' indices; the vertex is then expanded, and either a new board square was visited or nothing changed |
| Graphs.Graph.CheckQueue | knight.rb:23-34 | The search terminates and its answer is a shortest walk from the start to the goal, or `None` when no walk exists; the vertices form a tree of one-move parent links, at most 65 of them |
| Graphs.Children | knight.rb:59 | The vertices created for a list of destinations are, as a collection, exactly one vertex per destination square with parent `current`, and distinct when the destinations are |
| Graphs.UnvisitedShrinks | knight.rb:57-62 | Visiting a new board square shrinks the set of board squares not yet visited |
| Knights.Move | knight.rb:103-105 | A query from `from` to `to` with the knight offsets gives a shortest knight walk or `None`; `[from]` with 0 moves when `to == from`; `None` when `to` is off the board and differs from `from` |
| Knights.AllowedMoves | knight.rb:99-100 | The frozen table of the eight knight offsets, in the order the search tries them |
| Knights.LShaped | knight.rb:99-100 | The table holds exactly the eight L-shaped offsets, each once: one coordinate changes by 1 and the other by 2 |
| Knights.OffsetsSymmetric | knight.rb:99-100 | Every knight offset is undone by another knight offset |
| Knights.BackStep | knight.rb:99-100 | Each move of a knight walk that starts on the board can be taken backwards |
| Knights.ReversedWalk | knight.rb:99-100 | A knight walk that starts on the board, read backwards, is a knight walk |
| Knights.DistanceSymmetric | knight.rb:99-100 | Between two board squares, a walk exists one way exactly when it exists the other way, and the shortest move counts agree |
| Knights.WalkSumBound | knight.rb:99-100 | A knight walk of k moves changes x + y by at most 3k |
| Knights.CornerToCorner | knight.rb:113 | The query from [1, 1] to [7, 7] takes exactly four moves |

## Left out

- `print_result` (knight.rb:49-52) prints the move count and the reversed path with `puts`. Ruby then returns `nil` from the search. The model returns `Outcome(moves, path)` with those two values instead, and does no console output.
- The `neighbors` hash (knight.rb:61) is written but never read, so the model does not keep it.
- The `@board` array of `Board#initialize` (knight.rb:72) has no size, so it is always empty and never read. The model leaves it out.
- The script call `knight_moves([1,1],[7,7])` (knight.rb:113) is not modelled as a call. `Knights.CornerToCorner` states its answer instead.
- `knight_moves` (knight.rb:109-111) and `Graph#traverse` (knight.rb:9-11) only forward their arguments. Both are folded into `Knights.Move`, which builds the graph and calls `CheckQueue` directly.
- `Knight` (knight.rb:95-101) holds only the frozen offset table, so it is the constant `Knights.AllowedMoves`, not a class.
- Graphs.Graph.CheckQueue: requires a graph in the state the constructor leaves. In the program, `traverse` is only ever called on a new graph.
- There is no `InvalidPosition` check, because the code has none; out-of-board squares behave as described above.
- The model does not prove that every pair of board squares is connected by knight moves. So it does not prove that a query between two board squares always returns `Some`, except for the query of knight.rb:113.
