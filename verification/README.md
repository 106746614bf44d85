# N-puzzle board and A* solver, modelled in Dafny

This project models the sliding-puzzle engine of `week4_Puzzle`. It has two layers.

- **Board** is an immutable n-by-n grid of tiles, with `0` as the blank. It provides the Hamming and Manhattan heuristics, the goal test, structural equality, the boards one slide of the blank away (`neighbors`), and the `twin` that exchanges the first two tiles in row-major order.
- **Solver** runs A* twice in lock step. One search starts from the initial board and one from its twin. Each round pops a node of least priority from the main queue and stops if its board is the goal. Otherwise it pops from the twin's queue and stops if that board is the goal. Otherwise it queues every neighbour of each popped board except that node's predecessor's board. A node's priority is its Manhattan distance plus the moves made. The first search to pop a goal decides whether the board is solvable. The solution is rebuilt by following predecessor links.

The model is organised as follows.

- `wrappers.dfy` (`Wrappers`): `Option` stands for a nullable reference and `Result` for a call that can throw.
- `arith.dfy` (`Arith`): Java's truncating `/` and `%` (`JavaDiv`, `JavaRem`), and the few multiplication facts the grid needs.
- `board.dfy` (`Boards`): the board as a row-major `seq<int>` of length `n * n`.
  - Each operation is a pure function that mirrors the source's branches. This includes the blank search that stops in the last row holding a blank, the top/bottom/left/right order of neighbours, and the two scans of `twin`.
  - It also holds the reference definitions the rest is measured against: `IsGoal`, `Misplaced`, `Manhattan` and `OneSlideApart`, the declarative single move.
- `board_lemmas.dfy` (`BoardLemmas`): permutation facts, the heuristics' equivalences, soundness, completeness and symmetry of `neighbors`, the Manhattan step bound, and the twin's properties.
- `board_methods.dfy` (`BoardMethods`): `hamming`, `manhattan` and `isGoal` as the source writes them. Each is a nested loop with its `break`, `continue` or early `return`. `manhattan` and `isGoal` are proved equal to `Manhattan` and `IsGoal` on every well-formed board. `hamming` is proved equal to the source's count `Hamming` on every well-formed board, and equal to `Misplaced` on permutations only: on other grids the source's count, which skips the last cell, can differ.
- `solver.dfy` (`Solvers`):
  - Search nodes live in an arena, a sequence in creation order. A predecessor is an arena index, and a priority queue is a sequence of arena indices.
  - `delMin` yields some node of least priority.
  - The ghost invariant `Valid` says every node is well built from the root. A root has no moves. Every other node is one neighbour step from its predecessor, with one move more, and its priority is Manhattan plus moves.
  - `PathFacts` turns that invariant into a path from the root.
  - The solver's accessors are the fields `moves` and `result` and the predicate `IsSolvable` of the datatype `Solver`.

## Model

| member | source | states |
|---|---|---|
| Boards.FromTiles | week4_Puzzle/src/Board.java:12-18 | The copy succeeds exactly when every row is at least as long as there are rows. Shorter rows make the copy index out of range. The board has `n` equal to the number of rows, and its cell `(i, j)` holds `tiles[i][j]`. |
| Boards.Flat | week4_Puzzle/src/Board.java:37-39 | The row-major index `row * n + col` of an in-grid cell is below `n * n`, and division and remainder by `n` give back the row and the column. |
| Boards.Unflat | week4_Puzzle/src/Board.java:37-39 | Every index below `n * n` is the row-major index of exactly the cell it is split into. |
| BoardMethods.ComputeHamming | week4_Puzzle/src/Board.java:41-53 | The loop stops at the cell whose goal index is `n * n`, and counts the cells before it that do not hold their goal index. For a permutation that count is the number of non-blank tiles off their goal cell, and it is zero exactly when the board is the goal. |
| BoardLemmas.HammingIsMisplaced | week4_Puzzle/src/Board.java:41-53 | For a permutation, counting every cell except the last whose value is not its goal index gives the number of non-blank tiles off their goal cell. |
| BoardLemmas.HammingZeroIffGoal | week4_Puzzle/src/Board.java:41-53 | For a permutation, `hamming` is zero exactly when every tile is on its goal cell. |
| Boards.TileDist | week4_Puzzle/src/Board.java:60-65 | A tile's city-block distance from the cell `((v-1)/n, (v-1)%n)` is non-negative. It is zero exactly for the blank or for a tile already on that cell. |
| BoardMethods.ComputeManhattan | week4_Puzzle/src/Board.java:55-69 | The loop that skips blanks and adds each tile's row and column distance computes the Manhattan sum. That sum is non-negative and is zero exactly when the board is the goal. |
| BoardLemmas.ManhattanZeroIffGoal | week4_Puzzle/src/Board.java:55-86 | Any well-formed board has Manhattan distance zero exactly when it passes the goal test. |
| Boards.InPlaceIff | week4_Puzzle/src/Board.java:78-80 | For a non-blank tile, the goal-cell test with Java's truncating division holds exactly when the tile is the cell's row-major index plus one. Negative tiles are included. |
| BoardLemmas.GoalIffAllInPlace | week4_Puzzle/src/Board.java:71-86 | A board is the goal exactly when every cell's tile distance is zero. |
| BoardMethods.CheckGoal | week4_Puzzle/src/Board.java:71-86 | The loop with its early `return false` decides the goal: every non-blank tile stands at index `tile - 1`. Equivalently, the Manhattan distance is zero. |
| Boards.Equals | week4_Puzzle/src/Board.java:88-99 | `equals` is true exactly when the argument is non-null and has the same dimension and the same grid. |
| BoardLemmas.EqualsReflexiveSymmetric | week4_Puzzle/src/Board.java:88-99 | Equality holds of a board and itself, and does not depend on which side is the receiver. |
| Boards.Swap | week4_Puzzle/src/Board.java:101-105 | The two cells are exchanged and every other cell is unchanged, so the multiset of tiles is the same. |
| BoardLemmas.SwapKeepsPermutation | week4_Puzzle/src/Board.java:101-105 | Exchanging two cells of a permutation leaves a permutation. |
| Boards.BlankInRow | week4_Puzzle/src/Board.java:112-118 | The inner scan finds the first blank of a row at or after a column, or reports that there is none. |
| Boards.ScanRows | week4_Puzzle/src/Board.java:110-119 | The outer scan keeps the blank of the last row holding one, because the inner `break` does not stop the outer loop. |
| Boards.FindBlank | week4_Puzzle/src/Board.java:110-119 | The search finds no blank exactly when the grid has none. Otherwise it returns the first blank of the last row that holds a blank. |
| BoardLemmas.BlankOfPermutation | week4_Puzzle/src/Board.java:110-119 | On a permutation the search finds the one blank there is. |
| Boards.Targets | week4_Puzzle/src/Board.java:120-143 | The cells the blank may move to are in the grid and adjacent to the blank, and every such cell is listed. They are distinct, there are at most four, and there are at least two exactly when `n >= 2`. |
| BoardLemmas.TargetsInOrder | week4_Puzzle/src/Board.java:120-143 | The target cells come in the order top, bottom, left, right: their direction ranks strictly increase. |
| Boards.Neighbors | week4_Puzzle/src/Board.java:107-145 | There is one board per move, at most four, and at least two exactly when `n >= 2`. Each has the receiver's dimension. |
| BoardLemmas.NeighborsInOrder | week4_Puzzle/src/Board.java:107-145 | The `i`-th neighbour is the receiver with the blank moved to the `i`-th target cell and that cell's tile moved to the blank's cell. So the neighbours come in the order top, bottom, left, right. |
| BoardLemmas.NeighborsSound | week4_Puzzle/src/Board.java:107-145 | Every board `neighbors` returns is the receiver with the blank exchanged with an adjacent tile. |
| BoardLemmas.NeighborsComplete | week4_Puzzle/src/Board.java:107-145 | For a permutation, every board one slide of the blank away is among those `neighbors` returns. |
| BoardLemmas.NeighborsDistinct | week4_Puzzle/src/Board.java:107-145 | The neighbours of a permutation are pairwise different. |
| BoardLemmas.NeighborKeepsPermutation | week4_Puzzle/src/Board.java:120-143 | A slide of the blank keeps a permutation. |
| BoardLemmas.SlideBack | week4_Puzzle/src/Board.java:120-143 | Sliding the moved tile back restores the original board. |
| BoardLemmas.NeighborsSymmetric | week4_Puzzle/src/Board.java:107-145 | Every neighbour of a permutation is a permutation and has the receiver among its own neighbours. |
| BoardLemmas.ManhattanStep | week4_Puzzle/src/Board.java:120-143 | For a permutation, the board and any of its neighbours differ in Manhattan distance by exactly one. |
| Boards.ScanNonBlank | week4_Puzzle/src/Board.java:149-156 | Each `while` loop of `twin` stops at the first cell holding a tile, or at the last cell. Every cell it passes is blank. |
| Boards.TwinPair | week4_Puzzle/src/Board.java:147-157 | `twin` picks the first tile in row-major order, then the next cell after it that holds a tile, or else the last cell. |
| Boards.Twin | week4_Puzzle/src/Board.java:147-161 | The twin has the receiver's dimension and is well formed. |
| BoardLemmas.TwinProperties | week4_Puzzle/src/Board.java:147-161 | For a permutation with `n >= 2`, the twin exchanges the first two tiles in row-major order and keeps the blank in place. It is a permutation and differs from the receiver. |
| Solvers.NewNode | week4_Puzzle/src/Solver.java:16-24 | A node without a predecessor has no moves, and any other node has one move more than its predecessor. Its priority exceeds its board's Manhattan distance by its moves. |
| Solvers.Start | week4_Puzzle/src/Solver.java:37-40 | Each search starts with a single queued root node holding its board with no moves. |
| Solvers.MinimumExists | week4_Puzzle/src/Solver.java:26-28 | Under the priority order of `compareTo`, every non-empty queue holds a least node. |
| Solvers.DelMin | week4_Puzzle/src/Solver.java:26-28 | `delMin` removes exactly one queued node, and no queued node has a smaller priority than the one removed. |
| Solvers.PopMin | week4_Puzzle/src/Solver.java:43-46 | A pop keeps the search valid and leaves the arena alone. It reports whether the popped node of least priority holds a goal board. |
| Solvers.Unpruned | week4_Puzzle/src/Solver.java:47-51 | A neighbour is queued exactly when it is not the predecessor's board. Older ancestors are not excluded. |
| Solvers.ChildExists | week4_Puzzle/src/Solver.java:47-51 | For a permutation with `n >= 2`, at least one neighbour survives the pruning, so the queue never runs dry. |
| Solvers.KeepStep | week4_Puzzle/src/Solver.java:47-50 | Inserting a kept neighbour adds one node that succeeds the popped node, and queues it. |
| Solvers.DropStep | week4_Puzzle/src/Solver.java:47-48 | Skipping the predecessor's board changes neither the arena nor the queue. |
| Solvers.AddChild | week4_Puzzle/src/Solver.java:48-50 | One round of the `for` loop adds a node exactly when the neighbour is not the predecessor's board. It keeps the expansion invariant: the new nodes so far are the kept neighbours, each succeeding the popped node and each queued. |
| Solvers.NewNodeOk | week4_Puzzle/src/Solver.java:47-50 | A node added for a kept neighbour holds a permutation of the root's size, is one slide from its predecessor's board, and has one move more. |
| Solvers.AddChildren | week4_Puzzle/src/Solver.java:47-51 | After the `for` loop, the new nodes are exactly the kept neighbours, in order, each succeeding the popped node and each queued. |
| Solvers.ExpandedValid | week4_Puzzle/src/Solver.java:47-56 | The successors added by an expansion keep the search invariant: every node is one neighbour step from its predecessor, with one move more. |
| Solvers.Expand | week4_Puzzle/src/Solver.java:47-56 | An expansion keeps the search valid and only appends. The new nodes' boards are the unpruned neighbours, their predecessor is the popped node, and each is queued. |
| Solvers.PathFacts | week4_Puzzle/src/Solver.java:64-71 | Following predecessor links from any node gives a path that starts at the root, ends at the node's board, has `moves + 1` boards, and in which each board is a neighbour of the one before. |
| Solvers.Reconstruct | week4_Puzzle/src/Solver.java:64-71 | Pushing boards while following predecessor links, then reading the stack from the top, yields exactly the boards along the predecessor links from the root to the node, in that order. |
| Solvers.Conclude | week4_Puzzle/src/Solver.java:58-88 | The board is solvable (`isSolvable`, `result != null`) exactly when the main search's last node is a goal. In that case `moves` is that node's moves, and `solution` is the path of predecessor links from the root to that node. That path leads from the initial board to a goal with `moves + 1` boards. Otherwise `moves` is `-1`, there is no solution, and the twin has a path to a goal. |
| Solvers.Solve | week4_Puzzle/src/Solver.java:32-73 | A missing board is an illegal argument. An initial board that is already the goal gives `moves == 0` and the solution `[initial]`, because the first pop is the root. Otherwise exactly one outcome holds. Either the solver is solvable with a solution of `moves + 1` boards that starts at the initial board, moves one slide at a time and ends at a goal, or `moves` is `-1`, there is no solution, and the twin is shown solvable. The model may also run out of fuel. |

## Left out

- `toString`, both `main` methods, and the file reading and printing they do are I/O. They are not modelled.
- `dimension()` returns the field `n`, which the model reads directly as `Board.n`.
- The algs4 `MinPQ` and `Stack` are foreign code.
  - A queue is a sequence of arena indices, and `delMin` returns some node of least priority.
  - Which of several equal-priority nodes comes out is left open, because the heap's tie order is not part of its contract.
  - The stack is a sequence that gets each board prepended.
- Solvers.Solve: termination is not proved. It rests on the sliding-puzzle parity theorem. The loop runs for at most `fuel` rounds, and reaching that bound is reported as `OutOfFuel`.
- Solvers.Solve: when the board is reported unsolvable, the model proves that the twin is solvable, but not that the initial board is unsolvable. That would need the parity theorem.
- Solvers.Solve: optimality of `moves` under A* is not proved. The solution is shown to be a valid path of `moves + 1` boards, not a shortest one.
- Solvers.Solve: the model requires a permutation of `0 .. n*n-1` with `n >= 2`.
  - The source assumes a permutation without checking it.
  - For `n == 1`, `twin` indexes a second cell that does not exist.
  - For `n == 0`, `twin` divides by zero.
- Java's 32-bit `int` is modelled as an unbounded integer. Overflow depends on board size and on tile values.
  - For a permutation small enough to search, `n * n`, the heuristics, the moves and the priority difference in `compareTo` stay far from overflow.
  - The board functions also accept grids holding arbitrary integers. There the source can wrap: `tile - 1` in `manhattan` (week4_Puzzle/src/Board.java:63) overflows for a tile equal to `Integer.MIN_VALUE`, and distance sums can exceed the `int` range. The model computes those values without wrap-around.
- A `null` tiles array is not modelled: the constructor's `tiles.length` throws on it, and `FromTiles` takes a sequence that is always present. A `null` row inside the tiles array is not modelled either. A missing board passed to the solver is modelled as `None`. Rows longer than the number of rows contribute only their first `n` entries, as in the source.
- `equals` receiving an object of another class is not modelled: the argument is a board or `null`.
- Boards.Neighbors: a board without a blank is outside its requires. There the source would use row `-1` and index out of range.
- Boards.Twin: a board whose first `n*n - 1` cells are all blank is outside its requires. There the source's second scan would index past the grid.
- Copy independence is not modelled: later writes to the caller's tiles array, and the fresh copies made in `neighbors` and `twin`, cannot be observed. Boards are immutable values in the model, so no operation can change another board.
