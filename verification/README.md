# Sliding-tile puzzle search engine, modelled in Dafny

This project models the core of a Java solver for the generalised
nx-by-ny sliding-tile puzzle (the "15-puzzle"). The model covers:

- `Move`: a source position plus one of four directions.
- `Board`: the grid of tokens plus the blank's position, with field
  access, move legality, move application, move generation, the goal test,
  the Manhattan-distance heuristic and board equality.
- `PartialSolution`: a search node holding a board, the moves that led to
  it and the cached cost f = g + h.
- `solveByAStar`: the best-first search loop over a cost-ordered frontier.

Modules follow the Java classes:

| file | module | Java class |
|---|---|---|
| base.dfy | `Base` | `Option`, `Result` and the one exception kind (`InputMismatchException`) |
| positions.dfy | `Positions` | `Position`, plus row-major cell numbering |
| move.dfy | `Moves` | `Move` |
| board.dfy | `Boards` | `Board`, except `manhattan` |
| heuristic.dfy | `Heuristic` | `Board.manhattan`, `posLookUp`, and the heuristic's properties |
| partial_solution.dfy | `PartialSolutions` | `PartialSolution` |
| astar.dfy | `AStar` | `AStar15Puzzle.solveByAStar` |

Modelling choices:

- Every entity is an immutable datatype and every operation a pure
  function. A Java mutation such as `doMove` becomes a function that
  returns the new value.
- The grid `int[ny][nx]` is stored as one row-major sequence: cell
  (x, y) is `cells[y*nx + x]`. `GetField` and `SetField` still take
  positions. Lemmas in `Positions` connect the two views.
- A thrown `InputMismatchException` becomes `Err(InputMismatch)`. The
  driver turns a failure inside `Board.doMove` into the outcome `Aborted`.
- A Java `null` move or result becomes `None` or the outcome `NoSolution`.
- The frontier is a sequence. Each round takes the first cheapest node
  in frontier order (`MinIndex`). `Step`, and so the run that
  `SolveByAStar` returns, follow that one choice among equal-cost nodes.
  Only `StepSpec` and the lemmas built on it (`StepKeepsReaches`,
  `StepCostMonotone`, `StepNeverAbortsOnValid`) say no more than that the
  node taken is cheapest, so they hold whichever such node is taken.
- `Valid` names the boards the search is meant for:
  - the grid has the right shape;
  - every token is in [0, nx*ny);
  - exactly one cell is blank;
  - `blank` points at that cell.

  The Java code never checks this. Operations therefore do not require it.
  The lemmas that need it say so. One exception: a grid with no 0 cell
  (see "## Left out").

The main results:

- A move followed by its reverse restores the board (`DoMoveUndo`).
- `validMoves` returns exactly the legal moves that do not undo the last
  move (`ValidMovesExact`).
- On valid boards `manhattan` is zero exactly when the board is solved
  (`ManhattanZeroIffSolved`).
- One move changes `manhattan` by exactly one
  (`DoMoveChangesManhattanByOne`), so `manhattan` never exceeds the length
  of a solution (`ManhattanAdmissible`).
- On valid boards a child's cost equals its parent's or is two more. So
  the costs of the nodes the search takes never decrease
  (`StepCostMonotone`).
- Every frontier node's board is the input board with its moves replayed.
  So a returned node is solved and its moves lead from the input board to
  it (`SolveByAStar`).
- `SolveByAStar` also returns, as a ghost value, the run of the loop: the
  frontiers it held, from the root frontier on. The search answers "no
  solution" exactly when the last of them is empty, and spends its budget
  exactly when every round went on.

The model follows the code where the code does less than its
documentation comments describe:

- The comment on `isSolved` (src/Board.java:187-190) also puts the blank in
  the bottom-right corner. The code checks cells 0 .. nx*ny-2 only and
  never looks at the last cell. `Boards.SolvedValidIsIdeal` shows that on
  a valid board this still forces the blank into the last cell.

Two further facts about `setField` (src/Board.java:129-133) that the model
keeps:

- It throws the same exception kind for an off-board position and for a
  token out of range.
- It decides "off board" by `getField(pos) == -1`. An on-board cell holding
  -1 is therefore rejected as well. `GetFieldOffExactly` shows that -1
  means off-board exactly when no cell is negative.

## Model

| member | source | states |
|---|---|---|
| Moves.NewMove | src/Move.java:11-16 | a direction below 0 or at least 4 is rejected with InputMismatch; any other direction and the source are stored unchanged |
| Moves.Target | src/Move.java:22-26 | the position `step` steps away lies exactly abs(step) taxicab steps from the source, and equals the source exactly when step is 0 |
| Moves.TargetAdditive | src/Move.java:22-26 | walking a steps and then b more steps in the move's direction reaches the position a+b steps away |
| Moves.Destination | src/Move.java:18-20 | targetPosition() is one unit step from the source and never the source itself |
| Moves.IsInverse | src/Move.java:28-33 | the model of isInverse: nothing undoes a null move, and otherwise each move starts at the other's destination; its properties are stated by IsInverseSymmetric, NotSelfInverse and InverseIsReverse |
| Moves.IsInverseSymmetric | src/Move.java:28-33 | isInverse(null) is false, and a isInverse b exactly when b isInverse a |
| Moves.NotSelfInverse | src/Move.java:31-32 | no move is the inverse of itself |
| Moves.InverseIsReverse | src/Move.java:28-33 | b is the inverse of a exactly when b starts at a's destination and points the opposite way, (dir+2) mod 4 |
| Moves.Equals | src/Move.java:40-47 | two moves are equal exactly when their directions and source positions are |
| Boards.GetField | src/Board.java:114-119 | off-board positions read -1; an on-board position reads the token in its cell |
| Boards.GetFieldOffExactly | src/Board.java:114-119 | when no cell holds a negative value, getField reads -1 exactly for positions outside [0,nx)x[0,ny), and otherwise reads cell y*nx+x |
| Boards.SetField | src/Board.java:129-133 | rejects exactly when getField reads -1 at the position or the token lies outside [0, nx*ny); on success that one cell holds the token, every other position reads as before, and blank and dimensions are unchanged |
| Boards.CheckMove | src/Board.java:141-144 | a move is legal exactly when its source is on the board and holds a tile (token > 0) and its destination is on the board and holds the blank |
| Boards.DoMove | src/Board.java:151-156 | on a legal move: fails exactly when the tile's token is at least nx*ny; otherwise the tile appears at the destination, the source reads 0, blank becomes the source, and every other position is unchanged |
| Boards.DoMovePermutes | src/Board.java:151-156 | a successful doMove only rearranges the tokens: the multiset of cell values is the same before and after |
| Boards.DoMoveValid | src/Board.java:151-156 | on a valid board a legal move ends at the blank, never fails, and leaves a valid board (one blank, tracked by blank) |
| Boards.DoMoveUndo | src/Board.java:141-156 | on a valid board, after a legal move the reverse move is legal and restores the original grid and blank exactly |
| Boards.Candidate | src/Board.java:178-180 | the move built for direction d in validMoves has direction d and its destination is the blank, its source one step behind the blank |
| Boards.ValidMovesFrom | src/Board.java:175-185 | the loop over directions d..3 yields at most 4-d moves; each has direction at least d, is the candidate of its own direction, passes checkMove and does not undo the last move |
| Boards.ValidMovesFromMember | src/Board.java:175-185 | the candidate of a direction e >= d is kept by the loop from d on exactly when it passes checkMove and does not undo the last move |
| Boards.ValidMovesFromOrdered | src/Board.java:175-185 | the loop from d on yields its moves in strictly increasing direction order |
| Boards.ValidMoves | src/Board.java:175-185 | at most 4 moves, each passing checkMove, ending on the blank and not the inverse of the last move |
| Boards.ValidMovesMembers | src/Board.java:175-185 | a direction's candidate is among the moves exactly when it passes checkMove and is not the inverse of the last move |
| Boards.ValidMovesOrdered | src/Board.java:175-185 | the moves come in strictly increasing direction order, so each direction appears at most once |
| Boards.ValidMovesExact | src/Board.java:175-185 | on a valid board any move m is returned exactly when checkMove(m) holds and m does not undo the last move |
| Boards.NoBlankCellNoMoves | src/Board.java:175-185 | on a grid with no 0 cell, validMoves is empty whatever `blank` points at, since no destination holds the blank |
| Boards.ValidMovesUnrestricted | src/Board.java:163-165 | with no last move, a direction's candidate appears exactly when the blank's neighbour on that side holds a tile |
| Boards.IdealFields | src/Board.java:229-241 | the solved layout has nx*ny cells, cell k holds k+1 for every k below nx*ny-1, and the last cell holds 0 |
| Boards.SolvedFrom | src/Board.java:194-200 | the isSolved loop from counter c succeeds exactly when every cell k in [c, nx*ny-1) holds k+1 |
| Boards.IsSolved | src/Board.java:194-200 | the board is solved exactly when all cells except the last agree with the solved layout |
| Boards.SolvedValidIsIdeal | src/Board.java:194-200 | a solved valid board is exactly the solved layout 1, ..., nx*ny-1, 0, with blank at the bottom-right cell |
| Boards.Equals | src/Board.java:270-280 | two boards are equal exactly when every on-board position of the first reads the same on the second |
| Boards.EqualsSameShape | src/Board.java:270-280 | for boards of one shape, equals compares the grids and ignores blank |
| Boards.ReplayValid | src/Board.java:151-156 | replaying any move sequence successfully from a valid board yields a valid board |
| Heuristic.PosLookUp | src/Board.java:245-256 | the model of posLookUp, the scan from (0,0) that LookUpFrom states; PosLookUpIdeal gives where it finds each token of the solved layout |
| Heuristic.LookUpFrom | src/Board.java:245-256 | the scan returns the position of the last cell holding the value, or what it started with when no cell holds it |
| Heuristic.PosLookUpIdeal | src/Board.java:245-256 | in the solved layout, token v in 1..nx*ny-1 is found at cell v-1, and a value outside [0, nx*ny) gives (0,0) |
| Heuristic.TileCostIsGoalDistance | src/Board.java:216-223 | for in-range tokens, one cell's contribution to manhattan is 0 for the blank and otherwise the taxicab distance from the token's cell to cell v-1 |
| Heuristic.Manhattan | src/Board.java:212-226 | the model of manhattan, the sum of the per-cell terms over the board's cells; ManhattanIsDistanceSum ties it to an independent sum of goal distances, and ManhattanZeroIffSolved, DoMoveChangesManhattanByOne and ManhattanAdmissible give its properties |
| Heuristic.ManhattanIsDistanceSum | src/Board.java:212-226 | on a board whose tokens are in range, manhattan is the sum over non-blank tokens of their taxicab distance to their goal cells |
| Heuristic.ManhattanZeroIffSolved | src/Board.java:212-226 | on a valid board manhattan is 0 exactly when isSolved holds |
| Heuristic.DoMoveChangesManhattanByOne | src/Board.java:212-226 | on a valid board a legal move raises or lowers manhattan by exactly one |
| Heuristic.ReplayManhattanBound | src/Board.java:212-226 | along a replayed sequence of k moves from a valid board, manhattan drops by at most k |
| Heuristic.ManhattanAdmissible | src/Board.java:212-226 | manhattan of a valid board never exceeds the length of a move sequence that solves it |
| PartialSolutions.New | src/PartialSolution.java:28-33 | the root node holds the given board and an empty sequence, so backwardCost is 0, and its cost is forwardCost + backwardCost |
| PartialSolutions.DoMove | src/PartialSolution.java:53-58 | fails exactly when Board.doMove fails; otherwise the node holds the moved board, its sequence is the old one with the move appended, backwardCost grows by one and cost = forwardCost + backwardCost again |
| PartialSolutions.ForwardCost | src/PartialSolution.java:110-113 | on a valid board the heuristic part of the cost is 0 exactly when the board is solved |
| PartialSolutions.IsSolution | src/PartialSolution.java:66-69 | on a valid board the node is a solution exactly when its forwardCost is 0 |
| PartialSolutions.MoveSequence | src/PartialSolution.java:76-79 | the model of moveSequence, the plain accessor of the moves taken; that they lead from the initial board to the node's board is stated by MoveSequenceLeadsToBoard |
| PartialSolutions.BackwardCost | src/PartialSolution.java:115-118 | the model of backwardCost, the number of moves taken; New starts it at 0 and DoMove adds one (their rows) |
| PartialSolutions.MoveSequenceLeadsToBoard | src/PartialSolution.java:53-80 | if a node's move sequence replays the initial board to its board, the child made by doMove(m) again has a move sequence that replays the initial board to the child's board |
| PartialSolutions.ValidMoves | src/PartialSolution.java:88-92 | every move passes checkMove and is not the inverse of the last move taken; with no moves yet it equals the board's validMoves() |
| PartialSolutions.ValidMovesMembers | src/PartialSolution.java:88-92 | a direction's candidate is among the node's moves exactly when it passes checkMove and is not the inverse of the last move taken |
| PartialSolutions.CompareTo | src/PartialSolution.java:103-107 | the result is 0 exactly when the costs are equal, negative exactly when this node is cheaper, positive exactly when it is dearer |
| PartialSolutions.CompareToOrdersByCost | src/PartialSolution.java:103-107 | compareTo(a, b) <= 0 exactly when a costs no more than b, and any two nodes are comparable one way or the other |
| PartialSolutions.ChildCostNotBelowParent | src/PartialSolution.java:53-58 | on a valid board a child's cost equals its parent's or exceeds it by exactly two |
| AStar.IsMinByCompareTo | src/AStar15Puzzle.java:19 | a node is a cheapest one in the cost order exactly when compareTo puts it after no other node of the frontier |
| AStar.MinIndex | src/AStar15Puzzle.java:19 | poll picks a node that costs no more than any node of the frontier |
| AStar.RemoveAt | src/AStar15Puzzle.java:19 | removing the polled node leaves one node fewer, every other node kept in order |
| AStar.RemoveAtPermutes | src/AStar15Puzzle.java:19 | the frontier after poll, with the polled node added back, is the old frontier as a multiset |
| AStar.Expand | src/AStar15Puzzle.java:23-27 | the model of the expansion loop: each valid move applied to a copy of the polled node, in order, the first failing doMove ending it; its meaning is stated by ExpandSpec, ExpandOk and ExpandChildren |
| AStar.ExpandSpec | src/AStar15Puzzle.java:23-27 | the expansion succeeds exactly when doMove succeeds for every valid move; there is then one child per move, child k being the parent advanced by move k |
| AStar.ExpandOk | src/AStar15Puzzle.java:23-27 | the expansion succeeds exactly when doMove succeeds for every move |
| AStar.ExpandChildren | src/AStar15Puzzle.java:23-27 | a successful expansion has one child per move, child k being the parent advanced by move k |
| AStar.Step | src/AStar15Puzzle.java:18-29 | a round ends with "no solution" exactly when the frontier is empty, never reports a spent budget, and goes on only with well-formed boards |
| AStar.StepSpec | src/AStar15Puzzle.java:18-27 | a returned node is a cheapest frontier node and a solution; a failed doMove comes from expanding a cheapest unsolved node; otherwise a cheapest unsolved node is replaced by its children, one per valid move, each the parent plus that move |
| AStar.ChildReaches | src/AStar15Puzzle.java:23-26 | a child of a node whose moves replay the input board to its board again replays to its own board, with cost = g + h |
| AStar.StepKeepsReaches | src/AStar15Puzzle.java:18-27 | if every frontier node's moves replay the input board to that node's board, the same holds after a round |
| AStar.StepKeepsAllReach | src/AStar15Puzzle.java:18-27 | a round that goes on keeps every node of the new frontier reached from the input board |
| AStar.StepNeverAbortsOnValid | src/AStar15Puzzle.java:23-26 | from a frontier of valid boards no doMove of the expansion fails |
| AStar.StepCostMonotone | src/AStar15Puzzle.java:18-27 | on valid boards every node of the next frontier costs at least as much as the node just taken, so the costs of the nodes taken never decrease |
| AStar.SolvedRootFirstRound | src/AStar15Puzzle.java:15-22 | an already-solved input board is returned as the root in the first round |
| AStar.RunExtends | src/AStar15Puzzle.java:18-27 | a round that goes on from the last frontier of a run extends the run by the frontier it leaves |
| AStar.RunEnds | src/AStar15Puzzle.java:18-29 | a round that ends the search on the last frontier of a run ends the run with its result, which is "no solution" exactly when that frontier is empty |
| AStar.RunRound | src/AStar15Puzzle.java:19-27 | one pass of the loop body on the last frontier of a run: it ends with "no solution" exactly on an empty frontier, a returned node is solved and reached from the input board, a valid input board never aborts, and a round that goes on extends the run with a frontier whose nodes are all reached |
| AStar.SolveByAStar | src/AStar15Puzzle.java:13-30 | the returned run starts at the root frontier and each round but the last goes on to the next frontier; the result is "no solution" exactly when the search ended on an empty frontier, and a spent budget exactly when all rounds went on; a returned node is solved, has cost = g + h, and its moves replay the input board to its board; a valid input board never aborts; a solved input board yields the root |

## Left out

- The `Board(String)` constructor, `toString`, every `main`, `printBoardSequence` and the timing with `System.nanoTime`: these do file and console I/O. `Boards.Replay` plays the role of replaying a move sequence.
- `Board(int, int)` and the static `positions`/`posnx`/`posny` cache: a process-wide performance cache that forces all boards to share one size. The model iterates over each board's own cells.
- Copy constructors of `Board` and `PartialSolution`: Dafny values are immutable, so a copy is the value itself. That the copy equals the original, and that later moves on it leave the original unchanged, holds by value semantics.
- `Board.doMove` on a move that fails `checkMove`: the model requires `checkMove`, as every caller guarantees.
- Boards with no rows or no columns (src/Board.java:59-61 reads the dimensions unchecked): `Wf` requires both to be positive. On such a board `idealFields` (src/Board.java:231, 239), and so `manhattan`, throws an index exception.
- After a failed `Board.doMove`, Java has already moved `blank` before the exception. The model reports only the failure, and the driver stops with `Aborted`.
- Java 32-bit `int` arithmetic: coordinates, `nx*ny`, costs and `compareTo`'s subtraction are unbounded integers. Overflow would need boards far larger than this solver can search.
- AStar.SolveByAStar: the Java loop has no bound and need not terminate (there is no closed set). The model takes an iteration budget `fuel` and ends with `BudgetSpent` when it runs out. Nothing is claimed about what happens after the budget.
- AStar.SolveByAStar: optimality of the returned path (a shortest solution) is not proved. Only admissibility of the heuristic (`ManhattanAdmissible`) and the non-decreasing costs of taken nodes (`StepCostMonotone`) are proved.
- PriorityQueue internals and its tie-breaking among equal-cost nodes: the model takes the first cheapest node in frontier order, and `Step` and the run that `SolveByAStar` returns follow that choice. Java's heap may take another node of the same cost; only `StepSpec` and the lemmas built on it are independent of the choice.
- Boards whose grid holds no 0 cell: Java sets `blank` only when it reads a 0 (src/Board.java:66-67). On such a grid `blank` stays null, and `validMoves` throws a NullPointerException at `targetPosition(-1)` (src/Board.java:179, src/Move.java:23). So `solveByAStar` throws on such a board once it is not solved (src/AStar15Puzzle.java:23). The model's `blank` is always a position. On such a board it finds no valid move and answers "no solution" where Java throws.
