/** A search node: the board reached so far, the moves that led there from
    the initial board, and the cached A* cost f = g + h, where g is the
    number of moves and h the Manhattan distance of the board. */
module PartialSolutions {
  import opened Base
  import opened Positions
  import opened Moves
  import opened Boards
  import opened Heuristic

  datatype PartialSolution = PartialSolution(board: Board, sequence: seq<Move>, cost: int)

  /** forwardCost: the heuristic estimate h of the remaining moves; on a
      valid board it is zero exactly at the goal. */
  function ForwardCost(ps: PartialSolution): (r: nat)
    requires Wf(ps.board)
    ensures Valid(ps.board) ==> (r == 0 <==> IsSolved(ps.board))
  {
    ManhattanZeroIffSolvedWhenValid(ps.board);
    Manhattan(ps.board)
  }

  /** backwardCost: the number g of moves taken so far. */
  function BackwardCost(ps: PartialSolution): nat
  {
    |ps.sequence|
  }

  /** The cached cost is f = g + h of the current board and sequence. */
  predicate CostInvariant(ps: PartialSolution)
  {
    Wf(ps.board) && ps.cost == ForwardCost(ps) + BackwardCost(ps)
  }

  /** PartialSolution(board): the root node, with no moves yet. */
  function New(board: Board): (r: PartialSolution)
    requires Wf(board)
    ensures r.board == board && r.sequence == [] && BackwardCost(r) == 0
    ensures CostInvariant(r)
  {
    PartialSolution(board, [], Manhattan(board))
  }

  /** doMove: applies a legal move to the owned board, appends it to the
      sequence and recomputes the cost; fails exactly when Board.doMove does. */
  function DoMove(ps: PartialSolution, m: Move): (r: Result<PartialSolution>)
    requires Wf(ps.board) && CheckMove(ps.board, m)
    ensures r.Ok? <==> Boards.DoMove(ps.board, m).Ok?
    ensures r.Ok? ==> && r.value.board == Boards.DoMove(ps.board, m).value
                      && r.value.sequence == ps.sequence + [m]
                      && BackwardCost(r.value) == BackwardCost(ps) + 1
                      && CostInvariant(r.value)
  {
    match Boards.DoMove(ps.board, m)
    case Err(e) => Err(e)
    case Ok(b) =>
      var sequence := ps.sequence + [m];
      Ok(PartialSolution(b, sequence, Manhattan(b) + |sequence|))
  }

  /** isSolution: the owned board is solved; on a valid board this is the
      same as the heuristic having reached zero. */
  function IsSolution(ps: PartialSolution): (r: bool)
    requires Wf(ps.board)
    ensures Valid(ps.board) ==> (r <==> ForwardCost(ps) == 0)
  {
    IsSolved(ps.board)
  }

  /** moveSequence: the moves from the initial board, oldest first
      (MoveSequenceLeadsToBoard states that they lead to the node's
      board). */
  function MoveSequence(ps: PartialSolution): seq<Move>
  {
    ps.sequence
  }

  /** moveSequence leads from the initial board to the node's board, and
      doMove keeps it so: replaying the child's sequence from the same
      initial board gives the child's board. */
  lemma MoveSequenceLeadsToBoard(initial: Board, ps: PartialSolution, m: Move)
    requires Wf(initial) && Wf(ps.board) && Replay(initial, MoveSequence(ps)) == Some(ps.board)
    requires CheckMove(ps.board, m) && DoMove(ps, m).Ok?
    ensures Replay(initial, MoveSequence(DoMove(ps, m).value)) == Some(DoMove(ps, m).value.board)
  {
    ReplayAppend(initial, ps.sequence, m);
  }

  /** The last move taken, if any. */
  function LastMove(ps: PartialSolution): Option<Move>
  {
    if |ps.sequence| == 0 then None else Some(ps.sequence[|ps.sequence| - 1])
  }

  /** validMoves: the legal moves of the owned board, leaving out the one
      that would undo the last move. */
  function ValidMoves(ps: PartialSolution): (r: seq<Move>)
    requires Wf(ps.board)
    ensures forall k :: 0 <= k < |r| ==> CheckMove(ps.board, r[k]) && !IsInverse(r[k], LastMove(ps))
    ensures |ps.sequence| == 0 ==> r == Boards.ValidMoves(ps.board, None)
  {
    if |ps.sequence| == 0 then Boards.ValidMoves(ps.board, None)
    else Boards.ValidMoves(ps.board, Some(ps.sequence[|ps.sequence| - 1]))
  }

  /** The candidate of each direction is a child move exactly when it is
      legal and does not undo the last move. */
  lemma ValidMovesMembers(ps: PartialSolution)
    requires Wf(ps.board)
    ensures forall e: Dir :: Candidate(ps.board, e) in ValidMoves(ps) <==>
      CheckMove(ps.board, Candidate(ps.board, e)) && !IsInverse(Candidate(ps.board, e), LastMove(ps))
  {
    Boards.ValidMovesMembers(ps.board, LastMove(ps));
  }

  /** compareTo: zero for equal costs, otherwise negative exactly when this
      node is cheaper. */
  function CompareTo(a: PartialSolution, b: PartialSolution): (r: int)
    ensures r == 0 <==> a.cost == b.cost
    ensures r < 0 <==> a.cost < b.cost
    ensures r > 0 <==> a.cost > b.cost
  {
    if a.cost == b.cost then 0 else a.cost - b.cost
  }

  /** compareTo orders nodes by cost: one is at most another exactly when
      compareTo does not put it after the other. */
  lemma CompareToOrdersByCost(a: PartialSolution, b: PartialSolution)
    ensures CompareTo(a, b) <= 0 <==> a.cost <= b.cost
    ensures CompareTo(a, b) <= 0 || CompareTo(b, a) <= 0
  {
  }

  /** On valid boards a child costs the same as its parent or two more:
      g grows by one and h changes by exactly one. */
  lemma ChildCostNotBelowParent(ps: PartialSolution, m: Move)
    requires CostInvariant(ps) && Valid(ps.board) && CheckMove(ps.board, m)
    ensures DoMove(ps, m).Ok?
    ensures DoMove(ps, m).value.cost == ps.cost || DoMove(ps, m).value.cost == ps.cost + 2
  {
    DoMoveChangesManhattanByOne(ps.board, m);
  }
}
