/** The A* driver (solveByAStar): a frontier of search nodes, repeatedly
    take a cheapest node, stop if it is solved, otherwise add its children.
    The frontier is a sequence standing for Java's PriorityQueue. A round
    takes the first cheapest node in frontier order (MinIndex), so Step and
    the runs built from it follow that one choice among equal-cost nodes;
    StepSpec and the lemmas built on it hold for whichever cheapest node is
    taken. */
module AStar {
  import opened Base
  import opened Positions
  import opened Moves
  import opened Boards
  import opened Heuristic
  import opened PartialSolutions

  /** How a search ends. */
  datatype SearchResult =
    | Solved(solution: PartialSolution)  // a solved node is returned
    | NoSolution                         // the frontier ran empty: null
    | Aborted(error: Error)              // Board.doMove threw
    | BudgetSpent                        // the iteration budget ran out

  /** One round of the loop: either the search ends, or it goes on with a
      new frontier. */
  datatype Round = Done(result: SearchResult) | Continue(frontier: seq<PartialSolution>)

  predicate AllWf(frontier: seq<PartialSolution>)
  {
    forall k :: 0 <= k < |frontier| ==> Wf(frontier[k].board)
  }

  /** Node i costs no more than any other node of the frontier. */
  predicate IsMin(frontier: seq<PartialSolution>, i: int)
  {
    0 <= i < |frontier| && forall j :: 0 <= j < |frontier| ==> frontier[i].cost <= frontier[j].cost
  }

  /** A cheapest node is one that compareTo puts after no other node, the
      order by which the priority queue polls. */
  lemma IsMinByCompareTo(frontier: seq<PartialSolution>, i: int)
    ensures IsMin(frontier, i) <==>
      0 <= i < |frontier| && forall j :: 0 <= j < |frontier| ==> CompareTo(frontier[i], frontier[j]) <= 0
  {
    if 0 <= i < |frontier| {
      forall j | 0 <= j < |frontier|
        ensures CompareTo(frontier[i], frontier[j]) <= 0 <==> frontier[i].cost <= frontier[j].cost
      {
        CompareToOrdersByCost(frontier[i], frontier[j]);
      }
    }
  }

  /** poll: the position of the first cheapest node in frontier order. */
  function MinIndex(frontier: seq<PartialSolution>): (i: nat)
    requires |frontier| > 0
    ensures IsMin(frontier, i)
  {
    if |frontier| == 1 then 0
    else
      var i := MinIndex(frontier[1..]) + 1;
      if frontier[0].cost <= frontier[i].cost then 0 else i
  }

  /** The frontier without node i. */
  function RemoveAt(frontier: seq<PartialSolution>, i: int): (r: seq<PartialSolution>)
    requires 0 <= i < |frontier|
    ensures |r| == |frontier| - 1
    ensures forall k :: 0 <= k < |r| ==> r[k] == frontier[if k < i then k else k + 1]
  {
    frontier[..i] + frontier[i + 1..]
  }

  /** poll takes exactly one node out: the frontier without node i, with
      that node added back, is the frontier as a multiset. */
  lemma RemoveAtPermutes(frontier: seq<PartialSolution>, i: int)
    requires 0 <= i < |frontier|
    ensures multiset(RemoveAt(frontier, i)) + multiset{frontier[i]} == multiset(frontier)
  {
    assert frontier == frontier[..i] + [frontier[i]] + frontier[i + 1..];
  }

  /** The expansion loop: a copy of `ps` advanced by each move in turn;
      the first doMove that fails ends it with that failure. */
  function Expand(ps: PartialSolution, moves: seq<Move>): Result<seq<PartialSolution>>
    requires Wf(ps.board) && forall k :: 0 <= k < |moves| ==> CheckMove(ps.board, moves[k])
  {
    if moves == [] then Ok([])
    else
      match PartialSolutions.DoMove(ps, moves[0])
      case Err(e) => Err(e)
      case Ok(child) =>
        match Expand(ps, moves[1..])
        case Err(e) => Err(e)
        case Ok(rest) => Ok([child] + rest)
  }

  /** The expansion succeeds exactly when every doMove does, and then child
      k is `ps` advanced by move k. */
  lemma ExpandSpec(ps: PartialSolution, moves: seq<Move>)
    requires Wf(ps.board) && forall k :: 0 <= k < |moves| ==> CheckMove(ps.board, moves[k])
    ensures Expand(ps, moves).Ok? <==> forall k :: 0 <= k < |moves| ==> PartialSolutions.DoMove(ps, moves[k]).Ok?
    ensures Expand(ps, moves).Ok? ==> |Expand(ps, moves).value| == |moves|
    ensures Expand(ps, moves).Ok? ==>
      forall k :: 0 <= k < |moves| ==> PartialSolutions.DoMove(ps, moves[k]) == Ok(Expand(ps, moves).value[k])
  {
    ExpandOk(ps, moves);
    ExpandChildren(ps, moves);
  }

  /** The expansion succeeds exactly when every doMove does. */
  lemma {:induction false} ExpandOk(ps: PartialSolution, moves: seq<Move>)
    requires Wf(ps.board) && forall k :: 0 <= k < |moves| ==> CheckMove(ps.board, moves[k])
    ensures Expand(ps, moves).Ok? <==> forall k :: 0 <= k < |moves| ==> PartialSolutions.DoMove(ps, moves[k]).Ok?
  {
    if moves != [] {
      var tail := moves[1..];
      ExpandOk(ps, tail);
      if PartialSolutions.DoMove(ps, moves[0]).Ok? {
        if Expand(ps, tail).Err? {
          var k :| 0 <= k < |tail| && PartialSolutions.DoMove(ps, tail[k]).Err?;
          assert tail[k] == moves[k + 1];
        } else {
          forall k | 0 <= k < |moves|
            ensures PartialSolutions.DoMove(ps, moves[k]).Ok?
          {
            if k > 0 {
              assert moves[k] == tail[k - 1];
            }
          }
        }
      }
    }
  }

  /** A successful expansion has one child per move, child k being `ps`
      advanced by move k. */
  lemma {:induction false} ExpandChildren(ps: PartialSolution, moves: seq<Move>)
    requires Wf(ps.board) && forall k :: 0 <= k < |moves| ==> CheckMove(ps.board, moves[k])
    ensures Expand(ps, moves).Ok? ==> |Expand(ps, moves).value| == |moves|
    ensures Expand(ps, moves).Ok? ==>
      forall k :: 0 <= k < |moves| ==> PartialSolutions.DoMove(ps, moves[k]) == Ok(Expand(ps, moves).value[k])
  {
    if moves != [] && Expand(ps, moves).Ok? {
      var tail := moves[1..];
      ExpandChildren(ps, tail);
      var children := Expand(ps, moves).value;
      forall k | 0 <= k < |moves|
        ensures PartialSolutions.DoMove(ps, moves[k]) == Ok(children[k])
      {
        if k > 0 {
          assert moves[k] == tail[k - 1];
        }
      }
    }
  }

  /** `next` is the frontier after taking the cheapest node i, finding it
      unsolved, and adding one child per valid move of it: the child's
      sequence is the parent's plus that move. */
  predicate Expanded(frontier: seq<PartialSolution>, i: int, next: seq<PartialSolution>)
    requires AllWf(frontier)
  {
    && IsMin(frontier, i)
    && !IsSolution(frontier[i])
    && |next| >= |frontier| - 1
    && next[..|frontier| - 1] == RemoveAt(frontier, i)
    && var moves := PartialSolutions.ValidMoves(frontier[i]);
       && |next| == |frontier| - 1 + |moves|
       && forall k :: 0 <= k < |moves| ==>
            PartialSolutions.DoMove(frontier[i], moves[k]) == Ok(next[|frontier| - 1 + k])
  }

  /** One iteration of the loop of solveByAStar. What each kind of round
      does with the cheapest node is stated by StepSpec. */
  function Step(frontier: seq<PartialSolution>): (r: Round)
    requires AllWf(frontier)
    ensures r == Done(NoSolution) <==> frontier == []
    ensures r.Done? ==> !r.result.BudgetSpent?
    ensures r.Continue? ==> AllWf(r.frontier)
  {
    if frontier == [] then Done(NoSolution)
    else
      var i := MinIndex(frontier);
      var psol := frontier[i];
      if IsSolution(psol) then Done(Solved(psol))
      else
        match Expand(psol, PartialSolutions.ValidMoves(psol))
        case Err(e) => Done(Aborted(e))
        case Ok(children) =>
          ChildrenWf(psol, PartialSolutions.ValidMoves(psol), children);
          NextWf(frontier, i, children);
          Continue(RemoveAt(frontier, i) + children)
  }

  /** A round takes a cheapest node: it returns that node when it is
      solved, fails when expanding it fails, and otherwise goes on with the
      frontier that expands it. */
  lemma StepSpec(frontier: seq<PartialSolution>)
    requires AllWf(frontier)
    ensures Step(frontier).Done? && Step(frontier).result.Solved? ==>
      exists i :: IsMin(frontier, i) && frontier[i] == Step(frontier).result.solution && IsSolution(frontier[i])
    ensures Step(frontier).Done? && Step(frontier).result.Aborted? ==>
      exists i :: && IsMin(frontier, i) && !IsSolution(frontier[i])
                  && Expand(frontier[i], PartialSolutions.ValidMoves(frontier[i])).Err?
    ensures Step(frontier).Continue? ==> exists i :: Expanded(frontier, i, Step(frontier).frontier)
  {
    if frontier != [] {
      var i := MinIndex(frontier);
      if !IsSolution(frontier[i]) {
        match Expand(frontier[i], PartialSolutions.ValidMoves(frontier[i]))
        case Err(_) =>
        case Ok(children) =>
          ExpandIsExpanded(frontier, i, children);
      }
    }
  }

  /** Dropping the cheapest unsolved node and appending its children is an
      expansion step. */
  lemma ExpandIsExpanded(frontier: seq<PartialSolution>, i: int, children: seq<PartialSolution>)
    requires AllWf(frontier) && IsMin(frontier, i) && !IsSolution(frontier[i])
    requires Expand(frontier[i], PartialSolutions.ValidMoves(frontier[i])) == Ok(children)
    ensures Expanded(frontier, i, RemoveAt(frontier, i) + children)
  {
    var kept := RemoveAt(frontier, i);
    var next := kept + children;
    var moves := PartialSolutions.ValidMoves(frontier[i]);
    ExpandSpec(frontier[i], moves);
    assert next[..|kept|] == kept;
    forall k | 0 <= k < |moves|
      ensures PartialSolutions.DoMove(frontier[i], moves[k]) == Ok(next[|kept| + k])
    {
      assert next[|kept| + k] == children[k];
    }
  }

  /** The frontier without node i, followed by well-formed children, is
      well formed. */
  lemma NextWf(frontier: seq<PartialSolution>, i: int, children: seq<PartialSolution>)
    requires AllWf(frontier) && 0 <= i < |frontier| && AllWf(children)
    ensures AllWf(RemoveAt(frontier, i) + children)
  {
    var kept := RemoveAt(frontier, i);
    var next := kept + children;
    forall k | 0 <= k < |next|
      ensures Wf(next[k].board)
    {
      if k < |kept| {
        assert next[k] == kept[k];
      } else {
        assert next[k] == children[k - |kept|];
      }
    }
  }

  /** Every child of an expansion has a well-formed board. */
  lemma ChildrenWf(ps: PartialSolution, moves: seq<Move>, children: seq<PartialSolution>)
    requires Wf(ps.board) && forall k :: 0 <= k < |moves| ==> CheckMove(ps.board, moves[k])
    requires Expand(ps, moves) == Ok(children)
    ensures AllWf(children)
  {
    ExpandSpec(ps, moves);
    forall k | 0 <= k < |children|
      ensures Wf(children[k].board)
    {
      assert PartialSolutions.DoMove(ps, moves[k]) == Ok(children[k]);
    }
  }

  // ---------------------------------------------------------------------
  // What the loop keeps

  /** The node's board is the initial board with the node's moves replayed,
      and its cached cost is g + h. */
  predicate Reaches(initial: Board, ps: PartialSolution)
  {
    Wf(initial) && CostInvariant(ps) && Replay(initial, ps.sequence) == Some(ps.board)
  }

  predicate AllReach(initial: Board, frontier: seq<PartialSolution>)
  {
    forall k :: 0 <= k < |frontier| ==> Reaches(initial, frontier[k])
  }

  /** The root node reaches its own board with no moves. */
  lemma RootReaches(initial: Board)
    requires Wf(initial)
    ensures AllReach(initial, [New(initial)])
  {
  }

  /** A reached node on a valid initial board has a valid board. */
  lemma ReachesValid(initial: Board, ps: PartialSolution)
    requires Valid(initial) && Reaches(initial, ps)
    ensures Valid(ps.board)
  {
    ReplayValid(initial, ps.sequence);
  }

  /** A child made by a legal move from a node that reaches its board
      reaches the child's board. */
  lemma ChildReaches(initial: Board, parent: PartialSolution, m: Move, child: PartialSolution)
    requires Reaches(initial, parent) && CheckMove(parent.board, m)
    requires PartialSolutions.DoMove(parent, m) == Ok(child)
    ensures Reaches(initial, child)
  {
    MoveSequenceLeadsToBoard(initial, parent, m);
  }

  /** The nodes kept from the old frontier are old nodes. */
  lemma KeptNodes(frontier: seq<PartialSolution>, i: int, next: seq<PartialSolution>, k: int)
    requires AllWf(frontier) && Expanded(frontier, i, next) && 0 <= k < |frontier| - 1
    ensures next[k] == frontier[if k < i then k else k + 1]
  {
    assert next[k] == next[..|frontier| - 1][k];
  }

  /** The nodes added to the frontier are the children of the node taken. */
  lemma AddedNodes(frontier: seq<PartialSolution>, i: int, next: seq<PartialSolution>, k: int)
    requires AllWf(frontier) && Expanded(frontier, i, next) && |frontier| - 1 <= k < |next|
    ensures var m := PartialSolutions.ValidMoves(frontier[i])[k - (|frontier| - 1)];
      CheckMove(frontier[i].board, m) && PartialSolutions.DoMove(frontier[i], m) == Ok(next[k])
  {
  }

  /** Every node of the next frontier again reaches its board from the
      initial board. */
  lemma StepKeepsReaches(initial: Board, frontier: seq<PartialSolution>, i: int, next: seq<PartialSolution>)
    requires AllReach(initial, frontier) && AllWf(frontier) && Expanded(frontier, i, next)
    ensures AllReach(initial, next)
  {
    forall k | 0 <= k < |next|
      ensures Reaches(initial, next[k])
    {
      if k < |frontier| - 1 {
        KeptNodes(frontier, i, next, k);
      } else {
        AddedNodes(frontier, i, next, k);
        ChildReaches(initial, frontier[i], PartialSolutions.ValidMoves(frontier[i])[k - (|frontier| - 1)], next[k]);
      }
    }
  }

  /** Expanding a node with a valid board never fails. */
  lemma ExpandOkOnValid(ps: PartialSolution)
    requires Valid(ps.board)
    ensures Expand(ps, PartialSolutions.ValidMoves(ps)).Ok?
  {
    var moves := PartialSolutions.ValidMoves(ps);
    ExpandSpec(ps, moves);
    forall k | 0 <= k < |moves|
      ensures PartialSolutions.DoMove(ps, moves[k]).Ok?
    {
      DoMoveValid(ps.board, moves[k]);
    }
  }

  /** From a frontier of valid boards no doMove fails. */
  lemma StepNeverAbortsOnValid(frontier: seq<PartialSolution>)
    requires AllWf(frontier) && forall k :: 0 <= k < |frontier| ==> Valid(frontier[k].board)
    ensures !(Step(frontier).Done? && Step(frontier).result.Aborted?)
  {
    var r := Step(frontier);
    StepSpec(frontier);
    if r.Done? && r.result.Aborted? {
      var i :| && IsMin(frontier, i) && !IsSolution(frontier[i])
               && Expand(frontier[i], PartialSolutions.ValidMoves(frontier[i])).Err?;
      ExpandOkOnValid(frontier[i]);
    }
  }

  /** Costs never drop below the node just taken: on valid boards every
      node of the next frontier costs at least as much, so the costs of the
      nodes taken in turn never decrease. */
  lemma StepCostMonotone(frontier: seq<PartialSolution>, i: int, next: seq<PartialSolution>)
    requires AllWf(frontier) && Expanded(frontier, i, next)
    requires forall k :: 0 <= k < |frontier| ==> Valid(frontier[k].board) && CostInvariant(frontier[k])
    ensures forall k :: 0 <= k < |next| ==> frontier[i].cost <= next[k].cost
  {
    forall k | 0 <= k < |next|
      ensures frontier[i].cost <= next[k].cost
    {
      if k < |frontier| - 1 {
        KeptNodes(frontier, i, next, k);
      } else {
        AddedNodes(frontier, i, next, k);
        ChildCostNotBelowParent(frontier[i], PartialSolutions.ValidMoves(frontier[i])[k - (|frontier| - 1)]);
      }
    }
  }

  /** On a valid initial board every reached node has a valid board, so
      the next round cannot abort. */
  lemma ValidFrontierNeverAborts(initial: Board, frontier: seq<PartialSolution>)
    requires Valid(initial) && AllReach(initial, frontier)
    ensures !(Step(frontier).Done? && Step(frontier).result.Aborted?)
  {
    forall k | 0 <= k < |frontier|
      ensures Valid(frontier[k].board)
    {
      ReachesValid(initial, frontier[k]);
    }
    StepNeverAbortsOnValid(frontier);
  }

  /** A node the round returns is one of the frontier's nodes. */
  lemma SolvedIsFromFrontier(initial: Board, frontier: seq<PartialSolution>)
    requires AllReach(initial, frontier)
    ensures Step(frontier).Done? && Step(frontier).result.Solved? ==>
      Reaches(initial, Step(frontier).result.solution) && IsSolution(Step(frontier).result.solution)
  {
    StepSpec(frontier);
  }

  /** A solved initial board ends the first round with the root. */
  lemma SolvedRootFirstRound(initial: Board, frontier: seq<PartialSolution>)
    requires Wf(initial) && IsSolved(initial) && frontier == [New(initial)]
    ensures Step(frontier) == Done(Solved(New(initial)))
  {
  }

  // ---------------------------------------------------------------------
  // Runs of the loop

  /** `trace` lists the frontiers the loop held, round by round: each
      round but the last went on from one frontier to the next. */
  predicate IsRun(trace: seq<seq<PartialSolution>>)
  {
    && (forall k :: 0 <= k < |trace| ==> AllWf(trace[k]))
    && (forall k {:trigger Step(trace[k])} :: 0 <= k < |trace| - 1 ==> Step(trace[k]) == Continue(trace[k + 1]))
  }

  /** The round on the last frontier of `trace` ends the search with
      `result`. The fact is stated for the index of that frontier, so it
      is only drawn on where that round is in view. */
  predicate EndsWith(trace: seq<seq<PartialSolution>>, result: SearchResult)
  {
    forall k {:trigger Step(trace[k])} :: 0 <= k == |trace| - 1 && AllWf(trace[k]) ==> Step(trace[k]) == Done(result)
  }

  /** A round that ends the search on the last frontier of a run ends the
      run with the round's result. */
  lemma RunEnds(trace: seq<seq<PartialSolution>>, frontier: seq<PartialSolution>)
    requires |trace| > 0 && trace[|trace| - 1] == frontier && AllWf(frontier) && Step(frontier).Done?
    ensures EndsWith(trace, Step(frontier).result)
    ensures Step(frontier).result == NoSolution <==> trace[|trace| - 1] == []
  {
    forall k | 0 <= k == |trace| - 1 && AllWf(trace[k])
      ensures Step(trace[k]) == Done(Step(frontier).result)
    {
      assert trace[k] == frontier;
    }
  }

  /** A round that goes on extends the run by the frontier it leaves. */
  lemma RunExtends(trace: seq<seq<PartialSolution>>, next: seq<PartialSolution>)
    requires |trace| > 0 && IsRun(trace) && Step(trace[|trace| - 1]) == Continue(next)
    ensures IsRun(trace + [next]) && (trace + [next])[..|trace|] == trace
  {
    var t := trace + [next];
    forall k | 0 <= k < |t|
      ensures AllWf(t[k])
    {
      if k < |trace| {
        assert t[k] == trace[k];
      }
    }
    forall k | 0 <= k < |t| - 1
      ensures Step(t[k]) == Continue(t[k + 1])
    {
      assert t[k] == trace[k];
      if k < |trace| - 1 {
        assert t[k + 1] == trace[k + 1];
      }
    }
  }

  /** A round that goes on keeps every node reached from the initial
      board. */
  lemma StepKeepsAllReach(initial: Board, frontier: seq<PartialSolution>)
    requires AllWf(frontier) && AllReach(initial, frontier) && Step(frontier).Continue?
    ensures AllReach(initial, Step(frontier).frontier)
  {
    StepSpec(frontier);
    var i :| Expanded(frontier, i, Step(frontier).frontier);
    StepKeepsReaches(initial, frontier, i, Step(frontier).frontier);
  }

  // ---------------------------------------------------------------------
  // The driver

  /** The body of the loop: one round on the last frontier of the run so
      far, with what it means for the run and for the search. */
  method RunRound(board: Board, ghost trace: seq<seq<PartialSolution>>, frontier: seq<PartialSolution>)
    returns (round: Round)
    requires Wf(board) && |trace| > 0 && IsRun(trace) && trace[|trace| - 1] == frontier
    requires AllWf(frontier) && AllReach(board, frontier)
    ensures round == Done(NoSolution) <==> frontier == []
    ensures round.Done? ==> !round.result.BudgetSpent? && EndsWith(trace, round.result)
    ensures round.Done? && round.result.Solved? ==>
      Reaches(board, round.result.solution) && IsSolution(round.result.solution)
    ensures Valid(board) ==> !(round.Done? && round.result.Aborted?)
    ensures IsSolved(board) && frontier == [New(board)] ==> round == Done(Solved(New(board)))
    ensures round.Continue? ==>
      IsRun(trace + [round.frontier]) && AllWf(round.frontier) && AllReach(board, round.frontier)
  {
    if Valid(board) {
      ValidFrontierNeverAborts(board, frontier);
    }
    if IsSolved(board) && frontier == [New(board)] {
      SolvedRootFirstRound(board, frontier);
    }
    SolvedIsFromFrontier(board, frontier);
    round := Step(frontier);
    if round.Done? {
      RunEnds(trace, frontier);
    } else {
      RunExtends(trace, round.frontier);
      StepKeepsAllReach(board, frontier);
    }
  }

  /** solveByAStar, with at most `fuel` rounds of the loop. `trace` is the
      run of the loop from the root frontier: the search ends with the
      round on its last frontier, so NoSolution comes exactly from a
      frontier that ran empty, and BudgetSpent exactly when all `fuel`
      rounds went on. A returned node is solved, its cached cost is g + h,
      and its moves replay the initial board to its board; the caller's
      board is a value and is not changed. A valid initial board never
      makes doMove fail, and a board that is already solved is returned as
      the root. */
  method SolveByAStar(board: Board, fuel: nat) returns (r: SearchResult, ghost trace: seq<seq<PartialSolution>>)
    requires Wf(board)
    ensures IsRun(trace) && 0 < |trace| <= fuel + 1 && trace[0] == [New(board)]
    ensures r == BudgetSpent <==> |trace| == fuel + 1
    ensures r != BudgetSpent ==> EndsWith(trace, r)
    ensures r == NoSolution <==> r != BudgetSpent && trace[|trace| - 1] == []
    ensures r.Solved? ==> Reaches(board, r.solution) && IsSolution(r.solution)
    ensures r.Solved? ==> Replay(board, MoveSequence(r.solution)) == Some(r.solution.board)
    ensures Valid(board) ==> !r.Aborted?
    ensures fuel > 0 && IsSolved(board) ==> r == Solved(New(board))
  {
    var frontier := [New(board)];
    trace := [frontier];
    RootReaches(board);
    var rounds := 0;
    while rounds < fuel
      invariant rounds <= fuel && |trace| == rounds + 1
      invariant IsRun(trace) && trace[0] == [New(board)] && trace[rounds] == frontier
      invariant AllWf(frontier) && AllReach(board, frontier)
      invariant IsSolved(board) ==> rounds == 0
      decreases fuel - rounds
    {
      var round := RunRound(board, trace, frontier);
      if round.Done? {
        r := round.result;
        return;
      }
      trace := trace + [round.frontier];
      frontier := round.frontier;
      rounds := rounds + 1;
    }
    r := BudgetSpent;
  }
}
