/** The Manhattan-distance heuristic of a board (Board.manhattan with its
    helpers idealFields and posLookUp), a reference definition of it as a
    sum of taxicab distances, and the facts the search relies on: it is zero
    exactly on solved boards, one move changes it by exactly one, and so it
    never exceeds the length of a solution. */
module Heuristic {
  import opened Base
  import opened Positions
  import opened Moves
  import opened Boards

  // ---------------------------------------------------------------------
  // The heuristic as the source computes it

  /** posLookUp from cell k on: scans row-major and keeps the last cell
      holding `value`; `found` is what the scan kept before cell k. */
  function LookUpFrom(value: int, fields: seq<int>, nx: int, k: nat, found: Pos): (r: Pos)
    requires nx >= 1 && k <= |fields|
    decreases |fields| - k
    ensures (forall j :: k <= j < |fields| ==> fields[j] != value) ==> r == found
    ensures forall j ::
      (k <= j < |fields| && fields[j] == value && forall j' :: j < j' < |fields| ==> fields[j'] != value)
      ==> r == PosOf(nx, j)
  {
    if k == |fields| then found
    else LookUpFrom(value, fields, nx, k + 1, if fields[k] == value then PosOf(nx, k) else found)
  }

  /** posLookUp: the last cell holding `value`, or (0, 0) when none does. */
  function PosLookUp(value: int, fields: seq<int>, nx: int): Pos
    requires nx >= 1
  {
    LookUpFrom(value, fields, nx, 0, Pos(0, 0))
  }

  /** The contribution of token v standing in cell i: nothing for the blank
      or a token already in its ideal cell, else the taxicab distance from
      where posLookUp finds v in the ideal layout. */
  function TileCost(nx: int, ideal: seq<int>, v: int, i: int): nat
    requires nx >= 1 && 0 <= i < |ideal|
  {
    if v != Blank && v != ideal[i] then
      var vPos := PosLookUp(v, ideal, nx);
      var pos := PosOf(nx, i);
      Abs(vPos.y - pos.y) + Abs(vPos.x - pos.x)
    else 0
  }

  /** The accumulation loop of manhattan over cells i.. */
  function CostFrom(nx: int, ideal: seq<int>, cells: seq<int>, i: nat): nat
    requires nx >= 1 && |cells| == |ideal| && i <= |cells|
    decreases |cells| - i
  {
    if i == |cells| then 0
    else TileCost(nx, ideal, cells[i], i) + CostFrom(nx, ideal, cells, i + 1)
  }

  /** manhattan. */
  function Manhattan(b: Board): nat
    requires Wf(b)
  {
    CostFrom(b.nx, IdealFields(b.nx, b.ny), b.cells, 0)
  }

  // ---------------------------------------------------------------------
  // Reference definition

  /** The cell where token v belongs in the solved layout: number v-1. */
  function GoalPos(nx: int, v: int): Pos
    requires nx >= 1
  {
    PosOf(nx, v - 1)
  }

  /** Taxicab distance of token v in cell i from its goal; 0 for the blank. */
  function GoalDistance(nx: int, v: int, i: int): nat
    requires nx >= 1
  {
    if v == Blank then 0 else Dist(GoalPos(nx, v), PosOf(nx, i))
  }

  function DistanceSum(nx: int, cells: seq<int>, i: nat): nat
    requires nx >= 1 && i <= |cells|
    decreases |cells| - i
  {
    if i == |cells| then 0
    else GoalDistance(nx, cells[i], i) + DistanceSum(nx, cells, i + 1)
  }

  // ---------------------------------------------------------------------
  // The source computation agrees with the reference

  /** In the ideal layout posLookUp finds each tile at its goal cell, and
      finds nothing, hence (0, 0), for values that are not tiles. */
  lemma PosLookUpIdeal(nx: int, ny: int, v: int)
    requires nx >= 1 && ny >= 1
    ensures 1 <= v < nx * ny ==> PosLookUp(v, IdealFields(nx, ny), nx) == GoalPos(nx, v)
    ensures v < 0 || v >= nx * ny ==> PosLookUp(v, IdealFields(nx, ny), nx) == Pos(0, 0)
  {
    var ideal := IdealFields(nx, ny);
    if 1 <= v < nx * ny {
      assert ideal[v - 1] == v;
    }
  }

  lemma TileCostIsGoalDistance(nx: int, ny: int, v: int, i: int)
    requires nx >= 1 && ny >= 1 && 0 <= i < nx * ny && 0 <= v < nx * ny
    ensures TileCost(nx, IdealFields(nx, ny), v, i) == GoalDistance(nx, v, i)
  {
    var ideal := IdealFields(nx, ny);
    PosLookUpIdeal(nx, ny, v);
    if v != Blank && v == ideal[i] {
      assert i < nx * ny - 1 && v == i + 1;
    }
  }

  lemma {:induction false} CostFromIsDistanceSum(nx: int, ny: int, cells: seq<int>, i: nat)
    requires nx >= 1 && ny >= 1 && |cells| == nx * ny && i <= |cells|
    requires forall k :: 0 <= k < |cells| ==> 0 <= cells[k] < nx * ny
    ensures CostFrom(nx, IdealFields(nx, ny), cells, i) == DistanceSum(nx, cells, i)
    decreases |cells| - i
  {
    if i < |cells| {
      TileCostIsGoalDistance(nx, ny, cells[i], i);
      CostFromIsDistanceSum(nx, ny, cells, i + 1);
    }
  }

  /** manhattan is the sum, over the non-blank tokens, of the taxicab
      distance from each token's cell to its goal cell (number v-1). */
  lemma ManhattanIsDistanceSum(b: Board)
    requires Wf(b) && TokensInRange(b)
    ensures Manhattan(b) == DistanceSum(b.nx, b.cells, 0)
  {
    CostFromIsDistanceSum(b.nx, b.ny, b.cells, 0);
  }

  // ---------------------------------------------------------------------
  // Zero exactly on solved boards

  /** A sum of distances is zero exactly when every term is. */
  lemma {:induction false} DistanceSumZero(nx: int, cells: seq<int>, i: nat)
    requires nx >= 1 && i <= |cells|
    ensures DistanceSum(nx, cells, i) == 0 <==>
      forall k :: i <= k < |cells| ==> GoalDistance(nx, cells[k], k) == 0
    decreases |cells| - i
  {
    if i < |cells| {
      DistanceSumZero(nx, cells, i + 1);
    }
  }

  /** Within the grid, a token is at distance zero from its goal exactly
      when it stands in cell number v-1. */
  lemma GoalDistanceZero(nx: int, ny: int, v: int, i: int)
    requires nx >= 1 && 0 <= i < nx * ny && 1 <= v <= nx * ny
    ensures GoalDistance(nx, v, i) == 0 <==> v == i + 1
  {
    if GoalDistance(nx, v, i) == 0 {
      PosOfInGrid(nx, ny, i);
      PosOfInGrid(nx, ny, v - 1);
    }
  }

  /** On a valid board the heuristic is zero exactly when the board is
      solved. */
  lemma ManhattanZeroIffSolved(b: Board)
    requires Valid(b)
    ensures Manhattan(b) == 0 <==> IsSolved(b)
  {
    if IsSolved(b) {
      SolvedManhattanZero(b);
    }
    if Manhattan(b) == 0 {
      ManhattanZeroSolved(b);
    }
  }

  lemma SolvedManhattanZero(b: Board)
    requires Valid(b) && IsSolved(b)
    ensures Manhattan(b) == 0
  {
    var n := b.nx * b.ny;
    ManhattanIsDistanceSum(b);
    DistanceSumZero(b.nx, b.cells, 0);
    SolvedValidIsIdeal(b);
    forall k | 0 <= k < n
      ensures GoalDistance(b.nx, b.cells[k], k) == 0
    {
      if k < n - 1 {
        GoalDistanceZero(b.nx, b.ny, b.cells[k], k);
      }
    }
  }

  lemma ManhattanZeroSolved(b: Board)
    requires Valid(b) && Manhattan(b) == 0
    ensures IsSolved(b)
  {
    var n := b.nx * b.ny;
    var ideal := IdealFields(b.nx, b.ny);
    ManhattanIsDistanceSum(b);
    DistanceSumZero(b.nx, b.cells, 0);
    forall k | 0 <= k < n && b.cells[k] != Blank
      ensures b.cells[k] == k + 1
    {
      GoalDistanceZero(b.nx, b.ny, b.cells[k], k);
    }
    assert b.cells[n - 1] == Blank;
    forall k | 0 <= k < n - 1
      ensures b.cells[k] == ideal[k]
    {
      if b.cells[k] == Blank {
        TwiceInMultiset(b.cells, k, n - 1);
      }
    }
  }

  /** The same, for any well-formed board: only valid boards are promised
      anything. */
  lemma ManhattanZeroIffSolvedWhenValid(b: Board)
    requires Wf(b)
    ensures Valid(b) ==> (Manhattan(b) == 0 <==> IsSolved(b))
  {
    if Valid(b) {
      ManhattanZeroIffSolved(b);
    }
  }

  // ---------------------------------------------------------------------
  // One move changes the heuristic by exactly one

  /** Changing one cell changes the sum by the change of that cell's term. */
  lemma {:induction false} DistanceSumUpdate(nx: int, cells: seq<int>, j: int, v: int, i: nat)
    requires nx >= 1 && 0 <= j < |cells| && i <= |cells|
    ensures DistanceSum(nx, cells[j := v], i) ==
      DistanceSum(nx, cells, i) +
      (if i <= j then GoalDistance(nx, v, j) - GoalDistance(nx, cells[j], j) else 0)
    decreases |cells| - i
  {
    if i < |cells| {
      DistanceSumUpdate(nx, cells, j, v, i + 1);
    }
  }

  /** A unit step changes the taxicab distance to any fixed cell by one. */
  lemma UnitStep(g: Pos, m: Move)
    ensures Dist(g, Destination(m)) == Dist(g, m.pos) + 1 ||
            Dist(g, Destination(m)) == Dist(g, m.pos) - 1
  {
  }

  /** A legal move on a valid board raises or lowers manhattan by exactly
      one: only the moved tile's distance changes, by one step. */
  lemma DoMoveChangesManhattanByOne(b: Board, m: Move)
    requires Valid(b) && CheckMove(b, m)
    ensures DoMove(b, m).Ok?
    ensures Manhattan(DoMove(b, m).value) == Manhattan(b) + 1 ||
            Manhattan(DoMove(b, m).value) == Manhattan(b) - 1
  {
    DoMoveValid(b, m);
    var b' := DoMove(b, m).value;
    var s, t := Index(b.nx, m.pos), Index(b.nx, Destination(m));
    var v := Cell(b, m.pos);
    IndexInRange(b.nx, b.ny, m.pos);
    IndexInRange(b.nx, b.ny, Destination(m));
    PosOfIndex(b.nx, b.ny, m.pos);
    PosOfIndex(b.nx, b.ny, Destination(m));
    ManhattanIsDistanceSum(b);
    ManhattanIsDistanceSum(b');
    var c1 := b.cells[t := v];
    DistanceSumUpdate(b.nx, b.cells, t, v, 0);
    DistanceSumUpdate(b.nx, c1, s, Blank, 0);
    assert b'.cells == c1[s := Blank];
    UnitStep(GoalPos(b.nx, v), m);
  }

  // ---------------------------------------------------------------------
  // Admissibility

  /** Along any replayed move sequence from a valid board the heuristic
      drops by at most one per move. */
  lemma {:induction false} ReplayManhattanBound(b: Board, ms: seq<Move>)
    requires Valid(b) && Replay(b, ms).Some?
    ensures Manhattan(b) <= Manhattan(Replay(b, ms).value) + |ms|
  {
    if ms != [] {
      var prefix := ms[..|ms| - 1];
      ReplayManhattanBound(b, prefix);
      ReplayValid(b, prefix);
      DoMoveChangesManhattanByOne(Replay(b, prefix).value, ms[|ms| - 1]);
    }
  }

  /** Admissibility: manhattan never exceeds the length of a move sequence
      that solves a valid board. */
  lemma ManhattanAdmissible(b: Board, ms: seq<Move>)
    requires Valid(b) && Replay(b, ms).Some? && IsSolved(Replay(b, ms).value)
    ensures Manhattan(b) <= |ms|
  {
    ReplayManhattanBound(b, ms);
    ReplayValid(b, ms);
    ManhattanZeroIffSolved(Replay(b, ms).value);
  }
}
