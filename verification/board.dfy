/** The puzzle state: an nx-by-ny grid of tokens plus the position of the
    blank. Token 0 is the blank; -1 is what reading outside the grid
    yields. The grid is stored row-major: cell (x, y) is cells[y*nx + x]. */
module Boards {
  import opened Base
  import opened Positions
  import opened Moves

  /** Board.OFF: the value read outside the grid. */
  const Off := -1
  /** Board.BLANK: the token of the free cell. */
  const Blank := 0

  datatype Board = Board(nx: int, ny: int, cells: seq<int>, blank: Pos)

  /** The boards this model covers: positive dimensions and one cell per
      grid position. The Java constructors accept any dimensions read from
      the input; a board with no rows or no columns is left out, because
      the heuristic builds the solved layout through its first row and its
      last cell and throws on such a board. */
  predicate Wf(b: Board)
  {
    b.nx >= 1 && b.ny >= 1 && |b.cells| == b.nx * b.ny
  }

  predicate OnBoard(b: Board, p: Pos)
  {
    InGrid(b.nx, b.ny, p)
  }

  /** The token stored at an on-board cell. */
  function Cell(b: Board, p: Pos): int
    requires Wf(b) && OnBoard(b, p)
  {
    IndexInRange(b.nx, b.ny, p);
    b.cells[Index(b.nx, p)]
  }

  /** Every cell holds a token in [0, nx*ny). */
  predicate TokensInRange(b: Board)
    requires Wf(b)
  {
    forall i :: 0 <= i < |b.cells| ==> 0 <= b.cells[i] < b.nx * b.ny
  }

  /** The well-formed boards the search works on: tokens in range, exactly
      one blank, and `blank` pointing at it. Uniqueness of the other tokens
      is not needed by anything here and is not required. */
  predicate Valid(b: Board)
  {
    && Wf(b)
    && TokensInRange(b)
    && multiset(b.cells)[Blank] == 1
    && OnBoard(b, b.blank)
    && Cell(b, b.blank) == Blank
  }

  // ---------------------------------------------------------------------
  // Field access

  /** getField: the token at `p`, or Off outside the grid. */
  function GetField(b: Board, p: Pos): (r: int)
    requires Wf(b)
    ensures OnBoard(b, p) ==> r == Cell(b, p)
    ensures !OnBoard(b, p) ==> r == Off
  {
    if p.x < 0 || p.x >= b.nx || p.y < 0 || p.y >= b.ny then Off
    else Cell(b, p)
  }

  /** On a board whose cells hold no negative value, getField yields Off
      exactly for positions outside the grid. */
  lemma GetFieldOffExactly(b: Board, p: Pos)
    requires Wf(b) && forall i :: 0 <= i < |b.cells| ==> b.cells[i] >= 0
    ensures GetField(b, p) == Off <==> !OnBoard(b, p)
    ensures OnBoard(b, p) ==> 0 <= Index(b.nx, p) < |b.cells| && GetField(b, p) == b.cells[Index(b.nx, p)]
  {
    if OnBoard(b, p) {
      IndexInRange(b.nx, b.ny, p);
    }
  }

  /** Overwrites one on-board cell, nothing else. */
  function Put(b: Board, p: Pos, v: int): (r: Board)
    requires Wf(b) && OnBoard(b, p)
    ensures Wf(r) && r.nx == b.nx && r.ny == b.ny && r.blank == b.blank
    ensures 0 <= Index(b.nx, p) < |b.cells| && r.cells == b.cells[Index(b.nx, p) := v]
    ensures GetField(r, p) == v
    ensures forall q :: q != p ==> GetField(r, q) == GetField(b, q)
  {
    IndexInRange(b.nx, b.ny, p);
    PutFrame(b, p, v);
    b.(cells := b.cells[Index(b.nx, p) := v])
  }

  lemma PutFrame(b: Board, p: Pos, v: int)
    requires Wf(b) && OnBoard(b, p)
    ensures 0 <= Index(b.nx, p) < |b.cells|
    ensures forall q :: q != p ==>
      GetField(b.(cells := b.cells[Index(b.nx, p) := v]), q) == GetField(b, q)
  {
    IndexInRange(b.nx, b.ny, p);
    forall q | q != p
      ensures GetField(b.(cells := b.cells[Index(b.nx, p) := v]), q) == GetField(b, q)
    {
      if OnBoard(b, q) {
        IndexInRange(b.nx, b.ny, q);
        if Index(b.nx, q) == Index(b.nx, p) {
          IndexInjective(b.nx, b.ny, p, q);
        }
      }
    }
  }

  /** setField: rejects a position where getField reads Off and a token
      outside [0, nx*ny); otherwise changes exactly that one cell and leaves
      `blank` alone. */
  function SetField(b: Board, p: Pos, token: int): (r: Result<Board>)
    requires Wf(b)
    ensures r.Err? <==> GetField(b, p) == Off || token < 0 || token >= b.nx * b.ny
    ensures r.Ok? ==> && Wf(r.value) && r.value.nx == b.nx && r.value.ny == b.ny
                      && r.value.blank == b.blank
                      && GetField(r.value, p) == token
                      && (forall q :: q != p ==> GetField(r.value, q) == GetField(b, q))
    ensures r.Ok? ==> 0 <= Index(b.nx, p) < |b.cells| && r.value.cells == b.cells[Index(b.nx, p) := token]
  {
    if GetField(b, p) == Off || token < 0 || token >= b.nx * b.ny then Err(InputMismatch)
    else
      assert OnBoard(b, p);
      Ok(Put(b, p, token))
  }

  // ---------------------------------------------------------------------
  // Moves

  /** checkMove: the source holds a tile and the destination is the blank. */
  function CheckMove(b: Board, m: Move): (r: bool)
    requires Wf(b)
    ensures r <==> && OnBoard(b, m.pos) && OnBoard(b, Destination(m))
                   && Cell(b, m.pos) > Blank && Cell(b, Destination(m)) == Blank
  {
    GetField(b, Target(m, 0)) > Blank && GetField(b, Target(m, 1)) == Blank
  }

  /** doMove on a legal move: the tile moves to the destination, the source
      becomes the blank, and nothing else changes. It fails (after Java has
      already moved `blank`) only when the tile's token is too large for
      setField. */
  function DoMove(b: Board, m: Move): (r: Result<Board>)
    requires Wf(b) && CheckMove(b, m)
    ensures r.Err? <==> Cell(b, m.pos) >= b.nx * b.ny
    ensures r.Ok? ==> && Wf(r.value) && r.value.nx == b.nx && r.value.ny == b.ny
                      && r.value.blank == m.pos
                      && GetField(r.value, Destination(m)) == GetField(b, m.pos)
                      && GetField(r.value, m.pos) == Blank
                      && (forall q :: q != m.pos && q != Destination(m) ==>
                            GetField(r.value, q) == GetField(b, q))
    ensures r.Ok? ==>
      && 0 <= Index(b.nx, m.pos) < |b.cells| && 0 <= Index(b.nx, Destination(m)) < |b.cells|
      && r.value.cells == b.cells[Index(b.nx, Destination(m)) := Cell(b, m.pos)][Index(b.nx, m.pos) := Blank]
  {
    var blank := Target(m, 0);
    var token := GetField(b, blank);
    var b1 := b.(blank := blank);
    match SetField(b1, Target(m, 1), token)
    case Err(e) => Err(e)
    case Ok(b2) =>
      IndexInRange(b.nx, b.ny, m.pos);
      IndexInRange(b.nx, b.ny, Destination(m));
      SetField(b2, blank, Blank)
  }

  /** doMove only rearranges the tokens: the board holds the same
      multiset of values before and after. */
  lemma DoMovePermutes(b: Board, m: Move)
    requires Wf(b) && CheckMove(b, m) && DoMove(b, m).Ok?
    ensures multiset(DoMove(b, m).value.cells) == multiset(b.cells)
  {
    SwapMultiset(b.cells, Index(b.nx, Destination(m)), Index(b.nx, m.pos));
  }

  /** Moving the value at j into the blank at i keeps the multiset. */
  lemma SwapMultiset(s: seq<int>, i: int, j: int)
    requires 0 <= i < |s| && 0 <= j < |s| && s[i] == Blank
    ensures multiset(s[i := s[j]][j := Blank]) == multiset(s)
  {
  }

  /** Two distinct cells holding the same value make it occur twice. */
  lemma TwiceInMultiset(s: seq<int>, i: int, j: int)
    requires 0 <= i < j < |s| && s[i] == s[j]
    ensures multiset(s)[s[i]] >= 2
  {
    assert s == s[..j] + [s[j]] + s[j + 1..];
    assert s[i] in s[..j];
  }

  /** On a valid board the blank cell is the only cell holding the blank. */
  lemma BlankUnique(b: Board, p: Pos)
    requires Valid(b) && OnBoard(b, p) && Cell(b, p) == Blank
    ensures p == b.blank
  {
    var i, j := Index(b.nx, p), Index(b.nx, b.blank);
    IndexInRange(b.nx, b.ny, p);
    IndexInRange(b.nx, b.ny, b.blank);
    if i < j {
      TwiceInMultiset(b.cells, i, j);
    } else if j < i {
      TwiceInMultiset(b.cells, j, i);
    } else {
      IndexInjective(b.nx, b.ny, p, b.blank);
    }
  }

  /** A legal move on a valid board succeeds, ends at the blank, and leaves
      a valid board. */
  lemma DoMoveValid(b: Board, m: Move)
    requires Valid(b) && CheckMove(b, m)
    ensures Destination(m) == b.blank
    ensures DoMove(b, m).Ok? && Valid(DoMove(b, m).value)
  {
    BlankUnique(b, Destination(m));
    IndexInRange(b.nx, b.ny, m.pos);
    var r := DoMove(b, m).value;
    DoMovePermutes(b, m);
    forall i | 0 <= i < |r.cells|
      ensures 0 <= r.cells[i] < r.nx * r.ny
    {
      assert r.cells[i] in multiset(b.cells);
    }
  }

  /** Two valid boards of the same shape that agree on every cell and on
      `blank` are the same value. */
  lemma SameFieldsSameBoard(a: Board, b: Board)
    requires Wf(a) && Wf(b) && a.nx == b.nx && a.ny == b.ny && a.blank == b.blank
    requires forall p :: OnBoard(a, p) ==> GetField(a, p) == GetField(b, p)
    ensures a == b
  {
    forall i | 0 <= i < |a.cells|
      ensures a.cells[i] == b.cells[i]
    {
      PosOfInGrid(a.nx, a.ny, i);
      assert GetField(a, PosOf(a.nx, i)) == GetField(b, PosOf(a.nx, i));
    }
  }

  /** Undoing a legal move with its reverse is legal and restores the grid
      and the blank exactly. */
  lemma {:induction false} DoMoveUndo(b: Board, m: Move)
    requires Valid(b) && CheckMove(b, m)
    ensures DoMove(b, m).Ok?
    ensures CheckMove(DoMove(b, m).value, Reverse(m))
    ensures DoMove(DoMove(b, m).value, Reverse(m)) == Ok(b)
  {
    DoMoveValid(b, m);
    var b' := DoMove(b, m).value;
    DoMoveValid(b', Reverse(m));
    var b'' := DoMove(b', Reverse(m)).value;
    SameFieldsSameBoard(b'', b);
  }

  // ---------------------------------------------------------------------
  // Move generation

  /** The move that would slide the neighbour of the blank lying opposite
      to direction `d` into the blank (the source is one step behind the
      blank). */
  function Candidate(b: Board, d: Dir): (r: Move)
    ensures r.dir == d && Destination(r) == b.blank
  {
    var inv := Move(b.blank, d);
    TargetAdditive(inv, -1, 1);
    Move(Target(inv, -1), d)
  }

  /** The legal moves, not undoing `last`, among directions d..3 in order. */
  function ValidMovesFrom(b: Board, last: Option<Move>, d: int): (r: seq<Move>)
    requires Wf(b) && 0 <= d <= 4
    decreases 4 - d
    ensures |r| <= 4 - d
    ensures forall k :: 0 <= k < |r| ==>
      && d <= r[k].dir && r[k] == Candidate(b, r[k].dir)
      && CheckMove(b, r[k]) && !IsInverse(r[k], last)
  {
    if d == 4 then []
    else
      var m := Candidate(b, d);
      (if CheckMove(b, m) && !IsInverse(m, last) then [m] else []) + ValidMovesFrom(b, last, d + 1)
  }

  /** The candidate of a direction e >= d is generated from d on exactly
      when it is legal and does not undo `last`. */
  lemma {:induction false} ValidMovesFromMember(b: Board, last: Option<Move>, d: int, e: Dir)
    requires Wf(b) && 0 <= d <= e
    decreases 4 - d
    ensures Candidate(b, e) in ValidMovesFrom(b, last, d) <==>
      CheckMove(b, Candidate(b, e)) && !IsInverse(Candidate(b, e), last)
  {
    var rest := ValidMovesFrom(b, last, d + 1);
    if e == d {
      assert Candidate(b, e) !in rest;
    } else {
      ValidMovesFromMember(b, last, d + 1, e);
    }
  }

  /** The loop from d on yields its moves in strictly increasing
      direction order. */
  lemma {:induction false} ValidMovesFromOrdered(b: Board, last: Option<Move>, d: int)
    requires Wf(b) && 0 <= d <= 4
    decreases 4 - d
    ensures forall j, k :: 0 <= j < k < |ValidMovesFrom(b, last, d)| ==>
      ValidMovesFrom(b, last, d)[j].dir < ValidMovesFrom(b, last, d)[k].dir
  {
    if d < 4 {
      var rest := ValidMovesFrom(b, last, d + 1);
      ValidMovesFromOrdered(b, last, d + 1);
      var m := Candidate(b, d);
      if CheckMove(b, m) && !IsInverse(m, last) {
        var r := [m] + rest;
        assert ValidMovesFrom(b, last, d) == r;
        forall j, k | 0 <= j < k < |r|
          ensures r[j].dir < r[k].dir
        {
          assert r[k] == rest[k - 1];
          if j > 0 {
            assert r[j] == rest[j - 1];
          }
        }
      }
    }
  }

  /** validMoves(lastMove): every legal move into the blank that does not
      undo `last`, at most one per direction, in direction order; with
      `last` absent this is validMoves(). */
  function ValidMoves(b: Board, last: Option<Move>): (r: seq<Move>)
    requires Wf(b)
    ensures |r| <= 4
    ensures forall k :: 0 <= k < |r| ==>
      CheckMove(b, r[k]) && Destination(r[k]) == b.blank && !IsInverse(r[k], last)
  {
    ValidMovesFrom(b, last, 0)
  }

  /** The candidate of each direction is among validMoves(last) exactly
      when it is legal and does not undo `last`. */
  lemma ValidMovesMembers(b: Board, last: Option<Move>)
    requires Wf(b)
    ensures forall e: Dir :: Candidate(b, e) in ValidMoves(b, last) <==>
      CheckMove(b, Candidate(b, e)) && !IsInverse(Candidate(b, e), last)
  {
    forall e: Dir
      ensures Candidate(b, e) in ValidMoves(b, last) <==>
        CheckMove(b, Candidate(b, e)) && !IsInverse(Candidate(b, e), last)
    {
      ValidMovesFromMember(b, last, 0, e);
    }
  }

  /** validMoves lists its moves in direction order. */
  lemma ValidMovesOrdered(b: Board, last: Option<Move>)
    requires Wf(b)
    ensures forall j, k :: 0 <= j < k < |ValidMoves(b, last)| ==>
      ValidMoves(b, last)[j].dir < ValidMoves(b, last)[k].dir
  {
    ValidMovesFromOrdered(b, last, 0);
  }

  /** A legal move into the blank of a valid board is the candidate of its
      own direction. */
  lemma LegalMoveIsCandidate(b: Board, m: Move)
    requires Valid(b) && CheckMove(b, m)
    ensures m == Candidate(b, m.dir)
  {
    DoMoveValid(b, m);
    TargetAdditive(m, 1, -1);
  }

  /** On a valid board validMoves(last) holds exactly the legal moves that
      do not undo `last`. */
  lemma ValidMovesExact(b: Board, last: Option<Move>, m: Move)
    requires Valid(b)
    ensures m in ValidMoves(b, last) <==> CheckMove(b, m) && !IsInverse(m, last)
  {
    ValidMovesMembers(b, last);
    if CheckMove(b, m) {
      LegalMoveIsCandidate(b, m);
    }
  }

  /** A grid with no blank cell has no legal move at all, wherever `blank`
      points, so validMoves is empty. */
  lemma NoBlankCellNoMoves(b: Board, last: Option<Move>)
    requires Wf(b) && forall k :: 0 <= k < |b.cells| ==> b.cells[k] != Blank
    ensures ValidMoves(b, last) == []
  {
    var r := ValidMoves(b, last);
    if r != [] {
      assert CheckMove(b, r[0]);
      NoBlankCell(b, Destination(r[0]));
      assert false;
    }
  }

  /** On a grid with no blank cell, no on-board position reads Blank. */
  lemma NoBlankCell(b: Board, p: Pos)
    requires Wf(b) && forall k :: 0 <= k < |b.cells| ==> b.cells[k] != Blank
    ensures OnBoard(b, p) ==> Cell(b, p) != Blank
  {
    if OnBoard(b, p) {
      IndexInRange(b.nx, b.ny, p);
    }
  }

  /** With no last move, the directions that appear are exactly those whose
      source neighbour of the blank holds a tile. */
  lemma ValidMovesUnrestricted(b: Board, e: Dir)
    requires Valid(b)
    ensures Candidate(b, e) in ValidMoves(b, None) <==> GetField(b, Candidate(b, e).pos) > Blank
  {
    ValidMovesMembers(b, None);
  }

  // ---------------------------------------------------------------------
  // Goal test

  /** idealFields: the solved layout, 1..nx*ny-1 in row-major order and the
      blank in the last cell. */
  function IdealFields(nx: int, ny: int): (r: seq<int>)
    requires nx >= 1 && ny >= 1
    ensures |r| == nx * ny && r[nx * ny - 1] == Blank
    ensures forall i :: 0 <= i < nx * ny - 1 ==> r[i] == i + 1
  {
    seq(nx * ny, i => i + 1)[nx * ny - 1 := Blank]
  }

  /** The loop of isSolved from `counter` on: cell number k must hold k+1
      for every k below nx*ny-1. */
  function SolvedFrom(b: Board, counter: nat): (r: bool)
    requires Wf(b)
    decreases b.nx * b.ny - counter
    ensures r <==> forall k :: counter <= k < b.nx * b.ny - 1 ==> b.cells[k] == k + 1
  {
    if counter >= b.nx * b.ny - 1 then true
    else
      PosOfInGrid(b.nx, b.ny, counter);
      if GetField(b, PosOf(b.nx, counter)) != counter + 1 then false
      else SolvedFrom(b, counter + 1)
  }

  /** isSolved: the goal test. The last cell is not inspected. */
  function IsSolved(b: Board): (r: bool)
    requires Wf(b)
    ensures r <==> forall k :: 0 <= k < |b.cells| - 1 ==> b.cells[k] == IdealFields(b.nx, b.ny)[k]
  {
    SolvedFrom(b, 0)
  }

  /** On a valid board the goal test also pins the blank to the last cell,
      so the whole grid reads 1, 2, ..., nx*ny-1, 0. */
  lemma SolvedValidIsIdeal(b: Board)
    requires Valid(b) && IsSolved(b)
    ensures b.cells == IdealFields(b.nx, b.ny)
    ensures b.blank == Pos(b.nx - 1, b.ny - 1)
  {
    SolvedValidCells(b);
    LastCellIsCorner(b.nx, b.ny);
    PosOfInGrid(b.nx, b.ny, |b.cells| - 1);
    BlankUnique(b, PosOf(b.nx, |b.cells| - 1));
  }

  lemma SolvedValidCells(b: Board)
    requires Valid(b) && IsSolved(b)
    ensures b.cells == IdealFields(b.nx, b.ny)
  {
    var ideal := IdealFields(b.nx, b.ny);
    LastCellBlank(b);
    assert |b.cells| == |ideal|;
    forall k | 0 <= k < |b.cells|
      ensures b.cells[k] == ideal[k]
    {
    }
  }

  /** When no other cell is blank, the one blank of a valid board is the
      last cell. */
  lemma LastCellBlank(b: Board)
    requires Valid(b)
    requires forall k :: 0 <= k < |b.cells| - 1 ==> b.cells[k] != Blank
    ensures b.cells[|b.cells| - 1] == Blank
  {
    if b.cells[|b.cells| - 1] != Blank {
      assert forall k :: 0 <= k < |b.cells| ==> b.cells[k] != Blank;
    }
  }

  /** The last cell number names the bottom-right cell. */
  lemma LastCellIsCorner(nx: int, ny: int)
    requires nx >= 1 && ny >= 1
    ensures PosOf(nx, nx * ny - 1) == Pos(nx - 1, ny - 1)
  {
    assert nx * ny - 1 == (ny - 1) * nx + (nx - 1);
    DivModUnique(nx * ny - 1, nx, ny - 1, nx - 1);
  }

  // ---------------------------------------------------------------------
  // Equality

  /** Board.equals: every cell of this board reads the same on the other. */
  function Equals(a: Board, b: Board): (r: bool)
    requires Wf(a) && Wf(b)
    ensures r <==> forall p :: OnBoard(a, p) ==> GetField(a, p) == GetField(b, p)
  {
    EqualsByIndex(a, b);
    forall i | 0 <= i < |a.cells| :: a.cells[i] == GetField(b, PosOf(a.nx, i))
  }

  lemma EqualsByIndex(a: Board, b: Board)
    requires Wf(a) && Wf(b)
    ensures (forall i | 0 <= i < |a.cells| :: a.cells[i] == GetField(b, PosOf(a.nx, i)))
        <==> (forall p :: OnBoard(a, p) ==> GetField(a, p) == GetField(b, p))
  {
    if forall i | 0 <= i < |a.cells| :: a.cells[i] == GetField(b, PosOf(a.nx, i)) {
      forall p | OnBoard(a, p)
        ensures GetField(a, p) == GetField(b, p)
      {
        IndexInRange(a.nx, a.ny, p);
        PosOfIndex(a.nx, a.ny, p);
      }
    }
    if forall p :: OnBoard(a, p) ==> GetField(a, p) == GetField(b, p) {
      forall i | 0 <= i < |a.cells|
        ensures a.cells[i] == GetField(b, PosOf(a.nx, i))
      {
        PosOfInGrid(a.nx, a.ny, i);
      }
    }
  }

  /** For boards of one shape, equals compares the grids and ignores `blank`. */
  lemma EqualsSameShape(a: Board, b: Board)
    requires Wf(a) && Wf(b) && a.nx == b.nx && a.ny == b.ny
    ensures Equals(a, b) <==> a.cells == b.cells
  {
    if Equals(a, b) {
      SameFieldsSameBoard(a, b.(blank := a.blank));
    }
  }

  // ---------------------------------------------------------------------
  // Replaying a move sequence

  /** Applies `ms` one by one with doMove; absent when some move is illegal
      where it is applied or doMove fails. */
  function Replay(b: Board, ms: seq<Move>): (r: Option<Board>)
    requires Wf(b)
    ensures r.Some? ==> Wf(r.value) && r.value.nx == b.nx && r.value.ny == b.ny
  {
    if ms == [] then Some(b)
    else
      match Replay(b, ms[..|ms| - 1])
      case None => None
      case Some(b') =>
        var m := ms[|ms| - 1];
        if !CheckMove(b', m) then None
        else
          match DoMove(b', m)
          case Err(_) => None
          case Ok(b'') => Some(b'')
  }

  /** Replaying one more move is doMove on the replayed board. */
  lemma ReplayAppend(b: Board, ms: seq<Move>, m: Move)
    requires Wf(b) && Replay(b, ms).Some? && CheckMove(Replay(b, ms).value, m)
    ensures DoMove(Replay(b, ms).value, m).Ok? ==>
      Replay(b, ms + [m]) == Some(DoMove(Replay(b, ms).value, m).value)
  {
    assert (ms + [m])[..|ms|] == ms;
  }

  /** Replaying from a valid board always succeeds for legal moves and
      keeps the board valid. */
  lemma {:induction false} ReplayValid(b: Board, ms: seq<Move>)
    requires Valid(b) && Replay(b, ms).Some?
    ensures Valid(Replay(b, ms).value)
  {
    if ms != [] {
      ReplayValid(b, ms[..|ms| - 1]);
      DoMoveValid(Replay(b, ms[..|ms| - 1]).value, ms[|ms| - 1]);
    }
  }
}
