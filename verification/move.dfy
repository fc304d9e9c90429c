/** A move slides the tile at a source cell one step in one of four
    directions. Directions are numbered 0 = up, 1 = right, 2 = down,
    3 = left. */
module Moves {
  import opened Base
  import opened Positions

  type Dir = d: int | 0 <= d < 4

  /** Unit steps of the four directions, in direction order. */
  const XD: seq<int> := [0, 1, 0, -1]
  const YD: seq<int> := [-1, 0, 1, 0]

  datatype Move = Move(pos: Pos, dir: Dir)

  /** The constructor: a direction outside 0..3 is rejected. */
  function NewMove(pos: Pos, dir: int): (r: Result<Move>)
    ensures r.Err? <==> dir < 0 || dir >= 4
    ensures r.Ok? ==> r.value.pos == pos && r.value.dir == dir
  {
    if dir < 0 || dir >= 4 then Err(InputMismatch) else Ok(Move(pos, dir))
  }

  /** The cell `step` steps away from the source in the move's direction. */
  function Target(m: Move, step: int): (r: Pos)
    ensures r == m.pos <==> step == 0
    ensures Dist(m.pos, r) == Abs(step)
  {
    Pos(m.pos.x + step * XD[m.dir], m.pos.y + step * YD[m.dir])
  }

  /** The destination of the move: the cell one step away. */
  function Destination(m: Move): (r: Pos)
    ensures r != m.pos && Dist(m.pos, r) == 1
  {
    Target(m, 1)
  }

  /** The direction that walks back along `d`. */
  function Opposite(d: Dir): Dir
  {
    (d + 2) % 4
  }

  /** The move that undoes `m`: from its destination back to its source. */
  function Reverse(m: Move): (r: Move)
    ensures Destination(r) == m.pos && r.pos == Destination(m)
  {
    Move(Destination(m), Opposite(m.dir))
  }

  /** Whether `m` exactly undoes `that`; an absent move is undone by nothing. */
  function IsInverse(m: Move, that: Option<Move>): bool
  {
    match that
    case None => false
    case Some(t) => m.pos == Destination(t) && t.pos == Destination(m)
  }

  /** Move.equals: moves are equal when direction and source are. */
  function Equals(a: Move, b: Move): (r: bool)
    ensures r <==> a == b
  {
    a.dir == b.dir && a.pos == b.pos
  }

  /** Walking `a` steps and then `b` more steps is walking `a + b` steps. */
  lemma TargetAdditive(m: Move, a: int, b: int)
    ensures Target(Move(Target(m, a), m.dir), b) == Target(m, a + b)
  {
    assert a * XD[m.dir] + b * XD[m.dir] == (a + b) * XD[m.dir];
    assert a * YD[m.dir] + b * YD[m.dir] == (a + b) * YD[m.dir];
  }

  /** isInverse(null) is false, and the relation is symmetric. */
  lemma IsInverseSymmetric(a: Move, b: Move)
    ensures !IsInverse(a, None)
    ensures IsInverse(a, Some(b)) <==> IsInverse(b, Some(a))
  {
  }

  /** No move undoes itself. */
  lemma NotSelfInverse(m: Move)
    ensures !IsInverse(m, Some(m))
  {
  }

  /** The inverse of a move is unique: it is exactly its reverse. */
  lemma InverseIsReverse(a: Move, b: Move)
    ensures IsInverse(a, Some(b)) <==> b == Reverse(a)
  {
    if IsInverse(a, Some(b)) {
      assert Destination(b) == a.pos && b.pos == Destination(a);
      assert b.dir == Opposite(a.dir);
    }
  }
}
