/** Grid coordinates and the row-major numbering of the cells of an
    nx-by-ny grid (cell (x, y) has number y*nx + x). */
module Positions {
  import opened Base

  /** A column/row pair; equality is structural, like Position.equals. */
  datatype Pos = Pos(x: int, y: int)

  predicate InGrid(nx: int, ny: int, p: Pos)
  {
    0 <= p.x < nx && 0 <= p.y < ny
  }

  /** Row-major number of a cell. */
  function Index(nx: int, p: Pos): int
  {
    p.y * nx + p.x
  }

  /** The cell with row-major number i. */
  function PosOf(nx: int, i: int): Pos
    requires nx > 0
  {
    Pos(i % nx, i / nx)
  }

  /** Taxicab distance between two cells. */
  function Dist(p: Pos, q: Pos): nat
  {
    Abs(p.x - q.x) + Abs(p.y - q.y)
  }

  lemma MulAtLeast(d: int, n: int)
    requires d >= 1 && n > 0
    ensures d * n >= n
  {
    assert d * n == (d - 1) * n + n;
    assert (d - 1) * n >= 0;
  }

  lemma DivModUnique(i: int, n: int, q: int, r: int)
    requires n > 0 && 0 <= r < n && i == q * n + r
    ensures i / n == q && i % n == r
  {
    var q', r' := i / n, i % n;
    assert i == q' * n + r';
    assert (q - q') * n == r' - r by {
      assert q * n - q' * n == (q - q') * n;
    }
    if q > q' {
      MulAtLeast(q - q', n);
    } else if q < q' {
      MulAtLeast(q' - q, n);
    }
  }

  /** Every cell of the grid has a number in [0, nx*ny). */
  lemma IndexInRange(nx: int, ny: int, p: Pos)
    requires InGrid(nx, ny, p)
    ensures 0 <= Index(nx, p) < nx * ny
  {
    assert p.y * nx <= (ny - 1) * nx;
  }

  /** Numbering a cell and decoding the number gives the cell back. */
  lemma PosOfIndex(nx: int, ny: int, p: Pos)
    requires InGrid(nx, ny, p)
    ensures PosOf(nx, Index(nx, p)) == p
  {
    DivModUnique(Index(nx, p), nx, p.y, p.x);
  }

  /** Every number in [0, nx*ny) decodes to a cell of the grid with that number. */
  lemma PosOfInGrid(nx: int, ny: int, i: int)
    requires nx > 0 && 0 <= i < nx * ny
    ensures InGrid(nx, ny, PosOf(nx, i)) && Index(nx, PosOf(nx, i)) == i
  {
    var q := i / nx;
    if q >= ny {
      assert q * nx >= ny * nx;
    }
  }

  /** Distinct cells have distinct numbers. */
  lemma IndexInjective(nx: int, ny: int, p: Pos, q: Pos)
    requires InGrid(nx, ny, p) && InGrid(nx, ny, q) && Index(nx, p) == Index(nx, q)
    ensures p == q
  {
    PosOfIndex(nx, ny, p);
    PosOfIndex(nx, ny, q);
  }
}
