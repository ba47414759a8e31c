/** Values shared by every part of the maze game: cell states, positions,
    the four arrow directions, grid geometry, and the lattice of cells with
    two even coordinates on which the generator carves. */
module Grid {

  /** The state of one maze cell: 'wall', 'path' or 'exit'. */
  datatype Cell = Wall | Path | Exit

  /** A `{ row, col }` position. Rows grow downward, columns rightward. */
  datatype Pos = Pos(row: int, col: int)

  /** The four arrow keys. */
  datatype Direction = Up | Down | Left | Right

  /** The order in which the game lists directions. */
  const Directions: seq<Direction> := [Up, Down, Left, Right]

  /** The list names every direction. */
  lemma EveryDirection(d: Direction)
    ensures d in Directions && d in multiset(Directions)
  {
  }

  /** The orthogonal neighbour of `p` in direction `d`. */
  function Step(p: Pos, d: Direction): Pos {
    match d
    case Up => Pos(p.row - 1, p.col)
    case Down => Pos(p.row + 1, p.col)
    case Left => Pos(p.row, p.col - 1)
    case Right => Pos(p.row, p.col + 1)
  }

  /** The cell two cells away from `p` in direction `d`. */
  function Jump(p: Pos, d: Direction): Pos {
    match d
    case Up => Pos(p.row - 2, p.col)
    case Down => Pos(p.row + 2, p.col)
    case Left => Pos(p.row, p.col - 2)
    case Right => Pos(p.row, p.col + 2)
  }

  function Abs(x: int): nat {
    if x < 0 then -x else x
  }

  function Manhattan(a: Pos, b: Pos): nat {
    Abs(a.row - b.row) + Abs(a.col - b.col)
  }

  predicate Between(x: int, y: int, z: int) {
    (x <= y <= z) || (z <= y <= x)
  }

  /** Both coordinates even. */
  predicate OnLattice(p: Pos) {
    p.row % 2 == 0 && p.col % 2 == 0
  }

  /** `a` and `b` differ by exactly 2 on one axis and agree on the other. */
  predicate TwoApart(a: Pos, b: Pos) {
    || (a.row == b.row && (b.col == a.col + 2 || b.col == a.col - 2))
    || (a.col == b.col && (b.row == a.row + 2 || b.row == a.row - 2))
  }

  /** The wall cell halfway between two cells that are two apart. The
      division is exact because the difference is -2, 0 or 2. */
  function Midpoint(a: Pos, b: Pos): (m: Pos)
    requires TwoApart(a, b)
    ensures Manhattan(a, m) == 1 && Manhattan(m, b) == 1
    ensures Between(a.row, m.row, b.row) && Between(a.col, m.col, b.col)
    ensures OnLattice(a) && OnLattice(b) ==> (m.row % 2 == 1 <==> m.col % 2 == 0)
  {
    Pos(a.row + (b.row - a.row) / 2, a.col + (b.col - a.col) / 2)
  }

  predicate InGrid(g: array2<Cell>, p: Pos) {
    0 <= p.row < g.Length0 && 0 <= p.col < g.Length1
  }

  function At(g: array2<Cell>, p: Pos): Cell
    reads g
    requires InGrid(g, p)
  {
    g[p.row, p.col]
  }

  /** Every position of an n-by-n grid. */
  ghost function AllCells(n: int): set<Pos> {
    set r, c | 0 <= r < n && 0 <= c < n :: Pos(r, c)
  }

  /** The lattice cells (both coordinates even) of an n-by-n grid. */
  ghost function LatticeCells(n: int): set<Pos> {
    set r, c | 0 <= r < n && 0 <= c < n && r % 2 == 0 && c % 2 == 0 :: Pos(r, c)
  }

  /** The lattice cells of the first `k` rows of a grid `n` columns wide. */
  ghost function LatticeBlock(k: int, n: int): set<Pos> {
    set r, c | 0 <= r < k && 0 <= c < n && r % 2 == 0 && c % 2 == 0 :: Pos(r, c)
  }

  /** The lattice cells of row `r` among the first `n` columns. */
  ghost function LatticeRow(r: int, n: int): set<Pos> {
    set c | 0 <= c < n && c % 2 == 0 :: Pos(r, c)
  }

  lemma {:induction false} LatticeRowSize(r: int, n: nat)
    ensures |LatticeRow(r, n)| == (n + 1) / 2
    decreases n
  {
    if n == 0 {
      assert LatticeRow(r, n) == {};
    } else {
      LatticeRowSize(r, n - 1);
      if (n - 1) % 2 == 0 {
        assert LatticeRow(r, n) == LatticeRow(r, n - 1) + {Pos(r, n - 1)};
      } else {
        assert LatticeRow(r, n) == LatticeRow(r, n - 1);
      }
    }
  }

  lemma {:induction false} LatticeBlockSize(k: nat, n: nat)
    ensures |LatticeBlock(k, n)| == ((k + 1) / 2) * ((n + 1) / 2)
    decreases k
  {
    if k == 0 {
      assert LatticeBlock(k, n) == {};
    } else {
      LatticeBlockSize(k - 1, n);
      LatticeBlockGrows(k, n);
      if (k - 1) % 2 == 0 {
        LatticeRowSize(k - 1, n);
        AddRow(k / 2, (n + 1) / 2);
      }
    }
  }

  /** Row `k - 1` adds its lattice cells to the block when it is even, and
      nothing when it is odd; the cells it adds were not there before. */
  lemma LatticeBlockGrows(k: int, n: int)
    requires k >= 1
    ensures (k - 1) % 2 == 0 ==> LatticeBlock(k, n) == LatticeBlock(k - 1, n) + LatticeRow(k - 1, n)
    ensures (k - 1) % 2 == 0 ==> LatticeBlock(k - 1, n) !! LatticeRow(k - 1, n)
    ensures (k - 1) % 2 == 0 ==> (k + 1) / 2 == k / 2 + 1
    ensures (k - 1) % 2 != 0 ==> LatticeBlock(k, n) == LatticeBlock(k - 1, n) && (k + 1) / 2 == k / 2
  {
  }

  lemma AddRow(rows: int, cols: int)
    ensures (rows + 1) * cols == rows * cols + cols
  {
  }

  /** An n-by-n grid has ceil(n/2)^2 lattice cells. */
  lemma LatticeSize(n: nat)
    ensures |LatticeCells(n)| == ((n + 1) / 2) * ((n + 1) / 2)
  {
    LatticeBlockSize(n, n);
    assert LatticeCells(n) == LatticeBlock(n, n);
  }
}
