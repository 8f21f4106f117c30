/** The grid that every component shares: an N x N array of cell records.
    A cell's row and column are its indices in the array; its parent pointer
    (`previous`) is stored as the position of the parent cell. */
module Cells {

  datatype Option<T> = None | Some(value: T)

  /** The seven cell types of the grid. */
  datatype CellType = Empty | Wall | Start | End | Visited | Considering | Path

  /** A grid position (row, column). */
  datatype Pos = Pos(row: int, col: int)

  /** One cell record: its type, the scratch fields the searches use, and the
      heat-map value with its display flag. */
  datatype Cell = Cell(
    kind: CellType,
    previous: Option<Pos>,
    gScore: int,
    fScore: int,
    distance: int,
    qValue: real,
    showQValue: bool)

  /** Java's Integer.MAX_VALUE, the "unreached" score of the searches. */
  const IntMax: int := 0x7fff_ffff

  /** A freshly constructed cell: EMPTY, no parent, distance unreached. */
  function NewCell(): Cell {
    Cell(Empty, None, 0, 0, IntMax, 0.0, false)
  }

  predicate InBounds(n: int, p: Pos) {
    0 <= p.row < n && 0 <= p.col < n
  }

  function Abs(x: int): nat {
    if x < 0 then -x else x
  }

  /** Manhattan distance |drow| + |dcol|, the heuristic of both A* searches. */
  function Manhattan(a: Pos, b: Pos): nat {
    Abs(a.row - b.row) + Abs(a.col - b.col)
  }

  /** Manhattan distance is a distance: zero exactly between equal cells,
      and the same in both directions. */
  lemma ManhattanIsDistance(a: Pos, b: Pos)
    ensures Manhattan(a, b) == 0 <==> a == b
    ensures Manhattan(a, b) == Manhattan(b, a)
  {
  }

  /** Two cells are 4-adjacent when they are one unit step apart. */
  predicate Adjacent(a: Pos, b: Pos) {
    Manhattan(a, b) == 1
  }

  /** Row and column offsets of the four directions: 0 up, 1 right, 2 down,
      3 left. */
  const DR: seq<int> := [-1, 0, 1, 0]
  const DC: seq<int> := [0, 1, 0, -1]

  predicate IsDirection(d: int) {
    0 <= d < 4
  }

  /** The cell one step from `p` in direction `d`. */
  function Ahead(p: Pos, d: int): (q: Pos)
    requires IsDirection(d)
    ensures Adjacent(p, q)
  {
    Pos(p.row + DR[d], p.col + DC[d])
  }

  /** The grid is square (`gridSize = grid.length` is used for both axes). */
  predicate IsSquare(g: array2<Cell>) {
    g.Length0 == g.Length1
  }

  function KindAt(g: array2<Cell>, p: Pos): CellType
    reads g
    requires InBounds(g.Length0, p) && IsSquare(g)
  {
    g[p.row, p.col].kind
  }

  /** Every position of an n x n grid. */
  ghost function AllPositions(n: int): set<Pos> {
    set r, c | 0 <= r < n && 0 <= c < n :: Pos(r, c)
  }

  lemma InAllPositions(n: int, p: Pos)
    requires InBounds(n, p)
    ensures p in AllPositions(n)
  {
    assert p == Pos(p.row, p.col);
  }

  /** The WALL cells of a grid. */
  ghost function Walls(g: array2<Cell>): set<Pos>
    reads g
  {
    set r, c | 0 <= r < g.Length0 && 0 <= c < g.Length1 && g[r, c].kind == Wall :: Pos(r, c)
  }

  /** `walls` is exactly the set of WALL cells of `g`. */
  ghost predicate WallsAre(g: array2<Cell>, walls: set<Pos>)
    reads g
  {
    forall r, c :: 0 <= r < g.Length0 && 0 <= c < g.Length1 ==> (g[r, c].kind == Wall <==> Pos(r, c) in walls)
  }

  lemma WallsAreWalls(g: array2<Cell>)
    ensures WallsAre(g, Walls(g))
    ensures forall p :: p in Walls(g) ==> 0 <= p.row < g.Length0 && 0 <= p.col < g.Length1
  {
  }

  /** A position is a WALL cell of `g` exactly when it lies on `g` and its
      record is a WALL. */
  lemma WallAt(g: array2<Cell>, p: Pos)
    ensures p in Walls(g) <==> 0 <= p.row < g.Length0 && 0 <= p.col < g.Length1 && g[p.row, p.col].kind == Wall
  {
    if 0 <= p.row < g.Length0 && 0 <= p.col < g.Length1 && g[p.row, p.col].kind == Wall {
      assert p == Pos(p.row, p.col);
    }
  }

  ghost function RowPositions(r: int, n: nat): set<Pos> {
    set c | 0 <= c < n :: Pos(r, c)
  }

  lemma {:induction false} RowPositionsSize(r: int, n: nat)
    ensures |RowPositions(r, n)| == n
  {
    if n > 0 {
      RowPositionsSize(r, n - 1);
      assert RowPositions(r, n) == RowPositions(r, n - 1) + {Pos(r, n - 1)};
    }
  }

  ghost function Block(k: nat, n: nat): set<Pos> {
    set r, c | 0 <= r < k && 0 <= c < n :: Pos(r, c)
  }

  /** A block of k rows is the block of its first k - 1 rows plus its last
      row, which it does not share with them. */
  lemma BlockSplit(k: nat, n: nat)
    requires k > 0
    ensures Block(k, n) == Block(k - 1, n) + RowPositions(k - 1, n)
    ensures Block(k - 1, n) !! RowPositions(k - 1, n)
  {
  }

  lemma {:induction false} BlockSize(k: nat, n: nat)
    ensures |Block(k, n)| == k * n
  {
    if k > 0 {
      BlockSize(k - 1, n);
      RowPositionsSize(k - 1, n);
      BlockSplit(k, n);
      assert (k - 1) * n + n == k * n;
    }
  }

  /** An n x n grid has exactly n * n positions. */
  lemma GridSize(n: nat)
    ensures |AllPositions(n)| == n * n
  {
    BlockSize(n, n);
    assert AllPositions(n) == Block(n, n);
  }
}
