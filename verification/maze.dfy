/**
 * The maze grid: an `nx` by `ny` array of cells addressed as `cells[x][y]`,
 * pure coordinate moves, the wall removal that keeps both sides of a wall in
 * step, and the lookup of neighbours that have not been carved into yet.
 */
module Mazes {
  import opened Wrappers
  import opened Cells

  /** A grid position `(x, y)`; `x` grows eastwards and `y` southwards. */
  datatype Coord = Coord(x: int, y: int)

  /** The position of a cell. */
  function Pos(c: Cell): Coord {
    Coord(c.x, c.y)
  }

  /** The failures the maze operations can raise instead of returning. */
  datatype MazeError =
    | OutOfBounds     // a grid lookup outside the `nx` by `ny` array
    | EmptyStackPop   // carving backtracked with nothing left to pop
    | RecursionLimit  // the solver recursed deeper than the interpreter allows

  /**
   * A maze: its dimensions, the entry cell `(ix, iy)`, the grid of cells with
   * `cells[x][y]` at position `(x, y)`, and the solution path found so far.
   */
  datatype Maze = Maze(nx: int, ny: int, ix: int, iy: int,
                       cells: seq<seq<Cell>>, solution: seq<Cell>)

  /** The number of values in the half-open range `[0, n)`; zero when `n <= 0`. */
  function RangeLen(n: int): (k: nat)
    ensures n > 0 ==> k == n
    ensures n <= 0 ==> k == 0
  {
    if n > 0 then n else 0
  }

  /** The grid has `nx` columns of `ny` cells and every cell knows its own position. */
  predicate Shape(m: Maze) {
    && |m.cells| == RangeLen(m.nx)
    && (forall x :: 0 <= x < |m.cells| ==> |m.cells[x]| == RangeLen(m.ny))
    && (forall x, y :: 0 <= x < |m.cells| && 0 <= y < |m.cells[x]| ==>
          m.cells[x][y].x == x && m.cells[x][y].y == y)
  }

  /** The position lies on the grid. */
  predicate InBounds(m: Maze, c: Coord) {
    0 <= c.x < m.nx && 0 <= c.y < m.ny
  }

  /** The entry cell `(ix, iy)`, where carving and solving start. */
  function Entry(m: Maze): Coord {
    Coord(m.ix, m.iy)
  }

  /** The maze constructor: an `nx` by `ny` grid of fully walled cells and an empty solution. */
  function NewMaze(nx: int, ny: int, ix: int, iy: int): (m: Maze)
    ensures Shape(m)
    ensures m.nx == nx && m.ny == ny && Entry(m) == Coord(ix, iy)
    ensures m.solution == []
    ensures forall c :: InBounds(m, c) ==> CellAt(m, c).HasAllWalls()
  {
    Maze(nx, ny, ix, iy,
         seq(RangeLen(nx), x => seq(RangeLen(ny), y => NewCell(x, y))),
         [])
  }

  /** `cell_at`: the cell stored at position `c`. */
  function CellAt(m: Maze, c: Coord): (r: Cell)
    requires Shape(m) && InBounds(m, c)
    ensures Pos(r) == c
  {
    m.cells[c.x][c.y]
  }

  /**
   * `cell_at` with its failure: the lookup succeeds exactly on the grid, and
   * a position off the grid raises an index error instead.
   */
  function LookUp(m: Maze, c: Coord): (r: Result<Cell, MazeError>)
    requires Shape(m)
    ensures r.Success? <==> InBounds(m, c)
    ensures r.Failure? ==> r.error == OutOfBounds
    ensures r.Success? ==> Pos(r.value) == c && r.value == CellAt(m, c)
  {
    if InBounds(m, c) then Success(m.cells[c.x][c.y]) else Failure(OutOfBounds)
  }

  /** Whether the wall facing `d` of the cell at `c` is standing. */
  function WallAt(m: Maze, c: Coord, d: Dir): bool
    requires Shape(m) && InBounds(m, c)
  {
    CellAt(m, c).walls.Has(d)
  }

  /** The step table of `move`: W is (-1, 0), E is (1, 0), S is (0, 1), N is (0, -1). */
  function Delta(d: Dir): (int, int) {
    match d
    case W => (-1, 0)
    case E => (1, 0)
    case S => (0, 1)
    case N => (0, -1)
  }

  /**
   * `move`: the position one step from `c` in direction `d`; no bounds check.
   * Exactly one coordinate changes, by one, along the axis of `d`.
   */
  function Move(c: Coord, d: Dir): (r: Coord)
    ensures IsVertical(d) ==> r.x == c.x && (r.y == c.y + 1 || r.y == c.y - 1)
    ensures !IsVertical(d) ==> r.y == c.y && (r.x == c.x + 1 || r.x == c.x - 1)
  {
    Coord(c.x + Delta(d).0, c.y + Delta(d).1)
  }

  /** Moving back in the opposite direction returns to the start, and different directions reach different cells. */
  lemma MoveInverse(c: Coord, d: Dir)
    ensures Move(Move(c, d), Opposite(d)) == c
    ensures forall d' :: Move(c, d') == Move(c, d) ==> d' == d
    ensures Move(c, d) != c
  {
  }

  /** Replaces the cell at `c`. */
  function SetCell(m: Maze, c: Coord, cell: Cell): (r: Maze)
    requires Shape(m) && InBounds(m, c) && Pos(cell) == c
    ensures Shape(r) && r == m.(cells := r.cells)
    ensures CellAt(r, c) == cell
    ensures forall c' :: InBounds(m, c') && c' != c ==> CellAt(r, c') == CellAt(m, c')
  {
    m.(cells := m.cells[c.x := m.cells[c.x][c.y := cell]])
  }

  /**
   * `knock_down_wall`, applied to the grid cells at `a` and `b`: the wall of
   * `a` facing `d` and the wall of `b` facing the opposite way come down, in
   * that order, and no other wall of the grid changes.
   */
  function KnockDownWall(m: Maze, a: Coord, b: Coord, d: Dir): (r: Maze)
    requires Shape(m) && InBounds(m, a) && InBounds(m, b)
    ensures Shape(r) && r == m.(cells := r.cells)
    ensures !WallAt(r, a, d) && !WallAt(r, b, Opposite(d))
    ensures forall c, e :: InBounds(m, c) && (c, e) != (a, d) && (c, e) != (b, Opposite(d)) ==>
              WallAt(r, c, e) == WallAt(m, c, e)
  {
    var m1 := SetCell(m, a, CellAt(m, a).KnockDown(d));
    SetCell(m1, b, CellAt(m1, b).KnockDown(Opposite(d)))
  }

  /** Every wall between two grid neighbours reads the same from both sides. */
  ghost predicate WallSymmetric(m: Maze) {
    && Shape(m)
    && forall c, d {:trigger WallAt(m, c, d), Move(c, d)} :: InBounds(m, c) && InBounds(m, Move(c, d)) ==>
         WallAt(m, c, d) == WallAt(m, Move(c, d), Opposite(d))
  }

  /** Every wall on the outer edge of the grid is standing. */
  ghost predicate BorderIntact(m: Maze) {
    && Shape(m)
    && forall c, d :: InBounds(m, c) && !InBounds(m, Move(c, d)) ==> WallAt(m, c, d)
  }

  /** Every cell still has all its walls, as after construction. */
  ghost predicate Pristine(m: Maze) {
    && Shape(m)
    && forall c :: InBounds(m, c) ==> CellAt(m, c).HasAllWalls()
  }

  /** A freshly constructed maze is pristine, wall-symmetric and closed at the border. */
  lemma NewMazeWalls(nx: int, ny: int, ix: int, iy: int)
    ensures Pristine(NewMaze(nx, ny, ix, iy))
    ensures WallSymmetric(NewMaze(nx, ny, ix, iy))
    ensures BorderIntact(NewMaze(nx, ny, ix, iy))
  {
  }

  /** Knocking down the wall between a cell and its neighbour in direction `d` keeps the walls symmetric. */
  lemma KnockDownKeepsSymmetry(m: Maze, a: Coord, d: Dir)
    requires Shape(m) && InBounds(m, a) && InBounds(m, Move(a, d))
    requires WallSymmetric(m)
    ensures WallSymmetric(KnockDownWall(m, a, Move(a, d), d))
  {
    var b := Move(a, d);
    var r := KnockDownWall(m, a, b, d);
    MoveInverse(a, d);
    OppositeInvolution(d);
    forall c, e | InBounds(r, c) && InBounds(r, Move(c, e))
      ensures WallAt(r, c, e) == WallAt(r, Move(c, e), Opposite(e))
    {
      MoveInverse(c, e);
      OppositeInvolution(e);
      if (c, e) == (a, d) || (c, e) == (b, Opposite(d)) {
      } else {
        assert WallAt(r, c, e) == WallAt(m, c, e);
        assert WallAt(r, Move(c, e), Opposite(e)) == WallAt(m, Move(c, e), Opposite(e));
      }
    }
  }

  /** Knocking down the wall between a cell and its grid neighbour leaves the border standing. */
  lemma KnockDownKeepsBorder(m: Maze, a: Coord, d: Dir)
    requires Shape(m) && InBounds(m, a) && InBounds(m, Move(a, d))
    requires BorderIntact(m)
    ensures BorderIntact(KnockDownWall(m, a, Move(a, d), d))
  {
    MoveInverse(a, d);
  }

  /** Both of the above, for a grid that may or may not be symmetric or closed. */
  lemma KnockDownKeepsWalls(m: Maze, a: Coord, d: Dir)
    requires Shape(m) && InBounds(m, a) && InBounds(m, Move(a, d))
    ensures WallSymmetric(m) ==> WallSymmetric(KnockDownWall(m, a, Move(a, d), d))
    ensures BorderIntact(m) ==> BorderIntact(KnockDownWall(m, a, Move(a, d), d))
  {
    if WallSymmetric(m) {
      KnockDownKeepsSymmetry(m, a, d);
    }
    if BorderIntact(m) {
      KnockDownKeepsBorder(m, a, d);
    }
  }

  /** The neighbour of `c` in direction `d` is on the grid and still has all its walls. */
  predicate IsValidNeighbour(m: Maze, c: Coord, d: Dir)
    requires Shape(m)
  {
    InBounds(m, Move(c, d)) && CellAt(m, Move(c, d)).HasAllWalls()
  }

  /** The order in which `find_valid_neighbours` tries directions. */
  const SearchOrder: seq<Dir> := [W, E, S, N]

  /** The position of a direction in `SearchOrder`. */
  function Rank(d: Dir): (k: nat)
    ensures k < |SearchOrder| && SearchOrder[k] == d
  {
    match d
    case W => 0
    case E => 1
    case S => 2
    case N => 3
  }

  /** The valid neighbours of `c` among the directions `SearchOrder[k..]`, in that order. */
  function ValidNeighboursFrom(m: Maze, c: Coord, k: nat): (r: seq<(Dir, Cell)>)
    requires Shape(m) && k <= |SearchOrder|
    ensures forall i :: 0 <= i < |r| ==>
              && k <= Rank(r[i].0)
              && IsValidNeighbour(m, c, r[i].0)
              && r[i].1 == CellAt(m, Move(c, r[i].0))
    ensures forall i, j :: 0 <= i < j < |r| ==> Rank(r[i].0) < Rank(r[j].0)
    decreases |SearchOrder| - k
  {
    if k == |SearchOrder| then []
    else
      var d := SearchOrder[k];
      var rest := ValidNeighboursFrom(m, c, k + 1);
      if IsValidNeighbour(m, c, d) then [(d, CellAt(m, Move(c, d)))] + rest else rest
  }

  /** No valid neighbour among `SearchOrder[k..]` is left out of `ValidNeighboursFrom`. */
  lemma {:induction false} ValidNeighboursFromComplete(m: Maze, c: Coord, k: nat, d: Dir)
    requires Shape(m) && k <= |SearchOrder|
    requires k <= Rank(d) && IsValidNeighbour(m, c, d)
    ensures (d, CellAt(m, Move(c, d))) in ValidNeighboursFrom(m, c, k)
    decreases |SearchOrder| - k
  {
    if Rank(d) != k {
      ValidNeighboursFromComplete(m, c, k + 1, d);
    }
  }

  /**
   * `find_valid_neighbours`: every in-bounds neighbour of `c` that still has
   * all its walls, paired with the direction leading to it, in W, E, S, N order.
   */
  function FindValidNeighbours(m: Maze, c: Coord): (r: seq<(Dir, Cell)>)
    requires Shape(m)
    ensures forall i :: 0 <= i < |r| ==>
              IsValidNeighbour(m, c, r[i].0) && r[i].1 == CellAt(m, Move(c, r[i].0))
    ensures forall i, j :: 0 <= i < j < |r| ==> Rank(r[i].0) < Rank(r[j].0)
    ensures forall d :: IsValidNeighbour(m, c, d) <==> exists i :: 0 <= i < |r| && r[i].0 == d
  {
    var r := ValidNeighboursFrom(m, c, 0);
    assert forall d :: IsValidNeighbour(m, c, d) ==> exists i :: 0 <= i < |r| && r[i].0 == d by {
      forall d | IsValidNeighbour(m, c, d)
        ensures exists i :: 0 <= i < |r| && r[i].0 == d
      {
        ValidNeighboursFromComplete(m, c, 0, d);
        var i :| 0 <= i < |r| && r[i] == (d, CellAt(m, Move(c, d)));
      }
    }
    r
  }
}
