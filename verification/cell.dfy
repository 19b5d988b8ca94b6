/**
 * The wall model of a single maze cell: four compass walls, the table of
 * opposite directions, the "still has all its walls" test and the removal
 * of one wall.
 */
module Cells {

  /** A compass direction; each one names a wall of a cell. */
  datatype Dir = N | S | E | W

  /** True for the two directions of the north-south axis. */
  predicate IsVertical(d: Dir) {
    d == N || d == S
  }

  /**
   * The `wall_pairs` table: the direction in which the neighbouring cell sees
   * the same wall. It is the only other direction on the same axis, which
   * determines it completely.
   */
  function Opposite(d: Dir): (o: Dir)
    ensures o != d
    ensures IsVertical(o) == IsVertical(d)
  {
    match d
    case N => S
    case S => N
    case E => W
    case W => E
  }

  /** `wall_pairs` is an involution, hence a bijection of the four directions. */
  lemma OppositeInvolution(d: Dir)
    ensures Opposite(Opposite(d)) == d
    ensures forall d' :: Opposite(d') == Opposite(d) ==> d' == d
  {
  }

  /** The four wall flags of a cell; `true` means the wall is standing. */
  datatype Walls = Walls(n: bool, s: bool, e: bool, w: bool) {

    /** The flag of the wall facing `d`. */
    function Has(d: Dir): bool {
      match d
      case N => n
      case S => s
      case E => e
      case W => w
    }

    /** The same flags with the wall facing `d` removed. */
    function Without(d: Dir): (r: Walls)
      ensures !r.Has(d)
      ensures forall d' :: d' != d ==> r.Has(d') == Has(d')
    {
      match d
      case N => this.(n := false)
      case S => this.(s := false)
      case E => this.(e := false)
      case W => this.(w := false)
    }
  }

  /** A cell of the grid: its position and its four walls. */
  datatype Cell = Cell(x: int, y: int, walls: Walls) {

    /** `has_all_walls`: no wall of this cell has been knocked down yet. */
    function HasAllWalls(): (b: bool)
      ensures b <==> forall d :: walls.Has(d)
    {
      walls.Has(N) && walls.Has(S) && walls.Has(E) && walls.Has(W)
    }

    /** This cell's half of `knock_down_wall`: the wall facing `d` is removed. */
    function KnockDown(d: Dir): (c: Cell)
      ensures c.x == x && c.y == y
      ensures !c.walls.Has(d)
      ensures forall d' :: d' != d ==> c.walls.Has(d') == walls.Has(d')
      ensures !c.HasAllWalls()
    {
      this.(walls := walls.Without(d))
    }
  }

  /** A freshly constructed cell at `(x, y)`: surrounded by walls. */
  function NewCell(x: int, y: int): (c: Cell)
    ensures c.x == x && c.y == y
    ensures c.HasAllWalls()
  {
    Cell(x, y, Walls(true, true, true, true))
  }
}
