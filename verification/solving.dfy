/**
 * `solve`: a recursive depth-first search from a start cell to a destination
 * through the knocked-down walls. It never steps straight back the way it
 * came, appends every cell of the route it is exploring to the solution list,
 * and pops a cell again when none of its exits leads to the destination.
 *
 * The maze is only read; the solution list is threaded through the search as
 * `sol` and returned. Python's recursion limit is the `fuel` parameter: every
 * nested call to `solve` uses one unit, and running out is an error, as is
 * looking up a cell off the grid.
 */
module Solving {
  import opened Wrappers
  import opened Cells
  import opened Mazes
  import opened Passages
  import opened Trees
  import opened Carving

  /** The order in which a cell's wall table is iterated: the order its keys were inserted in. */
  const WallOrder: seq<Dir> := [N, S, E, W]

  /** The place of `d` in `WallOrder`. */
  function WallRank(d: Dir): (k: nat)
    ensures k < |WallOrder| && WallOrder[k] == d
  {
    match d
    case N => 0
    case S => 1
    case E => 2
    case W => 3
  }

  /** The search may leave a cell towards `d`: that wall is down and `d` does not lead back to where it came from. */
  predicate MayLeave(walls: Walls, comeFrom: Option<Dir>, d: Dir) {
    !walls.Has(d) && (comeFrom.None? || d != Opposite(comeFrom.value))
  }

  /** The directions among `WallOrder[k..]` that the search may take, in that order. */
  function ExitsFrom(walls: Walls, comeFrom: Option<Dir>, k: nat): (r: seq<Dir>)
    requires k <= |WallOrder|
    ensures forall i :: 0 <= i < |r| ==> k <= WallRank(r[i]) && MayLeave(walls, comeFrom, r[i])
    ensures forall i, j :: 0 <= i < j < |r| ==> WallRank(r[i]) < WallRank(r[j])
    decreases |WallOrder| - k
  {
    if k == |WallOrder| then []
    else
      var d := WallOrder[k];
      var rest := ExitsFrom(walls, comeFrom, k + 1);
      if MayLeave(walls, comeFrom, d) then [d] + rest else rest
  }

  /** No direction the search may take from `WallOrder[k..]` is missing from `ExitsFrom`. */
  lemma {:induction false} ExitsFromComplete(walls: Walls, comeFrom: Option<Dir>, k: nat, d: Dir)
    requires k <= WallRank(d) && MayLeave(walls, comeFrom, d)
    ensures d in ExitsFrom(walls, comeFrom, k)
    decreases |WallOrder| - k
  {
    if WallRank(d) != k {
      ExitsFromComplete(walls, comeFrom, k + 1, d);
    }
  }

  /**
   * `possible_directions`: exactly the directions whose wall is down, other
   * than the one leading back to the cell the search came from, in the
   * iteration order of the wall table.
   */
  function PossibleDirections(walls: Walls, comeFrom: Option<Dir>): (r: seq<Dir>)
    ensures forall d :: d in r <==> MayLeave(walls, comeFrom, d)
    ensures forall i, j :: 0 <= i < j < |r| ==> WallRank(r[i]) < WallRank(r[j])
  {
    var r := ExitsFrom(walls, comeFrom, 0);
    assert forall d :: MayLeave(walls, comeFrom, d) ==> d in r by {
      forall d | MayLeave(walls, comeFrom, d)
        ensures d in r
      {
        ExitsFromComplete(walls, comeFrom, 0, d);
      }
    }
    r
  }

  /** The positions of a sequence of cells. */
  function Positions(cells: seq<Cell>): (p: seq<Coord>)
    ensures |p| == |cells|
    ensures forall i :: 0 <= i < |cells| ==> p[i] == Pos(cells[i])
  {
    seq(|cells|, i requires 0 <= i < |cells| => Pos(cells[i]))
  }

  /**
   * A route found by the search from `s` to `dest`, having arrived at `s`
   * in direction `comeFrom`: a walk through removed walls, made of the grid's
   * own cells, that never turns straight back, and whose first step does not
   * go back where the search came from.
   */
  ghost predicate Route(m: Maze, route: seq<Cell>, s: Coord, dest: Coord, comeFrom: Option<Dir>)
    requires Shape(m)
  {
    var p := Positions(route);
    && Walk(m, p)
    && p[0] == s && p[|p| - 1] == dest
    && (forall i :: 0 <= i < |route| ==> route[i] == CellAt(m, p[i]))
    && NoReversal(p)
    && (comeFrom.Some? && |p| > 1 ==> p[1] != Move(s, Opposite(comeFrom.value)))
  }

  /** `sol'` is `sol` followed by a route from `s` to `dest`. */
  ghost predicate Extends(m: Maze, sol: seq<Cell>, sol': seq<Cell>, s: Coord, dest: Coord, comeFrom: Option<Dir>)
    requires Shape(m)
  {
    |sol| < |sol'| && sol'[..|sol|] == sol && Route(m, sol'[|sol|..], s, dest, comeFrom)
  }

  /** The outcome of a search: whether the destination was reached, and the solution list afterwards. */
  datatype Search = Search(found: bool, solution: seq<Cell>)

  /** The cell the search starts from: the maze's entry when no start is given. */
  function StartOf(m: Maze, start: Option<Coord>): Coord {
    if start.None? then Entry(m) else start.value
  }

  /** A step from `s` through a removed wall onto the start of a walk gives a walk from `s`. */
  lemma WalkCons(m: Maze, q: seq<Coord>, s: Coord, d: Dir)
    requires Shape(m) && InBounds(m, s) && !WallAt(m, s, d)
    requires Walk(m, q) && q[0] == Move(s, d)
    ensures Walk(m, [s] + q)
  {
    var p := [s] + q;
    assert Link(m, s, d);
    forall i: nat | i + 1 < |p|
      ensures StepOpen(m, p, i)
    {
      if i == 0 {
        assert Link(m, p[0], d) && Move(p[0], d) == p[1];
      } else {
        assert StepOpen(m, q, i - 1);
      }
    }
  }

  /** Prepending `s` to a route that leaves `Move(s, d)` other than back towards `s` adds no reversal. */
  lemma NoReversalCons(q: seq<Coord>, s: Coord, d: Dir)
    requires |q| > 0 && q[0] == Move(s, d)
    requires forall i: nat :: i + 2 < |q| ==> NoReversalAt(q, i)
    requires |q| > 1 ==> q[1] != Move(q[0], Opposite(d))
    ensures NoReversal([s] + q)
  {
    var p := [s] + q;
    MoveInverse(s, d);
    forall i: nat | i + 2 < |p|
      ensures NoReversalAt(p, i)
    {
      if i > 0 {
        assert NoReversalAt(q, i - 1);
      }
    }
  }

  /**
   * Stepping from `s` in direction `d` through a removed wall, then following
   * a route that does not come straight back, is a route from `s`.
   */
  lemma RouteCons(m: Maze, route: seq<Cell>, s: Coord, d: Dir, dest: Coord, comeFrom: Option<Dir>)
    requires Shape(m) && InBounds(m, s)
    requires |route| > 0 && Route(m, route, Move(s, d), dest, Some(d))
    requires !WallAt(m, s, d) && (comeFrom.None? || d != Opposite(comeFrom.value))
    ensures Route(m, [CellAt(m, s)] + route, s, dest, comeFrom)
  {
    var q := Positions(route);
    var route' := [CellAt(m, s)] + route;
    var p := Positions(route');
    assert p == [s] + q;
    WalkCons(m, q, s, d);
    NoReversalCons(q, s, d);
    forall i | 0 <= i < |route'|
      ensures route'[i] == CellAt(m, p[i])
    {
      if i > 0 {
        assert route'[i] == route[i - 1];
      }
    }
    if comeFrom.Some? {
      MoveInverse(s, d);
    }
  }

  /**
   * The extension found from `s`'s neighbour in direction `d`, after `s`'s
   * cell was appended to `sol`, is an extension of `sol` found from `s`.
   */
  lemma ExtendsCons(m: Maze, sol: seq<Cell>, sol': seq<Cell>, s: Coord, d: Dir, dest: Coord, comeFrom: Option<Dir>)
    requires Shape(m) && InBounds(m, s)
    requires Extends(m, sol + [CellAt(m, s)], sol', Move(s, d), dest, Some(d))
    requires !WallAt(m, s, d) && (comeFrom.None? || d != Opposite(comeFrom.value))
    ensures Extends(m, sol, sol', s, dest, comeFrom)
  {
    var k := |sol|;
    assert sol'[..k + 1] == sol + [CellAt(m, s)];
    assert sol'[..k] == sol'[..k + 1][..k];
    assert sol'[k..] == [CellAt(m, s)] + sol'[k + 1..];
    RouteCons(m, sol'[k + 1..], s, d, dest, comeFrom);
  }

  /** A single cell is a route from it to itself. */
  lemma RouteHere(m: Maze, s: Coord, comeFrom: Option<Dir>)
    requires Shape(m) && InBounds(m, s)
    ensures Route(m, [CellAt(m, s)], s, s, comeFrom)
  {
    assert Positions([CellAt(m, s)]) == [s];
  }

  /** An extension found through one of the exits of `s` is an extension found from `s`. */
  lemma FoundThroughExit(m: Maze, sol: seq<Cell>, sol': seq<Cell>, s: Coord, dirs: seq<Dir>, dest: Coord, comeFrom: Option<Dir>)
    requires Shape(m) && InBounds(m, s)
    requires forall d :: d in dirs ==> MayLeave(CellAt(m, s).walls, comeFrom, d)
    requires exists i :: 0 <= i < |dirs| && Extends(m, sol + [CellAt(m, s)], sol', Move(s, dirs[i]), dest, Some(dirs[i]))
    ensures Extends(m, sol, sol', s, dest, comeFrom)
  {
    var i :| 0 <= i < |dirs| && Extends(m, sol + [CellAt(m, s)], sol', Move(s, dirs[i]), dest, Some(dirs[i]));
    assert MayLeave(CellAt(m, s).walls, comeFrom, dirs[i]);
    ExtendsCons(m, sol, sol', s, dirs[i], dest, comeFrom);
  }

  /**
   * `solve(destination, start, come_from)` with the solution list `sol`.
   * Out of fuel it fails as Python does when the recursion limit is hit, and
   * a start off the grid fails like the lookup of its cell. Reaching the
   * destination appends its cell and succeeds; otherwise the search appends
   * the current cell, tries the exits in order, and on failure of all of them
   * pops that cell again.
   */
  function Solve(m: Maze, sol: seq<Cell>, dest: Coord, start: Option<Coord>, comeFrom: Option<Dir>, fuel: nat)
    : (r: Result<Search, MazeError>)
    requires Shape(m)
    ensures fuel == 0 ==> r == Failure(RecursionLimit)
    ensures fuel > 0 && !InBounds(m, StartOf(m, start)) ==> r == Failure(OutOfBounds)
    ensures fuel > 0 && InBounds(m, StartOf(m, start)) && StartOf(m, start) == dest ==>
              r == Success(Search(true, sol + [CellAt(m, dest)]))
    ensures r.Success? && !r.value.found ==> r.value.solution == sol
    ensures r.Success? && r.value.found ==> Extends(m, sol, r.value.solution, StartOf(m, start), dest, comeFrom)
    ensures BorderIntact(m) && InBounds(m, StartOf(m, start)) ==> r != Failure(OutOfBounds)
    decreases fuel, 0, 0
  {
    if fuel == 0 then Failure(RecursionLimit)
    else
      var s := StartOf(m, start);
      match LookUp(m, s)
      case Failure(e) => Failure(e)
      case Success(cell) =>
        if Pos(cell) == dest then
          RouteHere(m, s, comeFrom);
          assert (sol + [cell])[..|sol|] == sol;
          assert (sol + [cell])[|sol|..] == [cell];
          Success(Search(true, sol + [cell]))
        else
          var dirs := PossibleDirections(cell.walls, comeFrom);
          if |dirs| == 0 then Success(Search(false, sol))
          else
            var r := TryDirections(m, sol + [cell], dest, s, dirs, fuel - 1);
            if r.Failure? then r
            else if r.value.found then
              FoundThroughExit(m, sol, r.value.solution, s, dirs, dest, comeFrom);
              r
            else Success(Search(false, r.value.solution[..|r.value.solution| - 1]))
  }

  /**
   * `r` is what the loop of `solve` returns when the `i`-th exit of `dirs` is
   * the first whose search reaches the destination: every earlier exit was
   * searched and came back with nothing found and `sol` as it was.
   */
  ghost predicate FirstFoundAt(m: Maze, sol: seq<Cell>, dest: Coord, s: Coord, dirs: seq<Dir>, fuel: nat,
                               r: Result<Search, MazeError>, i: nat)
    requires Shape(m) && i < |dirs|
    decreases fuel, 1, 0
  {
    && (forall j :: 0 <= j < i ==> Solve(m, sol, dest, Some(Move(s, dirs[j])), Some(dirs[j]), fuel) == Success(Search(false, sol)))
    && r == Solve(m, sol, dest, Some(Move(s, dirs[i])), Some(dirs[i]), fuel)
  }

  /** An exit that finds nothing in front of the first one that succeeds keeps it the first. */
  lemma FirstFoundShift(m: Maze, sol: seq<Cell>, dest: Coord, s: Coord, dirs: seq<Dir>, fuel: nat,
                        r: Result<Search, MazeError>, i: nat)
    requires Shape(m) && 0 < |dirs| && i < |dirs| - 1
    requires Solve(m, sol, dest, Some(Move(s, dirs[0])), Some(dirs[0]), fuel) == Success(Search(false, sol))
    requires FirstFoundAt(m, sol, dest, s, dirs[1..], fuel, r, i)
    ensures FirstFoundAt(m, sol, dest, s, dirs, fuel, r, i + 1)
    decreases fuel, 1, 1
  {
    forall j | 0 < j < i + 1
      ensures Solve(m, sol, dest, Some(Move(s, dirs[j])), Some(dirs[j]), fuel) == Success(Search(false, sol))
    {
      assert dirs[j] == dirs[1..][j - 1];
    }
    assert dirs[i + 1] == dirs[1..][i];
  }

  /**
   * The loop of `solve` over the exits `dirs` of the cell at `s`, whose cell
   * ends `sol`: each exit is searched with `s`'s neighbour as the start and
   * the exit as the direction come from, until one reaches the destination.
   */
  function TryDirections(m: Maze, sol: seq<Cell>, dest: Coord, s: Coord, dirs: seq<Dir>, fuel: nat)
    : (r: Result<Search, MazeError>)
    requires Shape(m)
    ensures r.Success? && !r.value.found ==> r.value.solution == sol
    ensures r.Success? && r.value.found ==>
              exists i :: 0 <= i < |dirs| && Extends(m, sol, r.value.solution, Move(s, dirs[i]), dest, Some(dirs[i]))
    ensures r.Success? && r.value.found ==> exists i: nat :: i < |dirs| && FirstFoundAt(m, sol, dest, s, dirs, fuel, r, i)
    ensures BorderIntact(m) && InBounds(m, s) && (forall i :: 0 <= i < |dirs| ==> !WallAt(m, s, dirs[i])) ==>
              r != Failure(OutOfBounds)
    decreases fuel, 2, |dirs|
  {
    if |dirs| == 0 then Success(Search(false, sol))
    else
      var r := Solve(m, sol, dest, Some(Move(s, dirs[0])), Some(dirs[0]), fuel);
      if r.Failure? || r.value.found then
        assert FirstFoundAt(m, sol, dest, s, dirs, fuel, r, 0);
        r
      else
        var rest := TryDirections(m, r.value.solution, dest, s, dirs[1..], fuel);
        assert rest.Success? && rest.value.found ==>
                 exists i: nat :: i < |dirs| && FirstFoundAt(m, sol, dest, s, dirs, fuel, rest, i) &&
                   Extends(m, sol, rest.value.solution, Move(s, dirs[i]), dest, Some(dirs[i])) by {
          if rest.Success? && rest.value.found {
            var i: nat :| i < |dirs[1..]| && FirstFoundAt(m, sol, dest, s, dirs[1..], fuel, rest, i);
            FirstFoundShift(m, sol, dest, s, dirs, fuel, rest, i);
          }
        }
        rest
  }

  /** In a maze whose removed walls form no loop, a route passes no cell twice. */
  lemma RouteIsSimple(m: Maze, route: seq<Cell>, s: Coord, dest: Coord, comeFrom: Option<Dir>)
    requires Shape(m) && Acyclic(m) && Route(m, route, s, dest, comeFrom)
    ensures forall i, j :: 0 <= i < j < |route| ==> Pos(route[i]) != Pos(route[j])
  {
    assert Distinct(Positions(route));
  }

  /**
   * On a maze whose removed walls form a spanning tree, as `make_maze`
   * leaves it, the cells a successful search appends to the solution list
   * lie at pairwise different positions: the path found is simple.
   */
  lemma SolveFindsSimplePath(m: Maze, root: Coord, sol: seq<Cell>, dest: Coord, start: Option<Coord>,
                             comeFrom: Option<Dir>, fuel: nat)
    requires SpanningTree(m, root)
    requires Solve(m, sol, dest, start, comeFrom, fuel).Success? && Solve(m, sol, dest, start, comeFrom, fuel).value.found
    ensures var path := Solve(m, sol, dest, start, comeFrom, fuel).value.solution;
            forall i, j :: |sol| <= i < j < |path| ==> Pos(path[i]) != Pos(path[j])
  {
    var path := Solve(m, sol, dest, start, comeFrom, fuel).value.solution;
    var route := path[|sol|..];
    RouteIsSimple(m, route, StartOf(m, start), dest, comeFrom);
    forall i, j | |sol| <= i < j < |path|
      ensures Pos(path[i]) != Pos(path[j])
    {
      assert path[i] == route[i - |sol|] && path[j] == route[j - |sol|];
    }
  }

  /**
   * `solve` called on the maze itself: the search starts from the maze's
   * own solution list, and the list it returns is stored back into the
   * maze; nothing else changes.
   */
  function SolveMaze(m: Maze, dest: Coord, start: Option<Coord>, comeFrom: Option<Dir>, fuel: nat)
    : (r: Result<(bool, Maze), MazeError>)
    requires Shape(m)
    ensures r.Success? ==> r.value.1 == m.(solution := r.value.1.solution)
    ensures r.Success? && !r.value.0 ==> r.value.1 == m
    ensures r.Success? && r.value.0 ==> Extends(m, m.solution, r.value.1.solution, StartOf(m, start), dest, comeFrom)
  {
    match Solve(m, m.solution, dest, start, comeFrom, fuel)
    case Failure(e) => Failure(e)
    case Success(search) => Success((search.found, m.(solution := search.solution)))
  }
}
