# Maze: cells, depth-first carving and the recursive solver, in Dafny

This project models `MazeAndCell.py` of the Maze repository. That file is the core of a
program that:

- builds a rectangular maze of `Cell`s;
- carves it into a perfect maze, using randomised depth-first search with an explicit
  stack (`make_maze`);
- finds a route through the maze with a recursive depth-first search (`solve`).

The model is value-based. A Python object that the source mutates in place becomes an
immutable Dafny value, and the modified copy is returned.

| file | module | models |
|---|---|---|
| `wrappers.dfy` | `Wrappers` | `Option` and `Result`, the way failures are returned |
| `cell.dfy` | `Cells` | directions and `wall_pairs`; a cell's four walls; `has_all_walls`; one side of `knock_down_wall` |
| `maze.dfy` | `Mazes` | the constructor; `cell_at`; `move`; `knock_down_wall` on the grid; `find_valid_neighbours` |
| `passages.dfy` | `Passages` | the passage graph, with open walls as edges; walks and reachability; the edge set; grid size |
| `trees.dfy` | `Trees` | depth labels on the removed walls, and why a maze labelled so has no loop |
| `carving.dfy` | `Carving` | `make_maze` and its loop invariant |
| `solving.dfy` | `Solving` | `solve` and the route it records in `solution` |

How the Python maps onto Dafny:

- **Grid.** The grid `maze_map[x][y]` is `cells: seq<seq<Cell>>`. `Shape` says it has
  `nx` columns of `ny` cells, and that every cell stores its own position. The
  constructor establishes `Shape`, and no operation ever breaks it.
- **Random choice.** The call to `random.choice` is an oracle `choose: nat -> nat`. The
  carving step that visits the `k`-th cell takes neighbour number
  `choose(k - 1) % |neighbours|`. Every property of `MakeMaze` therefore holds for every
  sequence of random choices.
- **Exceptions.** The model returns these as `Failure` values:
  - an `IndexError` from `cell_at` becomes `OutOfBounds`;
  - `pop` from an empty `cell_stack` becomes `EmptyStackPop`;
  - Python's `RecursionError` in `solve` becomes `RecursionLimit`. The recursion depth
    is a `fuel` parameter, and each nested `solve` call uses one unit.
- **What `solve` changes.** `solve` changes nothing but `self.solution`. The model passes
  the maze in read-only, threads the solution list through the search as `sol`, and
  returns the new list in a `Search` value. `SolveMaze` is the call on the maze itself:
  it passes `m.solution` as `sol` and stores the returned list back into the maze.
- **Spanning tree.** The maze `make_maze` produces is a spanning tree of the grid, stated
  by `SpanningTree`:
  - the walls are symmetric;
  - the border is closed;
  - exactly `nx * ny - 1` walls are knocked down;
  - every cell can be reached from the entry cell through knocked-down walls;
  - the knocked-down walls form no loop: a walk through them that never steps straight
    back visits no cell twice (`Acyclic`).

  The last point is proved from the carving itself. Each cell carved into gets a depth
  one more than the cell it was carved from. Then the two sides of a removed wall have
  different depths, and no cell has two shallower neighbours through removed walls. At
  the deepest cell of a would-be loop the walk arrives from and leaves to shallower
  cells, so it steps straight back there.

## Model

| member | source | states |
|---|---|---|
| `Cells.Opposite` | MazeAndCell.py:19-20 | `wall_pairs` maps each direction to a different direction on the same axis. |
| `Cells.OppositeInvolution` | MazeAndCell.py:20 | `wall_pairs` is its own inverse. It is therefore a bijection of the four directions. |
| `Cells.NewCell` | MazeAndCell.py:22-26 | A new cell is at `(x, y)` and has all four walls. |
| `Cells.Cell.HasAllWalls` | MazeAndCell.py:28-31 | True exactly when every one of the four walls stands. |
| `Cells.Cell.KnockDown` | MazeAndCell.py:36 | Removes the wall facing `d` and keeps the position and the other three walls. Afterwards the cell no longer has all its walls. |
| `Mazes.NewMaze` | MazeAndCell.py:43-54 | The grid has `nx` columns of `ny` cells. Each cell is at its own position and has all its walls. The entry is `(ix, iy)` and the solution is empty. |
| `Mazes.NewMazeWalls` | MazeAndCell.py:53 | A new maze is pristine (every cell has all its walls). Its walls are symmetric and its border is closed. |
| `Mazes.CellAt` | MazeAndCell.py:56-59 | On the grid, the cell looked up at `(x, y)` is the cell whose position is `(x, y)`. |
| `Mazes.LookUp` | MazeAndCell.py:56-59 | `cell_at` succeeds exactly on the grid and returns the cell at that position. Off the grid it fails with an index error. |
| `Mazes.Move` | MazeAndCell.py:173-179 | N and S change only `y`, by one. E and W change only `x`, by one. |
| `Mazes.MoveInverse` | MazeAndCell.py:173-179 | Moving in `d` and then in `wall_pairs[d]` returns to the start. Different directions lead to different cells, and no move stays in place. |
| `Mazes.KnockDownWall` | MazeAndCell.py:33-37 | The wall facing `d` comes down on the first cell and the facing wall comes down on the second. No other wall of the grid changes, and the dimensions, entry and solution are kept. |
| `Mazes.KnockDownKeepsSymmetry` | MazeAndCell.py:33-37 | Knocking down a wall between grid neighbours keeps every wall the same when seen from either side. |
| `Mazes.KnockDownKeepsBorder` | MazeAndCell.py:33-37 | Knocking down a wall between grid neighbours leaves every outer wall standing. |
| `Mazes.KnockDownKeepsWalls` | MazeAndCell.py:33-37 | Symmetry and a closed border, each kept whenever it held before. |
| `Mazes.ValidNeighboursFrom` | MazeAndCell.py:184-191 | Scanning the directions from position `k` of W, E, S, N on, only valid neighbours are collected, each paired with its own cell, in scan order. A valid neighbour is on the grid and still has all its walls. |
| `Mazes.ValidNeighboursFromComplete` | MazeAndCell.py:186-191 | Every valid neighbour at or after position `k` of the scan is collected. |
| `Mazes.FindValidNeighbours` | MazeAndCell.py:181-192 | A direction is listed exactly when it leads to a valid neighbour, with that neighbour's cell. Directions come in W, E, S, N order. |
| `Passages.KnockDownEdges` | MazeAndCell.py:33-37 | Knocking down a wall between neighbours adds exactly that pair of cells to the removed-wall graph. |
| `Passages.KnockDownAddsEdge` | MazeAndCell.py:212 | Knocking down a wall that stood on both sides adds exactly one edge. |
| `Passages.WalkAfterKnockDown` | MazeAndCell.py:212 | Every walk through removed walls is still a walk after one more wall comes down. |
| `Passages.PristineHasNoEdges` | MazeAndCell.py:53 | A grid whose cells all have all their walls has no passages. |
| `Passages.ClosedSetCoversGrid` | MazeAndCell.py:202-207 | A set of grid cells that holds the start and is closed under grid moves is the whole grid. |
| `Passages.GridSize` | MazeAndCell.py:196 | The grid has `nx * ny` positions. |
| `Carving.CarveInvInit` | MazeAndCell.py:196-200 | On a pristine grid the loop starts with the invariant holding. At that point only the entry is visited, the stack is empty, `nv` is 1 and there are no passages. |
| `Carving.NeighbourIsUnvisited` | MazeAndCell.py:190-191 | A neighbour that still has all its walls has not been visited. |
| `Carving.CarveStepMarks` | MazeAndCell.py:210-215 | After a carving step a cell still has all its walls exactly when it is unvisited, except the entry while it is the only visited cell. |
| `Carving.CarveStepReachable` | MazeAndCell.py:210-215 | After a carving step every visited cell, the new one included, can be reached from the entry. |
| `Carving.CarveStepTree` | MazeAndCell.py:210-215 | After a carving step there is one passage fewer than there are visited cells, and all visited cells stay reachable. |
| `Carving.CarveStepFrontier` | MazeAndCell.py:213-214 | After a carving step every visited cell with an unvisited neighbour is the current cell or on the stack. |
| `Carving.CarveStepBookkeeping` | MazeAndCell.py:213-215 | After a carving step `nv` counts the visited cells, the stack holds only visited cells, and the stack is shorter than `nv`. |
| `Carving.CarveStep` | MazeAndCell.py:210-215 | One carving step keeps the whole carving invariant. |
| `Carving.DeadEndIsClosed` | MazeAndCell.py:203-205 | When `find_valid_neighbours` returns nothing, the current cell has no unvisited neighbour. |
| `Carving.PopBookkeeping` | MazeAndCell.py:207 | Popping the stack keeps the bookkeeping of visited cells. |
| `Carving.PopFrontier` | MazeAndCell.py:205-207 | Popping at a closed cell keeps every cell with an unvisited neighbour on the stack or current. |
| `Carving.Backtrack` | MazeAndCell.py:205-208 | Backtracking from a dead end keeps the carving invariant. |
| `Carving.FrontierGoneIsClosed` | MazeAndCell.py:205-207 | With an empty stack at a closed cell, the visited cells are closed under grid moves. |
| `Carving.DeadEndWithEmptyStack` | MazeAndCell.py:202-207 | On a pristine grid, a dead end with nothing to pop means all `nx * ny` cells are visited. The loop would already have stopped, so the empty pop never happens. |
| `Trees.WalkStepMoves` | MazeAndCell.py:173-179 | Every step of a walk through removed walls moves to a different cell. |
| `Trees.ShallowerNeighboursMeet` | MazeAndCell.py:210-215 | In a maze labelled as the carving labels it, two cells one open step on either side of a cell, neither deeper than it, are the same cell. |
| `Trees.ClosedWalkTurnsBack` | MazeAndCell.py:210-215 | In a maze so labelled, a walk of two or more steps that returns to its first cell steps straight back somewhere. |
| `Trees.ReturnTurnsBack` | MazeAndCell.py:210-215 | In a maze so labelled, a walk that revisits a cell two or more steps later steps straight back somewhere. |
| `Trees.LayeredIsAcyclic` | MazeAndCell.py:194-215 | A maze with symmetric walls whose removed walls are so labelled has no loop: every walk that never steps straight back visits distinct cells. |
| `Trees.PristineIsLayered` | MazeAndCell.py:53 | A grid with every wall standing is layered by any labelling. |
| `Carving.NoLinkAtClosedCell` | MazeAndCell.py:190-191 | With symmetric walls, a cell that still has all its walls is the end of no removed wall. |
| `Carving.LinksAfterKnockDown` | MazeAndCell.py:33-37 | After `knock_down_wall` the removed walls are those from before plus the two sides of the new one. |
| `Carving.CarveStepDownward` | MazeAndCell.py:210-215 | After a carving step that labels the new cell one deeper, a removed wall leading to a shallower cell is the new wall seen from the new cell, or an old wall not touching the new cell. |
| `Carving.CarveStepLayers` | MazeAndCell.py:210-215 | Labelling the cell carved into one deeper than the current cell keeps the removed walls layered and every visited cell labelled. |
| `Carving.CarvingDone` | MazeAndCell.py:202 | When `nv` reaches `nx * ny`, every cell has been visited and the passages form a spanning tree with no loop. |
| `Carving.CarvedStep` | MazeAndCell.py:212 | After one more wall comes down, walls are still only ever removed, and symmetry and a closed border are kept. |
| `Carving.StillLowered` | MazeAndCell.py:212 | A wall that was down before the carving started stays down after another wall is knocked down. |
| `Carving.LoopInit` | MazeAndCell.py:196-200 | The loop state holds on entry to the loop. |
| `Carving.LoopCarve` | MazeAndCell.py:210-215 | A carving step keeps the loop state. |
| `Carving.LoopBacktrack` | MazeAndCell.py:205-208 | A backtracking step keeps the loop state. |
| `Carving.LoopStuck` | MazeAndCell.py:205-207 | An empty-stack pop before `nv` reaches `nx * ny` is impossible on a pristine grid. |
| `Carving.LoopDone` | MazeAndCell.py:202 | When the loop ends on a pristine grid, the result is a spanning tree and every cell has lost a wall (given more than one cell). |
| `Carving.MakeMaze` | MazeAndCell.py:194-215 | See the note below the table. |
| `Solving.ExitsFrom` | MazeAndCell.py:228-231 | Scanning the wall table from position `k` on, only directions whose wall is down and that do not lead back are collected, in table order. |
| `Solving.ExitsFromComplete` | MazeAndCell.py:229-231 | No such direction at or after position `k` is missed. |
| `Solving.PossibleDirections` | MazeAndCell.py:228-231 | `possible_directions` holds exactly the directions whose wall is down, minus `wall_pairs[come_from]`, in the order N, S, E, W of the wall table. |
| `Solving.WalkCons` | MazeAndCell.py:238-240 | A step through a removed wall followed by a walk is a walk. |
| `Solving.NoReversalCons` | MazeAndCell.py:230 | Excluding `wall_pairs[come_from]` means the route never steps straight back where it came from. |
| `Solving.RouteCons` | MazeAndCell.py:236-242 | Appending the start cell in front of a route found from its neighbour gives a route from the start. |
| `Solving.ExtendsCons` | MazeAndCell.py:236-242 | A solution extended from the neighbour, after the start cell was appended, is a solution extended from the start. |
| `Solving.RouteHere` | MazeAndCell.py:224-226 | The destination cell alone is a route to itself. |
| `Solving.FoundThroughExit` | MazeAndCell.py:238-242 | Success through any of the possible directions is success from the start cell. |
| `Solving.Solve` | MazeAndCell.py:217-244 | See the note below the table. |
| `Solving.FirstFoundShift` | MazeAndCell.py:238-242 | A first direction whose search found nothing and left the list as it was keeps a later direction the first to succeed. |
| `Solving.TryDirections` | MazeAndCell.py:238-244 | See the note below the table. |
| `Solving.RouteIsSimple` | MazeAndCell.py:229-242 | On a maze whose removed walls form no loop, a route the search records passes no cell twice. |
| `Solving.SolveFindsSimplePath` | MazeAndCell.py:217-244 | On a maze whose removed walls form a spanning tree, as `make_maze` leaves it, the cells a successful `solve` appends are at pairwise different positions. |
| `Solving.SolveMaze` | MazeAndCell.py:217-244 | `solve` on the maze starts from the maze's own solution list and stores the result back. Only the solution changes. `False` leaves the maze as it was, and `True` extends its solution by a route from the start to the destination. |

`Carving.MakeMaze` states the following:

- If the entry is off the grid, it fails with an index error.
- With the entry on the grid, the only way it can fail is the empty-stack pop.
- When it succeeds, only the cells change.
- Walls only come down.
- Symmetry and a closed border are kept.
- Started on a pristine grid, it always succeeds. The empty-stack pop never happens.
- On a pristine grid, the result is a spanning tree rooted at the entry, with no loop.
- On a pristine grid with more than one cell, every cell has lost a wall.

`Solving.Solve` states the following:

- Without fuel, it fails with a recursion error.
- If the start is off the grid, it fails with an index error.
- If the start is the destination, it appends exactly that cell and reports success.
- `False` leaves the solution unchanged.
- `True` extends the solution by a route from the start to the destination. The route:
  - is made of the grid's own cells;
  - goes through removed walls only;
  - never turns straight back;
  - does not begin by going back in the direction the search came from.
- With the border closed, it never fails with an index error.

`Solving.TryDirections` states the following:

- When no direction succeeds, the solution is unchanged.
- When one succeeds, the solution is extended by a route that starts from the neighbour
  in one of the given directions.
- The first success wins. The result is exactly the search through some direction `i`,
  and every direction before `i` was searched, found nothing and left the solution as it
  was.
- With the border closed and every given wall down, it never fails with an index error.

## Left out

- `write_svg` and `write_png` (MazeAndCell.py:61-171) are left out. They draw the maze
  into image files and are I/O.
- `main.py` is left out. It is a script that builds a 30 by 30 maze, solves it and
  writes the images.
- `random.choice` is replaced by the oracle `choose`. Python's generator itself is not
  modelled.
- `last_x` and `last_y` (MazeAndCell.py:52) are not modelled. The core computes them but
  never reads them.
- Mazes.LookUp: a negative coordinate is treated as off the grid, like one that is too
  large. Python would instead index from the end of the list and quietly return another
  cell. `CellAt`, `MakeMaze` and `Solve` share this simplification. None of them reaches
  a negative coordinate from an entry on the grid of a maze whose border is closed.
- Mazes.NewMaze: the model accepts `nx <= 0` or `ny <= 0` and builds an empty grid, as
  the code does. The code never rejects such sizes.
- Solving.Solve: does not state completeness. That would mean finding the destination
  whenever it can be reached. It also does not bound the fuel that is enough on a
  spanning tree. Both need an induction over the subtrees of the carved maze that is not
  done here. On a maze with loops the Python recursion can really run into its limit.
- Solving.Solve: when it fails, the contents of the solution list are not returned. The
  exception unwinds with some cells already appended, and nothing in the core catches
  it.
- Carving.MakeMaze: `n = nx * ny` and the counter `nv` are unbounded integers, matching
  Python's.
