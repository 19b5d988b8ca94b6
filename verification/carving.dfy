/**
 * `make_maze`: randomized depth-first carving with an explicit stack and a
 * count of visited cells. The random choice among the valid neighbours is
 * an oracle `choose`: the `k`-th carving step takes neighbour number
 * `choose(k) % |neighbours|`, so every property below holds for every
 * sequence of choices.
 */
module Carving {
  import opened Wrappers
  import opened Cells
  import opened Mazes
  import opened Passages
  import opened Trees

  /** Some grid neighbour of `v` is outside `visited`. */
  ghost predicate HasFreshNeighbour(m: Maze, visited: set<Coord>, v: Coord) {
    exists d :: InBounds(m, Move(v, d)) && Move(v, d) !in visited
  }

  /**
   * The removed walls form a spanning tree of the grid: walls are symmetric,
   * the border is closed, there are `nx * ny - 1` removed walls, every cell
   * can be reached from `root` through them and they form no loop.
   */
  ghost predicate SpanningTree(m: Maze, root: Coord) {
    && WallSymmetric(m)
    && BorderIntact(m)
    && |OpenEdges(m)| == m.nx * m.ny - 1
    && (forall c :: InBounds(m, c) ==> Reachable(m, root, c))
    && Acyclic(m)
  }

  /** The visited cells lie on the grid, include the start, the current cell and the stack, and number `nv`. */
  ghost predicate Bookkeeping(g: Maze, start: Coord, visited: set<Coord>, current: Coord, stack: seq<Coord>, nv: int) {
    && InBounds(g, start) && start in visited && current in visited
    && (forall v :: v in visited ==> InBounds(g, v))
    && (forall i :: 0 <= i < |stack| ==> stack[i] in visited)
    && |visited| == nv
    && |stack| < nv
    && (nv == 1 ==> current == start)
  }

  /**
   * `has_all_walls` tells the visited cells apart: an unvisited cell has all
   * its walls, a visited cell other than the start has lost one, and so has
   * the start once a second cell has been visited.
   */
  ghost predicate VisitedMarks(g: Maze, start: Coord, visited: set<Coord>, nv: int)
    requires Shape(g)
  {
    && (forall c :: InBounds(g, c) && c !in visited ==> CellAt(g, c).HasAllWalls())
    && (forall v :: InBounds(g, v) && v in visited && v != start ==> !CellAt(g, v).HasAllWalls())
    && (nv > 1 && InBounds(g, start) ==> !CellAt(g, start).HasAllWalls())
  }

  /** The removed walls form a tree over the visited cells: `nv - 1` edges, every visited cell reachable from the start. */
  ghost predicate TreeSoFar(g: Maze, start: Coord, visited: set<Coord>, nv: int)
    requires Shape(g)
  {
    && |OpenEdges(g)| == nv - 1
    && (forall v :: v in visited ==> Reachable(g, start, v))
  }

  /** Every visited cell that still borders an unvisited one is the current cell or on the stack. */
  ghost predicate Frontier(g: Maze, visited: set<Coord>, current: Coord, stack: seq<Coord>) {
    forall v :: v in visited && HasFreshNeighbour(g, visited, v) ==> v == current || v in stack
  }

  /** The state of the carving loop started on a pristine grid. */
  ghost predicate CarveInv(g: Maze, start: Coord, visited: set<Coord>, current: Coord, stack: seq<Coord>, nv: int) {
    && WallSymmetric(g)
    && BorderIntact(g)
    && Bookkeeping(g, start, visited, current, stack, nv)
    && VisitedMarks(g, start, visited, nv)
    && TreeSoFar(g, start, visited, nv)
    && Frontier(g, visited, current, stack)
  }

  /** Before the first iteration, on a pristine grid. */
  lemma CarveInvInit(m: Maze, start: Coord)
    requires Pristine(m) && InBounds(m, start)
    ensures CarveInv(m, start, {start}, start, [], 1)
  {
    PristineHasNoEdges(m);
    assert Walk(m, [start]);
  }

  /** The cell carved into is not yet visited. */
  lemma NeighbourIsUnvisited(g: Maze, start: Coord, visited: set<Coord>, current: Coord, stack: seq<Coord>, nv: int, d: Dir)
    requires Shape(g) && Bookkeeping(g, start, visited, current, stack, nv)
    requires VisitedMarks(g, start, visited, nv)
    requires IsValidNeighbour(g, current, d)
    ensures Move(current, d) !in visited
  {
    MoveInverse(current, d);
  }

  /** After a carving step the walls still tell the visited cells apart. */
  lemma CarveStepMarks(g: Maze, start: Coord, visited: set<Coord>, current: Coord, nv: int, d: Dir)
    requires Shape(g) && InBounds(g, current) && InBounds(g, Move(current, d)) && InBounds(g, start)
    requires current in visited && Move(current, d) !in visited
    requires nv >= 1 && (nv == 1 ==> current == start)
    requires VisitedMarks(g, start, visited, nv)
    ensures VisitedMarks(KnockDownWall(g, current, Move(current, d), d), start, visited + {Move(current, d)}, nv + 1)
  {
    var next := Move(current, d);
    var g' := KnockDownWall(g, current, next, d);
    var visited' := visited + {next};
    forall c | InBounds(g', c) && c !in visited'
      ensures CellAt(g', c).HasAllWalls()
    {
      assert CellAt(g, c).HasAllWalls();
      forall e ensures WallAt(g', c, e) == WallAt(g, c, e) {
      }
    }
    forall v | InBounds(g', v) && v in visited' && v != start
      ensures !CellAt(g', v).HasAllWalls()
    {
      if v == next {
        assert !WallAt(g', next, Opposite(d));
      } else {
        var e :| !WallAt(g, v, e);
        assert !WallAt(g', v, e);
      }
    }
    if nv == 1 {
      assert !WallAt(g', current, d);
    } else {
      assert !CellAt(g, start).HasAllWalls();
      var e :| !WallAt(g, start, e);
      assert !WallAt(g', start, e);
    }
  }

  /** The newly reached cell and all earlier ones stay reachable once the wall is down. */
  lemma CarveStepReachable(g: Maze, start: Coord, visited: set<Coord>, current: Coord, d: Dir)
    requires Shape(g) && InBounds(g, current) && InBounds(g, Move(current, d))
    requires current in visited
    requires forall v :: v in visited ==> Reachable(g, start, v)
    ensures forall v :: v in visited + {Move(current, d)} ==>
              Reachable(KnockDownWall(g, current, Move(current, d), d), start, v)
  {
    var next := Move(current, d);
    var g' := KnockDownWall(g, current, next, d);
    forall v | v in visited
      ensures Reachable(g', start, v)
    {
      var p :| Walk(g, p) && p[0] == start && p[|p| - 1] == v;
      WalkAfterKnockDown(g, current, next, d, p);
    }
    var p :| Walk(g, p) && p[0] == start && p[|p| - 1] == current;
    WalkAfterKnockDown(g, current, next, d, p);
    assert Link(g', current, d);
    WalkExtend(g', p, d);
    var q := p + [next];
    assert Walk(g', q) && q[0] == start && q[|q| - 1] == next;
  }

  /** After a carving step the removed walls still form a tree over the visited cells. */
  lemma CarveStepTree(g: Maze, start: Coord, visited: set<Coord>, current: Coord, nv: int, d: Dir)
    requires WallSymmetric(g) && InBounds(g, current) && InBounds(g, Move(current, d))
    requires current in visited
    requires CellAt(g, Move(current, d)).HasAllWalls()
    requires TreeSoFar(g, start, visited, nv)
    ensures TreeSoFar(KnockDownWall(g, current, Move(current, d), d), start, visited + {Move(current, d)}, nv + 1)
  {
    assert WallAt(g, Move(current, d), Opposite(d));
    assert WallAt(g, current, d);
    KnockDownAddsEdge(g, current, d);
    CarveStepReachable(g, start, visited, current, d);
  }

  /** After a carving step every visited cell with an unvisited neighbour is the current cell or on the stack. */
  lemma CarveStepFrontier(g: Maze, g': Maze, visited: set<Coord>, current: Coord, stack: seq<Coord>, next: Coord)
    requires g'.nx == g.nx && g'.ny == g.ny
    requires Frontier(g, visited, current, stack)
    ensures Frontier(g', visited + {next}, next, stack + [current])
  {
    forall v | v in visited + {next} && HasFreshNeighbour(g', visited + {next}, v)
      ensures v == next || v in stack + [current]
    {
      if v != next {
        var e :| InBounds(g', Move(v, e)) && Move(v, e) !in visited + {next};
        assert HasFreshNeighbour(g, visited, v);
      }
    }
  }

  /** After a carving step the bookkeeping of visited cells, stack and count still agrees. */
  lemma CarveStepBookkeeping(g: Maze, g': Maze, start: Coord, visited: set<Coord>, current: Coord, stack: seq<Coord>, nv: int, next: Coord)
    requires g'.nx == g.nx && g'.ny == g.ny
    requires Bookkeeping(g, start, visited, current, stack, nv)
    requires InBounds(g, next) && next !in visited
    ensures Bookkeeping(g', start, visited + {next}, next, stack + [current], nv + 1)
  {
    var stack' := stack + [current];
    forall i | 0 <= i < |stack'|
      ensures stack'[i] in visited + {next}
    {
      if i < |stack| {
        assert stack'[i] == stack[i];
      }
    }
  }

  /** One carving step keeps the invariant. */
  lemma CarveStep(g: Maze, start: Coord, visited: set<Coord>, current: Coord, stack: seq<Coord>, nv: int, d: Dir)
    requires CarveInv(g, start, visited, current, stack, nv)
    requires IsValidNeighbour(g, current, d)
    ensures CarveInv(KnockDownWall(g, current, Move(current, d), d), start, visited + {Move(current, d)},
                     Move(current, d), stack + [current], nv + 1)
  {
    var next := Move(current, d);
    var g' := KnockDownWall(g, current, next, d);
    NeighbourIsUnvisited(g, start, visited, current, stack, nv, d);
    KnockDownKeepsWalls(g, current, d);
    CarveStepMarks(g, start, visited, current, nv, d);
    CarveStepTree(g, start, visited, current, nv, d);
    CarveStepFrontier(g, g', visited, current, stack, next);
    CarveStepBookkeeping(g, g', start, visited, current, stack, nv, next);
  }

  /** At a dead end the current cell has no unvisited neighbour. */
  lemma DeadEndIsClosed(g: Maze, start: Coord, visited: set<Coord>, current: Coord, stack: seq<Coord>, nv: int)
    requires CarveInv(g, start, visited, current, stack, nv)
    requires |FindValidNeighbours(g, current)| == 0
    ensures !HasFreshNeighbour(g, visited, current)
  {
    if HasFreshNeighbour(g, visited, current) {
      var d :| InBounds(g, Move(current, d)) && Move(current, d) !in visited;
      assert IsValidNeighbour(g, current, d);
      assert false;
    }
  }

  /** Popping the stack keeps the bookkeeping. */
  lemma PopBookkeeping(g: Maze, start: Coord, visited: set<Coord>, current: Coord, stack: seq<Coord>, nv: int)
    requires Bookkeeping(g, start, visited, current, stack, nv) && |stack| > 0
    ensures Bookkeeping(g, start, visited, stack[|stack| - 1], stack[..|stack| - 1], nv)
  {
    var stack' := stack[..|stack| - 1];
    forall i | 0 <= i < |stack'|
      ensures stack'[i] in visited
    {
      assert stack'[i] == stack[i];
    }
  }

  /** Popping the stack at a closed current cell keeps the frontier on the stack. */
  lemma PopFrontier(g: Maze, visited: set<Coord>, current: Coord, stack: seq<Coord>)
    requires Frontier(g, visited, current, stack) && |stack| > 0
    requires !HasFreshNeighbour(g, visited, current)
    ensures Frontier(g, visited, stack[|stack| - 1], stack[..|stack| - 1])
  {
    var stack' := stack[..|stack| - 1];
    forall v | v in visited && HasFreshNeighbour(g, visited, v)
      ensures v == stack[|stack| - 1] || v in stack'
    {
      assert v in stack;
      var i :| 0 <= i < |stack| && stack[i] == v;
      if i < |stack| - 1 {
        assert stack'[i] == v;
      }
    }
  }

  /** Backtracking at a dead end keeps the invariant. */
  lemma Backtrack(g: Maze, start: Coord, visited: set<Coord>, current: Coord, stack: seq<Coord>, nv: int)
    requires CarveInv(g, start, visited, current, stack, nv)
    requires |FindValidNeighbours(g, current)| == 0 && |stack| > 0
    ensures CarveInv(g, start, visited, stack[|stack| - 1], stack[..|stack| - 1], nv)
  {
    DeadEndIsClosed(g, start, visited, current, stack, nv);
    PopBookkeeping(g, start, visited, current, stack, nv);
    PopFrontier(g, visited, current, stack);
  }

  /** With an empty stack and a closed current cell no visited cell has an unvisited neighbour. */
  lemma FrontierGoneIsClosed(g: Maze, visited: set<Coord>, current: Coord)
    requires Frontier(g, visited, current, []) && !HasFreshNeighbour(g, visited, current)
    ensures forall v, d :: v in visited && InBounds(g, Move(v, d)) ==> Move(v, d) in visited
  {
    forall v, d | v in visited && InBounds(g, Move(v, d))
      ensures Move(v, d) in visited
    {
      if Move(v, d) !in visited {
        assert HasFreshNeighbour(g, visited, v);
      }
    }
  }

  /**
   * A dead end with an empty stack means every cell has been visited: the
   * visited cells are closed under grid moves, hence the whole grid.
   */
  lemma DeadEndWithEmptyStack(g: Maze, start: Coord, visited: set<Coord>, current: Coord, nv: int)
    requires CarveInv(g, start, visited, current, [], nv)
    requires |FindValidNeighbours(g, current)| == 0
    ensures nv == g.nx * g.ny
  {
    DeadEndIsClosed(g, start, visited, current, [], nv);
    FrontierGoneIsClosed(g, visited, current);
    ClosedSetCoversGrid(g, visited, start);
    assert visited == GridCells(g);
    GridSize(g);
  }

  /**
   * The carving loop's depth labels: every visited cell has one, and they
   * layer the removed walls. A cell carved into is one deeper than the cell
   * it was carved from.
   */
  ghost predicate Layers(g: Maze, visited: set<Coord>, dep: map<Coord, nat>)
    requires Shape(g)
  {
    visited <= dep.Keys && LayeredBy(g, dep)
  }

  /** The labels after carving from `current` into `next`: `next` is one deeper than `current`. */
  ghost function Deepen(dep: map<Coord, nat>, current: Coord, next: Coord): (r: map<Coord, nat>)
    ensures r.Keys == dep.Keys + {next}
    ensures current in dep && current != next ==> r[next] == dep[current] + 1 && r[current] == dep[current]
    ensures forall c :: c in dep && c != next ==> r[c] == dep[c]
  {
    dep[next := (if current in dep then dep[current] else 0) + 1]
  }

  /** No removed wall touches a cell that still has all its walls. */
  lemma NoLinkAtClosedCell(g: Maze, b: Coord)
    requires WallSymmetric(g) && InBounds(g, b) && CellAt(g, b).HasAllWalls()
    ensures forall a, e :: Link(g, a, e) ==> a != b && Move(a, e) != b
  {
    forall a, e | Link(g, a, e)
      ensures a != b && Move(a, e) != b
    {
      assert WallAt(g, a, e) == WallAt(g, Move(a, e), Opposite(e));
    }
  }

  /** The removed walls after knocking one down: those before and the two sides of the new one. */
  lemma LinksAfterKnockDown(g: Maze, a: Coord, d: Dir)
    requires Shape(g) && InBounds(g, a) && InBounds(g, Move(a, d))
    ensures forall c, e :: Link(KnockDownWall(g, a, Move(a, d), d), c, e) ==>
              Link(g, c, e) || (c, e) == (a, d) || (c, e) == (Move(a, d), Opposite(d))
  {
  }

  /**
   * After carving from `current` into the closed cell in direction `d`, a
   * removed wall that leads from a cell to a shallower one is the new wall
   * seen from the new cell, or an old removed wall away from the new cell.
   */
  lemma CarveStepDownward(g: Maze, dep: map<Coord, nat>, current: Coord, d: Dir)
    requires WallSymmetric(g) && InBounds(g, current) && InBounds(g, Move(current, d))
    requires CellAt(g, Move(current, d)).HasAllWalls() && current in dep
    ensures var next := Move(current, d);
            var g' := KnockDownWall(g, current, next, d);
            var dep' := Deepen(dep, current, next);
            forall a, e :: Link(g', a, e) && a in dep' && Move(a, e) in dep' && dep'[Move(a, e)] < dep'[a] ==>
              (a, e) == (next, Opposite(d)) || (Link(g, a, e) && a != next && Move(a, e) != next)
  {
    MoveInverse(current, d);
    NoLinkAtClosedCell(g, Move(current, d));
    LinksAfterKnockDown(g, current, d);
  }

  /** Carving from `current` into its closed neighbour, one level deeper, keeps the layering. */
  lemma CarveStepLayers(g: Maze, visited: set<Coord>, dep: map<Coord, nat>, current: Coord, d: Dir)
    requires WallSymmetric(g) && InBounds(g, current) && InBounds(g, Move(current, d))
    requires current in visited && CellAt(g, Move(current, d)).HasAllWalls()
    requires Layers(g, visited, dep)
    ensures Layers(KnockDownWall(g, current, Move(current, d), d), visited + {Move(current, d)},
                   Deepen(dep, current, Move(current, d)))
  {
    var next := Move(current, d);
    var g' := KnockDownWall(g, current, next, d);
    var dep' := Deepen(dep, current, next);
    MoveInverse(current, d);
    NoLinkAtClosedCell(g, next);
    LinksAfterKnockDown(g, current, d);
    forall a, e | Link(g', a, e)
      ensures a in dep' && Move(a, e) in dep' && dep'[a] != dep'[Move(a, e)]
    {
      if (a, e) != (current, d) && (a, e) != (next, Opposite(d)) {
        assert Link(g, a, e);
      }
    }
    CarveStepDownward(g, dep, current, d);
  }

  /** When the count reaches `nx * ny` every cell is visited and the removed walls span the grid. */
  lemma CarvingDone(g: Maze, start: Coord, visited: set<Coord>, current: Coord, stack: seq<Coord>, nv: int,
                     dep: map<Coord, nat>)
    requires CarveInv(g, start, visited, current, stack, nv) && Layers(g, visited, dep)
    requires nv >= g.nx * g.ny
    ensures nv == g.nx * g.ny
    ensures visited == GridCells(g)
    ensures SpanningTree(g, start)
  {
    LayeredIsAcyclic(g, dep);
    GridSize(g);
    SubsetOfSameSize(visited, GridCells(g));
  }

  /** The walls of `g` come from those of `m` by knocking some down, keeping symmetry and the border. */
  ghost predicate Carved(m: Maze, g: Maze)
    requires Shape(m)
  {
    && Shape(g) && g == m.(cells := g.cells)
    && (forall c, d :: InBounds(m, c) && !WallAt(m, c, d) ==> !WallAt(g, c, d))
    && (WallSymmetric(m) ==> WallSymmetric(g))
    && (BorderIntact(m) ==> BorderIntact(g))
  }

  /** Knocking down one more wall between grid neighbours keeps `Carved`. */
  lemma CarvedStep(m: Maze, g: Maze, a: Coord, d: Dir)
    requires Shape(m) && Carved(m, g) && InBounds(g, a) && InBounds(g, Move(a, d))
    ensures Carved(m, KnockDownWall(g, a, Move(a, d), d))
  {
    StillLowered(m, g, a, d);
    if WallSymmetric(m) {
      KnockDownKeepsSymmetry(g, a, d);
    }
    if BorderIntact(m) {
      KnockDownKeepsBorder(g, a, d);
    }
  }

  /** A wall down in `m` and so in `g` stays down after one more wall of `g` is knocked down. */
  lemma StillLowered(m: Maze, g: Maze, a: Coord, d: Dir)
    requires Shape(m) && Shape(g) && g.nx == m.nx && g.ny == m.ny && InBounds(g, a) && InBounds(g, Move(a, d))
    requires forall c, e :: InBounds(m, c) && !WallAt(m, c, e) ==> !WallAt(g, c, e)
    ensures forall c, e :: InBounds(m, c) && !WallAt(m, c, e) ==> !WallAt(KnockDownWall(g, a, Move(a, d), d), c, e)
  {
    var g' := KnockDownWall(g, a, Move(a, d), d);
    forall c, e | InBounds(m, c) && !WallAt(m, c, e)
      ensures !WallAt(g', c, e)
    {
      assert !WallAt(g, c, e);
    }
  }

  /**
   * The state of the carving loop of `make_maze` on `m`: the grid so far is
   * `g`, and when `m` was pristine the full carving invariant holds.
   */
  ghost predicate LoopState(m: Maze, g: Maze, start: Coord, visited: set<Coord>, current: Coord, stack: seq<Coord>, nv: int,
                            dep: map<Coord, nat>)
    requires Shape(m)
  {
    && Carved(m, g)
    && InBounds(g, current)
    && (forall i :: 0 <= i < |stack| ==> InBounds(g, stack[i]))
    && 1 <= nv
    && (Pristine(m) ==> CarveInv(g, start, visited, current, stack, nv) && Layers(g, visited, dep))
  }

  /** The loop state holds when the loop is first reached. */
  lemma LoopInit(m: Maze, start: Coord)
    requires Shape(m) && InBounds(m, start)
    ensures LoopState(m, m, start, {start}, start, [], 1, map[start := 0])
  {
    if Pristine(m) {
      CarveInvInit(m, start);
      PristineIsLayered(m, map[start := 0]);
    }
  }

  /** Carving into a valid neighbour keeps the loop state. */
  lemma LoopCarve(m: Maze, g: Maze, start: Coord, visited: set<Coord>, current: Coord, stack: seq<Coord>, nv: int,
                   dep: map<Coord, nat>, d: Dir)
    requires Shape(m) && LoopState(m, g, start, visited, current, stack, nv, dep)
    requires IsValidNeighbour(g, current, d)
    ensures LoopState(m, KnockDownWall(g, current, Move(current, d), d), start, visited + {Move(current, d)},
                      Move(current, d), stack + [current], nv + 1, Deepen(dep, current, Move(current, d)))
  {
    var next := Move(current, d);
    var g' := KnockDownWall(g, current, next, d);
    CarvedStep(m, g, current, d);
    assert g'.nx == g.nx && g'.ny == g.ny;
    var stack' := stack + [current];
    assert forall i :: 0 <= i < |stack'| ==> InBounds(g', stack'[i]) by {
      forall i | 0 <= i < |stack'|
        ensures InBounds(g', stack'[i])
      {
        if i < |stack| {
          assert stack'[i] == stack[i];
        }
      }
    }
    if Pristine(m) {
      CarveStep(g, start, visited, current, stack, nv, d);
      CarveStepLayers(g, visited, dep, current, d);
    }
  }

  /** Backtracking from a dead end keeps the loop state. */
  lemma LoopBacktrack(m: Maze, g: Maze, start: Coord, visited: set<Coord>, current: Coord, stack: seq<Coord>, nv: int,
                       dep: map<Coord, nat>)
    requires Shape(m) && LoopState(m, g, start, visited, current, stack, nv, dep)
    requires |FindValidNeighbours(g, current)| == 0 && |stack| > 0
    ensures LoopState(m, g, start, visited, stack[|stack| - 1], stack[..|stack| - 1], nv, dep)
  {
    if Pristine(m) {
      Backtrack(g, start, visited, current, stack, nv);
    }
  }

  /** A dead end with an empty stack before every cell is counted cannot happen on a pristine grid. */
  lemma LoopStuck(m: Maze, g: Maze, start: Coord, visited: set<Coord>, current: Coord, nv: int, dep: map<Coord, nat>)
    requires Shape(m) && LoopState(m, g, start, visited, current, [], nv, dep)
    requires |FindValidNeighbours(g, current)| == 0 && nv < m.nx * m.ny
    ensures !Pristine(m)
  {
    if Pristine(m) {
      DeadEndWithEmptyStack(g, start, visited, current, nv);
    }
  }

  /** When the loop ends on a pristine grid the removed walls span the grid. */
  lemma LoopDone(m: Maze, g: Maze, start: Coord, visited: set<Coord>, current: Coord, stack: seq<Coord>, nv: int,
                  dep: map<Coord, nat>)
    requires Shape(m) && LoopState(m, g, start, visited, current, stack, nv, dep)
    requires nv >= m.nx * m.ny
    ensures Pristine(m) ==> SpanningTree(g, start)
    ensures Pristine(m) && m.nx * m.ny > 1 ==> forall c :: InBounds(m, c) ==> !CellAt(g, c).HasAllWalls()
  {
    if Pristine(m) {
      CarvingDone(g, start, visited, current, stack, nv, dep);
      assert forall c :: InBounds(m, c) ==> c in visited;
    }
  }

  /**
   * `make_maze`. The entry cell must be on the grid (the lookup of the start
   * cell fails otherwise) and backtracking past the first cell fails as an
   * empty-stack pop. Walls only come down, symmetrically and never on the
   * border. Started on a pristine grid it always succeeds, visits every cell
   * and leaves a spanning tree of `nx * ny - 1` removed walls.
   */
  method MakeMaze(m: Maze, choose: nat -> nat) returns (r: Result<Maze, MazeError>)
    requires Shape(m)
    ensures !InBounds(m, Entry(m)) ==> r == Failure(OutOfBounds)
    ensures InBounds(m, Entry(m)) && r.Failure? ==> r.error == EmptyStackPop
    ensures r.Success? ==> Shape(r.value) && r.value == m.(cells := r.value.cells)
    ensures r.Success? ==> forall c, d :: InBounds(m, c) && !WallAt(m, c, d) ==> !WallAt(r.value, c, d)
    ensures r.Success? && WallSymmetric(m) ==> WallSymmetric(r.value)
    ensures r.Success? && BorderIntact(m) ==> BorderIntact(r.value)
    ensures Pristine(m) && InBounds(m, Entry(m)) ==> r.Success? && SpanningTree(r.value, Entry(m))
    ensures Pristine(m) && InBounds(m, Entry(m)) && m.nx * m.ny > 1 ==>
              forall c :: InBounds(m, c) ==> !CellAt(r.value, c).HasAllWalls()
  {
    var n := m.nx * m.ny;
    var start := Entry(m);
    if !InBounds(m, start) {
      return Failure(OutOfBounds);
    }
    var g := m;
    var stack: seq<Coord> := [];
    var current := start;
    var nv := 1;
    ghost var visited: set<Coord> := {start};
    ghost var dep: map<Coord, nat> := map[start := 0];
    LoopInit(m, start);
    while nv < n
      invariant LoopState(m, g, start, visited, current, stack, nv, dep)
      decreases n - nv, |stack|
    {
      var neighbours := FindValidNeighbours(g, current);
      if |neighbours| == 0 {
        // A dead end: backtrack.
        if |stack| == 0 {
          LoopStuck(m, g, start, visited, current, nv, dep);
          return Failure(EmptyStackPop);
        }
        LoopBacktrack(m, g, start, visited, current, stack, nv, dep);
        current := stack[|stack| - 1];
        stack := stack[..|stack| - 1];
        continue;
      }
      var (direction, nextCell) := neighbours[choose(nv - 1) % |neighbours|];
      var next := Pos(nextCell);
      assert next == Move(current, direction);
      LoopCarve(m, g, start, visited, current, stack, nv, dep, direction);
      g := KnockDownWall(g, current, next, direction);
      stack := stack + [current];
      dep := Deepen(dep, current, next);
      current := next;
      nv := nv + 1;
      visited := visited + {next};
    }
    LoopDone(m, g, start, visited, current, stack, nv, dep);
    return Success(g);
  }
}
