/**
 * The passage graph of a maze: the cells of the grid are its vertices and
 * every knocked-down wall between two grid neighbours is an edge. Walks,
 * reachability, the edge set and its size, and the fact that a set of cells
 * closed under grid moves is the whole grid.
 */
module Passages {
  import opened Cells
  import opened Mazes

  /** The positions of the grid. */
  ghost function GridCells(m: Maze): (s: set<Coord>)
    ensures forall c :: c in s <==> InBounds(m, c)
  {
    set x, y | 0 <= x < m.nx && 0 <= y < m.ny :: Coord(x, y)
  }

  /** From `a` one can step in direction `d`: both cells are on the grid and the wall between them is down. */
  predicate Link(m: Maze, a: Coord, d: Dir)
    requires Shape(m)
  {
    InBounds(m, a) && InBounds(m, Move(a, d)) && !WallAt(m, a, d)
  }

  /** `b` is one open step away from `a`. */
  ghost predicate Joined(m: Maze, a: Coord, b: Coord)
    requires Shape(m)
  {
    exists d :: Link(m, a, d) && Move(a, d) == b
  }

  /** The `i`-th step of `p` is open. */
  ghost predicate StepOpen(m: Maze, p: seq<Coord>, i: nat)
    requires Shape(m) && i + 1 < |p|
  {
    Joined(m, p[i], p[i + 1])
  }

  /** A non-empty sequence of grid positions, each one open step from the one before. */
  ghost predicate Walk(m: Maze, p: seq<Coord>)
    requires Shape(m)
  {
    && |p| > 0
    && (forall i :: 0 <= i < |p| ==> InBounds(m, p[i]))
    && (forall i: nat :: i + 1 < |p| ==> StepOpen(m, p, i))
  }

  /** A walk leads from `a` to `b`. */
  ghost predicate Reachable(m: Maze, a: Coord, b: Coord)
    requires Shape(m)
  {
    exists p :: Walk(m, p) && p[0] == a && p[|p| - 1] == b
  }

  /**
   * The removed-wall graph: one edge, the unordered pair of cells it
   * separates, per knocked-down wall between grid neighbours.
   */
  ghost function OpenEdges(m: Maze): set<set<Coord>>
    requires Shape(m)
  {
    set c, d | c in GridCells(m) && Link(m, c, d) :: {c, Move(c, d)}
  }

  /** A step open before a wall is knocked down is open after. */
  lemma LinkAfterKnockDown(m: Maze, a: Coord, b: Coord, d: Dir, c: Coord, e: Dir)
    requires Shape(m) && InBounds(m, a) && InBounds(m, b)
    requires Link(m, c, e)
    ensures Link(KnockDownWall(m, a, b, d), c, e)
  {
  }

  /** Walks survive the removal of walls: every step open before is open after. */
  lemma WalkAfterKnockDown(m: Maze, a: Coord, b: Coord, d: Dir, p: seq<Coord>)
    requires Shape(m) && InBounds(m, a) && InBounds(m, b)
    requires Walk(m, p)
    ensures Walk(KnockDownWall(m, a, b, d), p)
  {
    var r := KnockDownWall(m, a, b, d);
    forall i: nat | i + 1 < |p|
      ensures StepOpen(r, p, i)
    {
      assert StepOpen(m, p, i);
      var e :| Link(m, p[i], e) && Move(p[i], e) == p[i + 1];
      LinkAfterKnockDown(m, a, b, d, p[i], e);
    }
  }

  /** A walk extended by one open step is a walk. */
  lemma WalkExtend(m: Maze, p: seq<Coord>, d: Dir)
    requires Shape(m) && Walk(m, p) && Link(m, p[|p| - 1], d)
    ensures Walk(m, p + [Move(p[|p| - 1], d)])
  {
    var q := p + [Move(p[|p| - 1], d)];
    forall i: nat | i + 1 < |q|
      ensures StepOpen(m, q, i)
    {
      if i == |p| - 1 {
        assert Link(m, q[i], d) && Move(q[i], d) == q[i + 1];
      } else {
        assert StepOpen(m, p, i);
        assert q[i] == p[i] && q[i + 1] == p[i + 1];
      }
    }
  }

  /** Two grid steps that separate the same pair of cells are the same wall, seen from one side or the other. */
  lemma SameEdgeSameWall(c: Coord, e: Dir, a: Coord, d: Dir)
    requires {c, Move(c, e)} == {a, Move(a, d)}
    ensures (c, e) == (a, d) || (c, e) == (Move(a, d), Opposite(d))
  {
    MoveInverse(a, d);
    MoveInverse(c, e);
    assert c in {a, Move(a, d)};
    if c == a {
      assert Move(c, e) in {a, Move(a, d)};
    } else {
      assert Move(c, e) in {a, Move(a, d)};
      MoveInverse(c, Opposite(d));
    }
  }

  /** A wall standing on both sides is no edge of the removed-wall graph. */
  lemma StandingWallIsNoEdge(m: Maze, a: Coord, d: Dir)
    requires Shape(m) && InBounds(m, a) && InBounds(m, Move(a, d))
    requires WallAt(m, a, d) && WallAt(m, Move(a, d), Opposite(d))
    ensures {a, Move(a, d)} !in OpenEdges(m)
  {
    if {a, Move(a, d)} in OpenEdges(m) {
      var c, e :| c in GridCells(m) && Link(m, c, e) && {c, Move(c, e)} == {a, Move(a, d)};
      SameEdgeSameWall(c, e, a, d);
      assert false;
    }
  }

  /**
   * Knocking down a wall between a cell and its grid neighbour adds exactly
   * the edge between them to the removed-wall graph.
   */
  lemma KnockDownEdges(m: Maze, a: Coord, d: Dir)
    requires Shape(m) && InBounds(m, a) && InBounds(m, Move(a, d))
    ensures OpenEdges(KnockDownWall(m, a, Move(a, d), d)) == OpenEdges(m) + {{a, Move(a, d)}}
  {
    var b := Move(a, d);
    var r := KnockDownWall(m, a, b, d);
    MoveInverse(a, d);
    forall c, e | c in GridCells(m) && Link(r, c, e)
      ensures {c, Move(c, e)} in OpenEdges(m) + {{a, b}}
    {
      if (c, e) == (a, d) {
      } else if (c, e) == (b, Opposite(d)) {
        assert {c, Move(c, e)} == {a, b};
      } else {
        assert Link(m, c, e);
      }
    }
    forall c, e | c in GridCells(m) && Link(m, c, e)
      ensures {c, Move(c, e)} in OpenEdges(r)
    {
      assert Link(r, c, e);
    }
    assert Link(r, a, d);
  }

  /**
   * Knocking down a wall that stood on both sides between a cell and its grid
   * neighbour grows the removed-wall graph by exactly one edge.
   */
  lemma KnockDownAddsEdge(m: Maze, a: Coord, d: Dir)
    requires Shape(m) && InBounds(m, a) && InBounds(m, Move(a, d))
    requires WallAt(m, a, d) && WallAt(m, Move(a, d), Opposite(d))
    ensures |OpenEdges(KnockDownWall(m, a, Move(a, d), d))| == |OpenEdges(m)| + 1
  {
    StandingWallIsNoEdge(m, a, d);
    KnockDownEdges(m, a, d);
  }

  /** A freshly walled grid has no edges. */
  lemma PristineHasNoEdges(m: Maze)
    requires Pristine(m)
    ensures OpenEdges(m) == {}
  {
    forall c, d | c in GridCells(m) && InBounds(m, c)
      ensures !Link(m, c, d)
    {
      assert CellAt(m, c).HasAllWalls();
    }
  }

  /** Walking straight from `a` to `b` along a row or column stays inside a move-closed set. */
  lemma {:induction false} StraightLineInClosedSet(m: Maze, cs: set<Coord>, a: Coord, b: Coord)
    requires InBounds(m, a) && InBounds(m, b) && a in cs
    requires a.x == b.x || a.y == b.y
    requires forall v, d :: v in cs && InBounds(m, Move(v, d)) ==> Move(v, d) in cs
    ensures b in cs
    decreases if a.x < b.x then b.x - a.x else a.x - b.x, if a.y < b.y then b.y - a.y else a.y - b.y
  {
    if a == b {
    } else {
      var d := if a.x < b.x then E else if a.x > b.x then W else if a.y < b.y then S else N;
      var a' := Move(a, d);
      assert InBounds(m, a');
      StraightLineInClosedSet(m, cs, a', b);
    }
  }

  /** A set of grid cells that contains a grid cell and is closed under moves is the whole grid. */
  lemma ClosedSetCoversGrid(m: Maze, cs: set<Coord>, s: Coord)
    requires InBounds(m, s) && s in cs
    requires forall v, d :: v in cs && InBounds(m, Move(v, d)) ==> Move(v, d) in cs
    ensures forall c :: InBounds(m, c) ==> c in cs
  {
    forall c | InBounds(m, c)
      ensures c in cs
    {
      var corner := Coord(c.x, s.y);
      StraightLineInClosedSet(m, cs, s, corner);
      StraightLineInClosedSet(m, cs, corner, c);
    }
  }

  /** The cells of column `x`. */
  ghost function Column(x: int, ny: nat): set<Coord> {
    set y | 0 <= y < ny :: Coord(x, y)
  }

  /** The cells of the first `nx` columns. */
  ghost function Block(nx: nat, ny: nat): set<Coord> {
    set x, y | 0 <= x < nx && 0 <= y < ny :: Coord(x, y)
  }

  lemma {:induction false} ColumnSize(x: int, ny: nat)
    ensures |Column(x, ny)| == ny
  {
    if ny > 0 {
      ColumnSize(x, ny - 1);
      assert Column(x, ny) == Column(x, ny - 1) + {Coord(x, ny - 1)};
    }
  }

  /** The first `nx` columns are the first `nx - 1` and, apart from them, column `nx - 1`. */
  lemma BlockSplit(nx: nat, ny: nat)
    requires nx > 0
    ensures Block(nx, ny) == Block(nx - 1, ny) + Column(nx - 1, ny)
    ensures Block(nx - 1, ny) * Column(nx - 1, ny) == {}
  {
  }

  lemma {:induction false} BlockSize(nx: nat, ny: nat)
    ensures |Block(nx, ny)| == nx * ny
  {
    if nx > 0 {
      BlockSize(nx - 1, ny);
      ColumnSize(nx - 1, ny);
      BlockSplit(nx, ny);
      assert nx * ny == (nx - 1) * ny + ny;
    }
  }

  /** A subset of a set with no more elements than the set is the whole set. */
  lemma SubsetOfSameSize<T>(a: set<T>, b: set<T>)
    requires a <= b && |b| <= |a|
    ensures a == b
  {
    assert b == a + (b - a);
    assert a * (b - a) == {};
  }

  /** The grid has `nx * ny` cells. */
  lemma GridSize(m: Maze)
    requires m.nx >= 0 && m.ny >= 0
    ensures |GridCells(m)| == m.nx * m.ny
  {
    BlockSize(m.nx, m.ny);
    assert GridCells(m) == Block(m.nx, m.ny);
  }
}
