/**
 * Why a carved maze has no loops. Label every cell touched by a removed wall
 * with a depth so that the two sides of a removed wall have different depths
 * and no cell has two shallower neighbours through removed walls. Then a walk
 * that comes back to a cell must turn straight back somewhere: at its
 * deepest cell both neighbours are shallower, hence the same cell.
 */
module Trees {
  import opened Cells
  import opened Mazes
  import opened Passages

  /** The walk `p` does not turn straight back at its `i+1`-th cell. */
  ghost predicate NoReversalAt(p: seq<Coord>, i: nat)
    requires i + 2 < |p|
  {
    p[i + 2] != p[i]
  }

  /** The walk `p` never turns straight back. */
  ghost predicate NoReversal(p: seq<Coord>) {
    forall i: nat :: i + 2 < |p| ==> NoReversalAt(p, i)
  }

  /** No position occurs twice in `p`. */
  ghost predicate Distinct(p: seq<Coord>) {
    forall i, j :: 0 <= i < j < |p| ==> p[i] != p[j]
  }

  /** The removed walls form no loop: a walk through them that never turns straight back visits no cell twice. */
  ghost predicate Acyclic(m: Maze)
    requires Shape(m)
  {
    forall p {:trigger Distinct(p)} :: Walk(m, p) && NoReversal(p) ==> Distinct(p)
  }

  /**
   * `dep` labels the removed-wall graph in layers: both ends of a removed
   * wall carry depths and the depths differ, and of the cells one open step
   * from any cell at most one is shallower than it.
   */
  ghost predicate LayeredBy(m: Maze, dep: map<Coord, nat>)
    requires Shape(m)
  {
    && (forall a, d :: Link(m, a, d) ==> a in dep && Move(a, d) in dep && dep[a] != dep[Move(a, d)])
    && (forall a, d, e ::
          (Link(m, a, d) && Link(m, a, e) && a in dep && Move(a, d) in dep && Move(a, e) in dep &&
           dep[Move(a, d)] < dep[a] && dep[Move(a, e)] < dep[a]) ==> d == e)
  }

  /** The index of a deepest position of `q`. */
  ghost function Deepest(dep: map<Coord, nat>, q: seq<Coord>): (k: nat)
    requires |q| > 0 && forall i :: 0 <= i < |q| ==> q[i] in dep
    ensures k < |q| && forall i :: 0 <= i < |q| ==> dep[q[i]] <= dep[q[k]]
    decreases |q|
  {
    if |q| == 1 then 0
    else
      var k := Deepest(dep, q[..|q| - 1]);
      if dep[q[|q| - 1]] > dep[q[k]] then |q| - 1 else k
  }

  /** Every position of a walk except possibly a lone one is an end of a removed wall, so it has a depth. */
  lemma WalkIsLayered(m: Maze, dep: map<Coord, nat>, p: seq<Coord>)
    requires Shape(m) && LayeredBy(m, dep) && Walk(m, p) && |p| > 1
    ensures forall i :: 0 <= i < |p| ==> p[i] in dep
  {
    forall i | 0 <= i < |p|
      ensures p[i] in dep
    {
      if i + 1 < |p| {
        assert StepOpen(m, p, i);
      } else {
        assert StepOpen(m, p, i - 1);
      }
    }
  }

  /** Two cells one open step from `a` on either side, neither deeper than `a`, are the same cell. */
  lemma ShallowerNeighboursMeet(m: Maze, dep: map<Coord, nat>, a: Coord, b: Coord, c: Coord)
    requires WallSymmetric(m) && LayeredBy(m, dep)
    requires Joined(m, b, a) && Joined(m, a, c)
    requires a in dep && b in dep && c in dep && dep[b] <= dep[a] && dep[c] <= dep[a]
    ensures b == c
  {
    var e :| Link(m, b, e) && Move(b, e) == a;
    var d :| Link(m, a, d) && Move(a, d) == c;
    MoveInverse(b, e);
    assert WallAt(m, b, e) == WallAt(m, Move(b, e), Opposite(e));
    assert Link(m, a, Opposite(e));
  }

  /** A piece of a walk is a walk. */
  lemma WalkSlice(m: Maze, p: seq<Coord>, i: nat, j: nat)
    requires Shape(m) && Walk(m, p) && i < j <= |p|
    ensures Walk(m, p[i..j])
  {
    var q := p[i..j];
    forall k: nat | k + 1 < |q|
      ensures StepOpen(m, q, k)
    {
      assert StepOpen(m, p, i + k);
    }
  }

  /** Every step of a walk moves to another cell. */
  lemma WalkStepMoves(m: Maze, p: seq<Coord>, i: nat)
    requires Shape(m) && Walk(m, p) && i + 1 < |p|
    ensures p[i] != p[i + 1]
  {
    assert StepOpen(m, p, i);
    var d :| Link(m, p[i], d) && Move(p[i], d) == p[i + 1];
    MoveInverse(p[i], d);
  }

  /**
   * A closed walk of at least two steps in a layered maze turns straight
   * back somewhere. At a deepest cell of the loop the walk arrives from and
   * leaves to shallower cells, which are then the same cell; when that
   * deepest cell is where the loop closes, the walk without its two ends is
   * a shorter loop.
   */
  lemma {:induction false} ClosedWalkTurnsBack(m: Maze, dep: map<Coord, nat>, q: seq<Coord>)
    requires WallSymmetric(m) && LayeredBy(m, dep)
    requires Walk(m, q) && |q| >= 3 && q[0] == q[|q| - 1]
    ensures exists i: nat :: i + 2 < |q| && q[i + 2] == q[i]
    decreases |q|
  {
    var n := |q| - 1;
    WalkIsLayered(m, dep, q);
    if n == 2 {
      assert q[0 + 2] == q[0];
    } else {
      var k := Deepest(dep, q[..n]);
      assert q[..n][k] == q[k];
      var prev := if k == 0 then q[n - 1] else q[k - 1];
      assert dep[prev] <= dep[q[k]] by {
        if k == 0 {
          assert q[..n][n - 1] == q[n - 1];
        } else {
          assert q[..n][k - 1] == q[k - 1];
        }
      }
      assert dep[q[k + 1]] <= dep[q[k]] by {
        if k + 1 < n {
          assert q[..n][k + 1] == q[k + 1];
        } else {
          assert q[..n][0] == q[k + 1];
        }
      }
      assert StepOpen(m, q, k);
      if k == 0 {
        assert StepOpen(m, q, n - 1);
      } else {
        assert StepOpen(m, q, k - 1);
      }
      ShallowerNeighboursMeet(m, dep, q[k], prev, q[k + 1]);
      if k > 0 {
        assert q[(k - 1) + 2] == q[k - 1];
      } else if n == 3 {
        WalkStepMoves(m, q, 1);
      } else {
        var q' := q[1..n];
        WalkSlice(m, q, 1, n);
        ClosedWalkTurnsBack(m, dep, q');
        var i: nat :| i + 2 < |q'| && q'[i + 2] == q'[i];
        assert q[(i + 1) + 2] == q[i + 1];
      }
    }
  }

  /** A walk that returns to a cell after two or more steps turns straight back somewhere. */
  lemma ReturnTurnsBack(m: Maze, dep: map<Coord, nat>, p: seq<Coord>, i: nat, j: nat)
    requires WallSymmetric(m) && LayeredBy(m, dep) && Walk(m, p)
    requires i + 2 <= j < |p| && p[i] == p[j]
    ensures !NoReversal(p)
  {
    var q := p[i..j + 1];
    WalkSlice(m, p, i, j + 1);
    ClosedWalkTurnsBack(m, dep, q);
    var k: nat :| k + 2 < |q| && q[k + 2] == q[k];
    assert !NoReversalAt(p, i + k);
  }

  /** A wall-symmetric maze whose removed walls can be layered has no loop. */
  lemma LayeredIsAcyclic(m: Maze, dep: map<Coord, nat>)
    requires WallSymmetric(m) && LayeredBy(m, dep)
    ensures Acyclic(m)
  {
    forall p | Walk(m, p) && NoReversal(p)
      ensures Distinct(p)
    {
      forall i, j | 0 <= i < j < |p|
        ensures p[i] != p[j]
      {
        if p[i] == p[j] {
          if j == i + 1 {
            WalkStepMoves(m, p, i);
          } else {
            ReturnTurnsBack(m, dep, p, i, j);
          }
        }
      }
    }
  }

  /** With all walls standing there is nothing to layer. */
  lemma PristineIsLayered(m: Maze, dep: map<Coord, nat>)
    requires Pristine(m)
    ensures LayeredBy(m, dep)
  {
    forall a, d
      ensures !Link(m, a, d)
    {
      if InBounds(m, a) {
        assert CellAt(m, a).HasAllWalls();
      }
    }
  }
}
