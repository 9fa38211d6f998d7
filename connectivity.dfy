/**
  4-connectivity of occupied cells: paths, reachability, and the connected
  component (cluster) of a seed cell, with the facts the flood fill and the
  whole-grid scan rely on.
 */
module Connectivity {
  import opened Lattice

  /** A non-empty walk over occupied cells, each step to a 4-neighbour. */
  ghost predicate IsPath(g: array2<Byte>, p: seq<Cell>)
    reads g
  {
    && |p| > 0
    && (forall k :: 0 <= k < |p| ==> Open(g, p[k]))
    && (forall k :: 0 <= k < |p| - 1 ==> Adjacent(p[k], p[k + 1]))
  }

  /** `b` can be reached from `a` by stepping between 4-adjacent occupied cells. */
  ghost predicate Reachable(g: array2<Byte>, a: Cell, b: Cell)
    reads g
  {
    exists p {:trigger IsPath(g, p)} :: IsPath(g, p) && p[0] == a && p[|p| - 1] == b
  }

  /** The cluster of `seed`: every cell reachable from it. */
  ghost function Component(g: array2<Byte>, seed: Cell): set<Cell>
    reads g
  {
    set r, k | 0 <= r < g.Length0 && 0 <= k < g.Length1 && Reachable(g, seed, Cell(r, k)) :: Cell(r, k)
  }

  /** Membership in a cluster is reachability from its seed. */
  lemma InComponent(g: array2<Byte>, seed: Cell, c: Cell)
    ensures c in Component(g, seed) <==> Reachable(g, seed, c)
  {
    if Reachable(g, seed, c) {
      ReachableEnds(g, seed, c);
      assert c == Cell(c.row, c.col);
    }
  }

  /** No occupied 4-neighbour of a member lies outside `s`. */
  ghost predicate ClosedUnder(g: array2<Byte>, s: set<Cell>)
    reads g
  {
    forall v, n :: v in s && Adjacent(v, n) && Open(g, n) ==> n in s
  }

  lemma ReachableEnds(g: array2<Byte>, a: Cell, b: Cell)
    requires Reachable(g, a, b)
    ensures Open(g, a) && Open(g, b)
  {
    var p :| IsPath(g, p) && p[0] == a && p[|p| - 1] == b;
    assert Open(g, p[0]) && Open(g, p[|p| - 1]);
  }

  lemma ReachableSelf(g: array2<Byte>, a: Cell)
    requires Open(g, a)
    ensures Reachable(g, a, a)
  {
    assert IsPath(g, [a]);
  }

  lemma ReachableStep(g: array2<Byte>, a: Cell, b: Cell, c: Cell)
    requires Reachable(g, a, b) && Adjacent(b, c) && Open(g, c)
    ensures Reachable(g, a, c)
  {
    var p :| IsPath(g, p) && p[0] == a && p[|p| - 1] == b;
    var p' := p + [c];
    assert forall k :: 0 <= k < |p| ==> p'[k] == p[k];
    assert IsPath(g, p');
  }

  /** Walking a path backwards is again a path. */
  lemma {:induction false} PathReversed(g: array2<Byte>, p: seq<Cell>)
    requires IsPath(g, p)
    ensures Reachable(g, p[|p| - 1], p[0])
    decreases |p|
  {
    if |p| == 1 {
      ReachableSelf(g, p[0]);
    } else {
      var rest := p[1..];
      assert IsPath(g, rest);
      PathReversed(g, rest);
      assert Adjacent(p[1], p[0]) by { assert Adjacent(p[0], p[1]); }
      ReachableStep(g, p[|p| - 1], p[1], p[0]);
    }
  }

  /** A path that starts at a cell reachable from `a` ends at one, too. */
  lemma {:induction false} PathExtends(g: array2<Byte>, a: Cell, q: seq<Cell>)
    requires IsPath(g, q) && Reachable(g, a, q[0])
    ensures Reachable(g, a, q[|q| - 1])
    decreases |q|
  {
    if |q| > 1 {
      var front := q[..|q| - 1];
      assert IsPath(g, front);
      PathExtends(g, a, front);
      assert Adjacent(q[|q| - 2], q[|q| - 1]);
      ReachableStep(g, a, q[|q| - 2], q[|q| - 1]);
    }
  }

  lemma ReachableSymmetric(g: array2<Byte>, a: Cell, b: Cell)
    requires Reachable(g, a, b)
    ensures Reachable(g, b, a)
  {
    var p :| IsPath(g, p) && p[0] == a && p[|p| - 1] == b;
    PathReversed(g, p);
  }

  lemma ReachableTransitive(g: array2<Byte>, a: Cell, b: Cell, c: Cell)
    requires Reachable(g, a, b) && Reachable(g, b, c)
    ensures Reachable(g, a, c)
  {
    var q :| IsPath(g, q) && q[0] == b && q[|q| - 1] == c;
    PathExtends(g, a, q);
  }

  /** A set closed under occupied adjacency that holds a path's start holds its end. */
  lemma {:induction false} ClosedContainsPath(g: array2<Byte>, s: set<Cell>, p: seq<Cell>)
    requires ClosedUnder(g, s) && IsPath(g, p) && p[0] in s
    ensures p[|p| - 1] in s
    decreases |p|
  {
    if |p| > 1 {
      var front := p[..|p| - 1];
      assert IsPath(g, front);
      ClosedContainsPath(g, s, front);
      assert Adjacent(p[|p| - 2], p[|p| - 1]) && Open(g, p[|p| - 1]);
    }
  }

  /** A cluster holds only occupied cells of the grid. */
  lemma ComponentOccupied(g: array2<Byte>, seed: Cell)
    ensures Component(g, seed) <= OccupiedCells(g)
  {
    forall c | c in Component(g, seed) ensures c in OccupiedCells(g) {
      ReachableEnds(g, seed, c);
    }
  }

  /** The cluster of an occupied seed contains the seed; that of any other cell is empty. */
  lemma ComponentHasSeed(g: array2<Byte>, seed: Cell)
    ensures seed in Component(g, seed) <==> Open(g, seed)
    ensures !Open(g, seed) ==> Component(g, seed) == {}
  {
    if Open(g, seed) {
      ReachableSelf(g, seed);
    } else {
      forall c | c in Component(g, seed) ensures false {
        ReachableEnds(g, seed, c);
      }
    }
  }

  /** A cluster is closed: every occupied neighbour of a member is a member. */
  lemma ComponentClosed(g: array2<Byte>, seed: Cell)
    ensures ClosedUnder(g, Component(g, seed))
  {
    forall v, n | v in Component(g, seed) && Adjacent(v, n) && Open(g, n)
      ensures n in Component(g, seed)
    {
      ReachableStep(g, seed, v, n);
    }
  }

  /** A cluster is the least closed set that contains its seed. */
  lemma ComponentLeast(g: array2<Byte>, seed: Cell, s: set<Cell>)
    requires ClosedUnder(g, s) && seed in s
    ensures Component(g, seed) <= s
  {
    forall c | c in Component(g, seed) ensures c in s {
      var p :| IsPath(g, p) && p[0] == seed && p[|p| - 1] == c;
      ClosedContainsPath(g, s, p);
    }
  }

  /** Any member of a cluster has that same cluster. */
  lemma ComponentOfMember(g: array2<Byte>, seed: Cell, c: Cell)
    requires c in Component(g, seed)
    ensures Component(g, c) == Component(g, seed)
  {
    forall x | x in Component(g, c) ensures x in Component(g, seed) {
      ReachableTransitive(g, seed, c, x);
    }
    forall x | x in Component(g, seed) ensures x in Component(g, c) {
      ReachableSymmetric(g, seed, c);
      ReachableTransitive(g, c, seed, x);
    }
  }

  /** Two clusters are either the same or share no cell. */
  lemma ComponentsDisjointOrEqual(g: array2<Byte>, a: Cell, b: Cell)
    ensures Component(g, a) == Component(g, b) || Component(g, a) !! Component(g, b)
  {
    if c :| c in Component(g, a) && c in Component(g, b) {
      ComponentOfMember(g, a, c);
      ComponentOfMember(g, b, c);
    }
  }

  /**
    `b` is the grid's largest cluster, ties going to the cluster whose
    seed comes first in row-major order: empty exactly when no cell is
    occupied, no smaller than any cluster, and the cluster of an occupied
    cell `s` such that every occupied cell before `s` has a strictly smaller
    cluster.
   */
  ghost predicate IsBiggestCluster(g: array2<Byte>, b: set<Cell>)
    reads g
  {
    && (b == {} <==> OccupiedCells(g) == {})
    && (forall c :: Open(g, c) ==> |Component(g, c)| <= |b|)
    && (b != {} ==>
          exists s :: Open(g, s) && b == Component(g, s) &&
            forall t :: Open(g, t) && Before(t, s) ==> |Component(g, t)| < |b|)
  }

  /** The tie-breaking rule leaves no choice: a grid has one largest cluster. */
  lemma BiggestClusterUnique(g: array2<Byte>, b: set<Cell>, b': set<Cell>)
    requires IsBiggestCluster(g, b) && IsBiggestCluster(g, b')
    ensures b == b'
  {
    if b != {} {
      var s :| Open(g, s) && b == Component(g, s) &&
        forall t :: Open(g, t) && Before(t, s) ==> |Component(g, t)| < |b|;
      var s' :| Open(g, s') && b' == Component(g, s') &&
        forall t :: Open(g, t) && Before(t, s') ==> |Component(g, t)| < |b'|;
      assert |b| == |b'|;
      assert Before(s, s') ==> |Component(g, s)| < |b'|;
      assert Before(s', s) ==> |Component(g, s')| < |b|;
      assert s == s';
    }
  }

  /** In a fully occupied grid the first column is connected to its top cell. */
  lemma {:induction false} ColumnReachable(g: array2<Byte>, r: int)
    requires OccupiedCells(g) == Cells(g)
    requires 0 <= r < g.Length0 && 0 < g.Length1
    ensures Reachable(g, Cell(0, 0), Cell(r, 0))
    decreases r
  {
    assert Cell(r, 0) in Cells(g);
    if r == 0 {
      ReachableSelf(g, Cell(0, 0));
    } else {
      ColumnReachable(g, r - 1);
      ReachableStep(g, Cell(0, 0), Cell(r - 1, 0), Cell(r, 0));
    }
  }

  /** In a fully occupied grid every cell is connected to the top-left cell. */
  lemma {:induction false} CellReachable(g: array2<Byte>, r: int, k: int)
    requires OccupiedCells(g) == Cells(g)
    requires 0 <= r < g.Length0 && 0 <= k < g.Length1
    ensures Reachable(g, Cell(0, 0), Cell(r, k))
    decreases k
  {
    assert Cell(r, k) in Cells(g);
    if k == 0 {
      ColumnReachable(g, r);
    } else {
      CellReachable(g, r, k - 1);
      ReachableStep(g, Cell(0, 0), Cell(r, k - 1), Cell(r, k));
    }
  }

  /** A fully occupied grid is one single cluster. */
  lemma FullGridOneCluster(g: array2<Byte>, seed: Cell)
    requires OccupiedCells(g) == Cells(g) && InBounds(g, seed)
    ensures Component(g, seed) == Cells(g)
  {
    ComponentOccupied(g, seed);
    forall c | c in Cells(g) ensures c in Component(g, seed) {
      CellReachable(g, seed.row, seed.col);
      CellReachable(g, c.row, c.col);
      assert seed == Cell(seed.row, seed.col) && c == Cell(c.row, c.col);
      ReachableSymmetric(g, Cell(0, 0), seed);
      ReachableTransitive(g, seed, Cell(0, 0), c);
      InComponent(g, seed, c);
    }
  }
}
