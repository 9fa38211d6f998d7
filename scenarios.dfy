/**
  Worked examples on a single row of four cells.
 */
module Scenarios {
  import opened Lattice
  import opened Connectivity

  /** The row [occupied, empty, occupied, occupied]. */
  ghost predicate SplitRow(g: array2<Byte>)
    reads g
  {
    && g.Length0 == 1 && g.Length1 == 4
    && g[0, 0] == OccupiedValue && g[0, 1] == EmptyValue
    && g[0, 2] == OccupiedValue && g[0, 3] == OccupiedValue
  }

  /** The occupied cells of the split row. */
  lemma SplitRowOccupied(g: array2<Byte>, c: Cell)
    requires SplitRow(g)
    ensures Open(g, c) <==> c == Cell(0, 0) || c == Cell(0, 2) || c == Cell(0, 3)
  {
  }

  /** The split row has two clusters: {(0,0)} and {(0,2), (0,3)}. */
  lemma SplitRowClusters(g: array2<Byte>)
    requires SplitRow(g)
    ensures Component(g, Cell(0, 0)) == {Cell(0, 0)}
    ensures Component(g, Cell(0, 2)) == {Cell(0, 2), Cell(0, 3)}
    ensures Component(g, Cell(0, 3)) == {Cell(0, 2), Cell(0, 3)}
  {
    var left, right := {Cell(0, 0)}, {Cell(0, 2), Cell(0, 3)};
    forall v, n | v in left && Adjacent(v, n) && Open(g, n) ensures n in left {
      SplitRowOccupied(g, n);
    }
    forall v, n | v in right && Adjacent(v, n) && Open(g, n) ensures n in right {
      SplitRowOccupied(g, n);
    }
    ComponentLeast(g, Cell(0, 0), left);
    ComponentHasSeed(g, Cell(0, 0));
    ComponentLeast(g, Cell(0, 2), right);
    ComponentHasSeed(g, Cell(0, 2));
    ReachableSelf(g, Cell(0, 2));
    ReachableStep(g, Cell(0, 2), Cell(0, 2), Cell(0, 3));
    InComponent(g, Cell(0, 2), Cell(0, 3));
    ComponentOfMember(g, Cell(0, 2), Cell(0, 3));
  }

  /**
    The largest cluster of the split row is {(0,2), (0,3)}: the later,
    larger cluster replaces the first one.
   */
  lemma SplitRowBiggest(g: array2<Byte>, b: set<Cell>)
    requires SplitRow(g) && IsBiggestCluster(g, b)
    ensures b == {Cell(0, 2), Cell(0, 3)}
  {
    SplitRowClusters(g);
    assert Open(g, Cell(0, 2));
    assert |Component(g, Cell(0, 2))| == 2;
    assert b != {} by {
      assert Cell(0, 0) in OccupiedCells(g);
    }
    var s :| Open(g, s) && b == Component(g, s) &&
      forall t :: Open(g, t) && Before(t, s) ==> |Component(g, t)| < |b|;
    SplitRowOccupied(g, s);
    assert s != Cell(0, 0);
    assert s != Cell(0, 3) by {
      assert Before(Cell(0, 2), Cell(0, 3));
    }
  }
}
