/**
  The proof side of the largest-cluster scan: the invariant the row-major
  walk keeps, one lemma per kind of step, and the lemma that turns the
  invariant after the last cell into the scan's promises.
 */
module ScanInvariants {
  import opened Lattice
  import opened Connectivity

  /**
    What the scan knows once it has passed the cells `done`:
    every visited cell is occupied and its cluster is no larger than
    `biggest`; every occupied passed cell is visited (so no passed cell has
    a larger cluster than `biggest`); `biggest` is empty only while no
    passed cell is occupied; and otherwise `biggest` is the cluster of the passed
    cell `best`, strictly larger than the cluster of every occupied cell
    before `best`.
   */
  ghost predicate ScanInvariant(g: array2<Byte>, done: set<Cell>, visited: set<Cell>,
                                biggest: set<Cell>, best: Cell)
    reads g
  {
    && (forall v {:trigger v in visited} :: v in visited ==> Open(g, v) && |Component(g, v)| <= |biggest|)
    && (forall t {:trigger t in done} :: t in done && Open(g, t) ==> t in visited)
    && (biggest == {} ==> forall t {:trigger t in done} :: t in done ==> !Open(g, t))
    && (biggest != {} ==>
          && best in done && Open(g, best) && biggest == Component(g, best)
          && forall t {:trigger t in Preceding(g, best)} :: t in Preceding(g, best) && Open(g, t) ==> |Component(g, t)| < |biggest|)
  }

  /**
    Passing a cell that is empty or already visited changes nothing but the
    set of passed cells, which grows from `done` to `next`.
   */
  lemma ScanStepSkips(g: array2<Byte>, done: set<Cell>, visited: set<Cell>,
                      biggest: set<Cell>, best: Cell, c: Cell, next: set<Cell>)
    requires ScanInvariant(g, done, visited, biggest, best)
    requires !Open(g, c) || c in visited
    requires next == done + {c}
    ensures ScanInvariant(g, next, visited, biggest, best)
  {
    if Open(g, c) {
      ComponentHasSeed(g, c);
    }
    forall t | t in next && Open(g, t) ensures t in visited && |Component(g, t)| <= |biggest| {
      if t != c {
        assert t in done;
      }
    }
  }

  /**
    Passing an occupied unvisited cell `c`, whose cluster is `cluster`:
    the cluster is merged into `visited` and replaces `biggest` when strictly
    larger. `done` must be exactly the cells before `c`; the passed cells
    grow to `next`.
   */
  lemma ScanStepDiscovers(g: array2<Byte>, done: set<Cell>, visited: set<Cell>,
                          biggest: set<Cell>, best: Cell, c: Cell, cluster: set<Cell>,
                          next: set<Cell>, biggest': set<Cell>, best': Cell)
    requires ScanInvariant(g, done, visited, biggest, best)
    requires Open(g, c) && c !in visited && done == Preceding(g, c)
    requires cluster == Component(g, c)
    requires next == done + {c}
    requires biggest' == (if |cluster| > |biggest| then cluster else biggest)
    requires best' == (if |cluster| > |biggest| then c else best)
    ensures ScanInvariant(g, next, visited + cluster, biggest', best')
  {
    ComponentHasSeed(g, c);
    assert c in cluster;
    assert |biggest| <= |biggest'| && |cluster| <= |biggest'|;
    forall v | v in visited + cluster
      ensures Open(g, v) && |Component(g, v)| <= |biggest'|
    {
      if v in cluster {
        ComponentOfMember(g, c, v);
        ReachableEnds(g, c, v);
      } else {
        assert v in visited;
      }
    }
    forall t | t in next && Open(g, t)
      ensures t in visited + cluster && |Component(g, t)| <= |biggest'|
    {
      if t != c {
        assert t in done;
      }
    }
    assert biggest' != {};
    if |cluster| > |biggest| {
      forall t | t in Preceding(g, c) && Open(g, t) ensures |Component(g, t)| < |biggest'| {
        assert t in done;
      }
    } else {
      assert best in next;
      forall t | t in Preceding(g, best) && Open(g, t) ensures |Component(g, t)| < |biggest'| {
      }
    }
  }

  /**
    One step of the inner loop at `Cell(i, j)`: the state before is
    (`visited`, `biggest`, `best`), the state after is (`visited'`,
    `biggest'`, `best'`), as the scan computes it.
   */
  lemma ScanStep(g: array2<Byte>, i: int, j: int, visited: set<Cell>, biggest: set<Cell>, best: Cell,
                 visited': set<Cell>, biggest': set<Cell>, best': Cell)
    requires 0 <= i < g.Length0 && 0 <= j < g.Length1
    requires ScanInvariant(g, Preceding(g, Cell(i, j)), visited, biggest, best)
    requires Open(g, Cell(i, j)) && Cell(i, j) !in visited ==>
      && visited' == visited + Component(g, Cell(i, j))
      && biggest' == (if |Component(g, Cell(i, j))| > |biggest| then Component(g, Cell(i, j)) else biggest)
      && best' == (if |Component(g, Cell(i, j))| > |biggest| then Cell(i, j) else best)
    requires !Open(g, Cell(i, j)) || Cell(i, j) in visited ==>
      visited' == visited && biggest' == biggest && best' == best
    ensures ScanInvariant(g, Preceding(g, Cell(i, j + 1)), visited', biggest', best')
  {
    var c := Cell(i, j);
    PrecedingNext(g, i, j);
    if Open(g, c) && c !in visited {
      ScanStepDiscovers(g, Preceding(g, c), visited, biggest, best, c, Component(g, c),
                        Preceding(g, Cell(i, j + 1)), biggest', best');
    } else {
      ScanStepSkips(g, Preceding(g, c), visited, biggest, best, c, Preceding(g, Cell(i, j + 1)));
    }
  }

  /** Cells passed within a row: one more step of the inner loop passes `Cell(i, j)`. */
  lemma PrecedingNext(g: array2<Byte>, i: int, j: int)
    requires 0 <= i < g.Length0 && 0 <= j < g.Length1
    ensures Preceding(g, Cell(i, j + 1)) == Preceding(g, Cell(i, j)) + {Cell(i, j)}
  {
    forall c | c in Preceding(g, Cell(i, j + 1)) ensures c in Preceding(g, Cell(i, j)) + {Cell(i, j)} {
      if c.row == i && c.col == j {
        assert c == Cell(i, j);
      }
    }
  }

  /** The end of one row is the start of the next. */
  lemma PrecedingNextRow(g: array2<Byte>, i: int)
    ensures Preceding(g, Cell(i, g.Length1)) == Preceding(g, Cell(i + 1, 0))
  {
  }

  /** After the last row every cell has been passed. */
  lemma PrecedingAll(g: array2<Byte>)
    ensures Preceding(g, Cell(g.Length0, 0)) == Cells(g)
  {
  }

  /** Once every cell has been passed, the invariant gives the scan's promises. */
  lemma ScanDone(g: array2<Byte>, visited: set<Cell>, biggest: set<Cell>, best: Cell)
    requires ScanInvariant(g, Cells(g), visited, biggest, best)
    ensures IsBiggestCluster(g, biggest)
    ensures visited == OccupiedCells(g)
  {
    forall v | v in OccupiedCells(g) ensures v in visited {
      assert v in Cells(g);
    }
    forall c | Open(g, c) ensures |Component(g, c)| <= |biggest| {
      assert c in Cells(g);
    }
    if biggest != {} {
      assert best in OccupiedCells(g);
      assert forall t :: Open(g, t) && Before(t, best) ==> t in Preceding(g, best);
    }
  }
}
