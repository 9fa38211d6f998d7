/**
  The flood fill: breadth-first search from a seed over 4-adjacent occupied
  cells, with a FIFO queue that may hold the same cell several times
  (neighbours are enqueued before the visited test, which is made only when
  a cell is dequeued).
 */
module ClusterFinder {
  import opened Lattice
  import opened Connectivity

  /**
    What the flood fill knows between two dequeues: every visited cell is in
    the seed's cluster, every queued cell is on the grid and, if occupied, in
    the cluster, the seed is visited or still queued, and every occupied
    neighbour of a visited cell is visited or queued.
   */
  ghost predicate FillInvariant(g: array2<Byte>, seed: Cell, visited: set<Cell>, q: seq<Cell>)
    reads g
  {
    && visited <= Component(g, seed)
    && (forall c :: c in q ==> InBounds(g, c))
    && (forall c :: c in q && Open(g, c) ==> c in Component(g, seed))
    && (Open(g, seed) ==> seed in visited || seed in q)
    && (forall v, n :: v in visited && Adjacent(v, n) && Open(g, n) ==> n in visited || n in q)
  }

  /** Dequeuing a new occupied cell, marking it and enqueuing its neighbours keeps the invariant. */
  lemma FillStepGrows(g: array2<Byte>, seed: Cell, visited: set<Cell>, q: seq<Cell>)
    requires FillInvariant(g, seed, visited, q) && q != []
    requires Open(g, q[0]) && q[0] !in visited
    ensures FillInvariant(g, seed, visited + {q[0]}, q[1..] + Neighbours(g, q[0]))
  {
    var c := q[0];
    var q' := q[1..] + Neighbours(g, c);
    assert c in q;
    ComponentClosed(g, seed);
    forall v, n | v in visited + {c} && Adjacent(v, n) && Open(g, n)
      ensures n in visited + {c} || n in q'
    {
      if v == c {
        assert n in Neighbours(g, c);
      } else if n != c && n !in visited {
        assert n in q;
        assert n in q[1..] by { assert q == [c] + q[1..]; }
      }
    }
    forall n | n in q' && Open(g, n) ensures n in Component(g, seed) {
      if n !in q[1..] {
        assert n in Neighbours(g, c);
      } else {
        assert n in q;
      }
    }
    forall n | n in q' ensures InBounds(g, n) {
      if n in q[1..] { assert n in q; }
    }
    assert Open(g, seed) ==> seed in visited + {c} || seed in q' by {
      if Open(g, seed) && seed != c && seed !in visited {
        assert seed in q[1..] by { assert seed in q && q == [c] + q[1..]; }
      }
    }
  }

  /** Dequeuing a cell that is empty or already visited, and dropping it, keeps the invariant. */
  lemma FillStepSkips(g: array2<Byte>, seed: Cell, visited: set<Cell>, q: seq<Cell>)
    requires FillInvariant(g, seed, visited, q) && q != []
    requires !Open(g, q[0]) || q[0] in visited
    ensures FillInvariant(g, seed, visited, q[1..])
  {
    assert q == [q[0]] + q[1..];
  }

  /** Marking a new occupied cell leaves fewer occupied cells unmarked: the flood fill's progress measure. */
  lemma UnvisitedShrinks(g: array2<Byte>, visited: set<Cell>, c: Cell)
    requires Open(g, c) && c !in visited
    ensures |OccupiedCells(g) - (visited + {c})| < |OccupiedCells(g) - visited|
  {
    assert OccupiedCells(g) - (visited + {c}) == (OccupiedCells(g) - visited) - {c};
  }

  /** Once the queue is empty, the visited cells are exactly the seed's cluster. */
  lemma FillDone(g: array2<Byte>, seed: Cell, visited: set<Cell>)
    requires FillInvariant(g, seed, visited, [])
    ensures visited == Component(g, seed)
  {
    if Open(g, seed) {
      ComponentLeast(g, seed, visited);
    } else {
      ComponentHasSeed(g, seed);
    }
  }

  /**
    The cluster of `seed`. `cluster` and `visited` are kept as the two sets
    the flood fill maintains; they always hold the same cells.
   */
  method GetCluster(g: array2<Byte>, seed: Cell) returns (cluster: set<Cell>)
    requires InBounds(g, seed)
    ensures cluster == Component(g, seed)
    ensures g[seed.row, seed.col] != OccupiedValue ==> cluster == {}
  {
    cluster := {};
    var visited: set<Cell> := {};
    var q: seq<Cell> := [seed];
    ComponentHasSeed(g, seed);
    while q != []
      invariant cluster == visited
      invariant FillInvariant(g, seed, visited, q)
      decreases |OccupiedCells(g) - visited|, |q|
    {
      var c := q[0];
      assert c in q;
      if g[c.row, c.col] == OccupiedValue && c !in visited {
        FillStepGrows(g, seed, visited, q);
        UnvisitedShrinks(g, visited, c);
        q := q[1..];
        cluster := cluster + {c};
        q := q + Neighbours(g, c);
        visited := visited + {c};
      } else {
        FillStepSkips(g, seed, visited, q);
        q := q[1..];
      }
    }
    FillDone(g, seed, visited);
    ComponentHasSeed(g, seed);
  }
}
