/**
  The largest-cluster scan: a row-major walk over the grid that flood-fills
  from every occupied cell not yet claimed by an earlier cluster, merges the
  result into `visited`, and keeps the first cluster of strictly greater size.
 */
module Scanner {
  import opened Lattice
  import opened Connectivity
  import opened ClusterFinder
  import opened ScanInvariants

  /**
    The largest cluster of the grid, ties going to the cluster met first in
    row-major order; `visitedCells` is the scan's final `visited` set.
   */
  method GetBiggestCluster(g: array2<Byte>) returns (biggest: set<Cell>, ghost visitedCells: set<Cell>)
    ensures IsBiggestCluster(g, biggest)
    ensures visitedCells == OccupiedCells(g)
  {
    biggest := {};
    var visited: set<Cell> := {};
    ghost var best := Cell(0, 0);
    var i := 0;
    while i < g.Length0
      invariant 0 <= i <= g.Length0
      // The same invariant as the inner loop's, in the plain form: here the
      // verifier handles it conjunct by conjunct at no great cost, while the
      // inner loop keeps it as one fact (see there).
      invariant ScanInvariant(g, Preceding(g, Cell(i, 0)), visited, biggest, best)
    {
      var j := 0;
      while j < g.Length1
        invariant 0 <= j <= g.Length1
        // Compared with `true` so that the verifier keeps the invariant as one
        // fact instead of checking every conjunct of its body apart.
        invariant ScanInvariant(g, Preceding(g, Cell(i, j)), visited, biggest, best) == true
      {
        ghost var visited0, biggest0, best0 := visited, biggest, best;
        var c := Cell(i, j);
        if g[i, j] == OccupiedValue && c !in visited {
          var cluster := GetCluster(g, c);
          visited := visited + cluster;
          if |cluster| > |biggest| {
            biggest := cluster;
            best := c;
          }
        }
        ScanStep(g, i, j, visited0, biggest0, best0, visited, biggest, best);
        j := j + 1;
      }
      PrecedingNextRow(g, i);
      i := i + 1;
    }
    PrecedingAll(g);
    ScanDone(g, visited, biggest, best);
    visitedCells := visited;
  }
}
