/**
  Rendering: a copy of the lattice with the cells of one cluster set to the
  highlight value, the original left as it was.
 */
module Render {
  import opened Lattice

  /**
    A fresh copy of `g` in which every cell of `cluster` holds 0 and every
    other cell holds what it holds in `g`. `g` itself is not changed: the
    method has no `modifies` clause.
   */
  method DrawCluster(g: array2<Byte>, cluster: set<Cell>) returns (result: array2<Byte>)
    requires forall c :: c in cluster ==> InBounds(g, c)
    ensures fresh(result)
    ensures result.Length0 == g.Length0 && result.Length1 == g.Length1
    ensures forall r, k :: 0 <= r < g.Length0 && 0 <= k < g.Length1 ==>
      result[r, k] == if Cell(r, k) in cluster then HighlightValue else g[r, k]
  {
    result := new Byte[g.Length0, g.Length1]((r, k) requires 0 <= r < g.Length0 && 0 <= k < g.Length1 reads g => g[r, k]);
    var rest := cluster;
    while rest != {}
      invariant rest <= cluster
      invariant forall r, k :: 0 <= r < g.Length0 && 0 <= k < g.Length1 ==>
        result[r, k] == if Cell(r, k) in cluster - rest then HighlightValue else g[r, k]
      decreases |rest|
    {
      var c :| c in rest;
      result[c.row, c.col] := HighlightValue;
      rest := rest - {c};
    }
  }
}
