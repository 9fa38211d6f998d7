/**
  One step of the occupation-probability sweep: generate the lattice at `p`,
  find its largest cluster and render it; plus how the generation rule
  compares at two thresholds applied to the same draws.
 */
module Percolation {
  import opened Lattice
  import opened Connectivity
  import opened Generation
  import opened Scanner
  import opened Render

  /** The largest cluster lies on the grid. */
  lemma BiggestInBounds(g: array2<Byte>, b: set<Cell>)
    requires IsBiggestCluster(g, b)
    ensures forall c :: c in b ==> Open(g, c)
  {
    if b != {} {
      var s :| Open(g, s) && b == Component(g, s) &&
        forall t :: Open(g, t) && Before(t, s) ==> |Component(g, t)| < |b|;
      ComponentOccupied(g, s);
    }
  }

  /**
    The matrix at `p`, its largest cluster, and the rendered image: the
    image holds 0 exactly on the largest cluster and the generated value
    everywhere else.
   */
  method Frame(width: nat, height: nat, p: real, draws: seq<seq<real>>)
    returns (matrix: array2<Byte>, biggest: set<Cell>, result: array2<Byte>)
    requires Shaped(draws, width, height)
    ensures fresh(matrix) && fresh(result)
    ensures Generated(matrix, p, draws)
    ensures IsBiggestCluster(matrix, biggest)
    ensures result.Length0 == height && result.Length1 == width
    ensures forall r, k :: 0 <= r < height && 0 <= k < width ==>
      && (result[r, k] == HighlightValue <==> Cell(r, k) in biggest)
      && (Cell(r, k) !in biggest ==> result[r, k] == SiteValue(draws[r][k], p))
  {
    matrix := GenerateMatrix(width, height, p, draws);
    ghost var visited;
    biggest, visited := GetBiggestCluster(matrix);
    BiggestInBounds(matrix, biggest);
    result := DrawCluster(matrix, biggest);
  }

  /**
    Applying the generation rule to the same draws at a larger threshold
    never yields a smaller largest cluster. This is a property of the cell
    rule alone: the sweep draws every step afresh, so it does not apply to
    two steps of the sweep.
   */
  lemma BiggestMonotone(m: array2<Byte>, m': array2<Byte>, p: real, p': real, draws: seq<seq<real>>,
                        b: set<Cell>, b': set<Cell>)
    requires Generated(m, p, draws) && Generated(m', p', draws) && p <= p'
    requires IsBiggestCluster(m, b) && IsBiggestCluster(m', b')
    ensures |b| <= |b'|
  {
    if b != {} {
      var s :| Open(m, s) && b == Component(m, s) &&
        forall t :: Open(m, t) && Before(t, s) ==> |Component(m, t)| < |b|;
      ClusterMonotone(m, m', p, p', draws, s);
      OccupiedMonotone(m, m', p, p', draws);
      assert s in OccupiedCells(m);
      assert Open(m', s);
      assert |Component(m, s)| <= |Component(m', s)| by {
        SubsetCardinality(Component(m, s), Component(m', s));
      }
    }
  }

  /** A subset is no larger than its superset. */
  lemma SubsetCardinality(a: set<Cell>, b: set<Cell>)
    requires a <= b
    ensures |a| <= |b|
  {
    assert b == a + (b - a);
  }

  /** At `p` = 0 there is no cluster at all. */
  lemma BiggestAtZero(m: array2<Byte>, p: real, draws: seq<seq<real>>, b: set<Cell>)
    requires Generated(m, p, draws) && UnitDraws(draws) && p <= 0.0
    requires IsBiggestCluster(m, b)
    ensures b == {}
  {
    NoneOccupiedAtZero(m, p, draws);
  }

  /** At `p` = 1 the whole lattice is one cluster, and it is the largest. */
  lemma BiggestAtOne(m: array2<Byte>, p: real, draws: seq<seq<real>>, b: set<Cell>)
    requires Generated(m, p, draws) && UnitDraws(draws) && 1.0 <= p
    requires IsBiggestCluster(m, b)
    ensures b == Cells(m)
  {
    AllOccupiedAtOne(m, p, draws);
    if b != {} {
      var s :| Open(m, s) && b == Component(m, s) &&
        forall t :: Open(m, t) && Before(t, s) ==> |Component(m, t)| < |b|;
      FullGridOneCluster(m, s);
    } else {
      assert OccupiedCells(m) == {};
    }
  }
}
