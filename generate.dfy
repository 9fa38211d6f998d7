/**
  Matrix generation: every site of a `height` x `width` lattice is occupied
  (pixel 255) when its uniform draw in [0, 1) falls below the occupation
  probability `p`, and empty (pixel 150) otherwise. The random stream is an
  input: `draws[i][j]` is the draw the nested loops consume at row `i`,
  column `j`.
 */
module Generation {
  import opened Lattice
  import opened Connectivity

  /** The pixel written for one site. */
  function SiteValue(draw: real, p: real): (v: Byte)
    ensures v == OccupiedValue <==> draw < p
    ensures v == OccupiedValue || v == EmptyValue
  {
    if draw < p then OccupiedValue else EmptyValue
  }

  /** `draws` holds exactly one draw per site of a `height` x `width` lattice. */
  ghost predicate Shaped(draws: seq<seq<real>>, width: nat, height: nat) {
    |draws| == height && forall i :: 0 <= i < height ==> |draws[i]| == width
  }

  /** Every draw lies in [0, 1), as a uniform real distribution on that range yields. */
  ghost predicate UnitDraws(draws: seq<seq<real>>) {
    forall i, j :: 0 <= i < |draws| && 0 <= j < |draws[i]| ==> 0.0 <= draws[i][j] < 1.0
  }

  /** `m` is the matrix generated from `draws` with occupation probability `p`. */
  ghost predicate Generated(m: array2<Byte>, p: real, draws: seq<seq<real>>)
    reads m
  {
    && Shaped(draws, m.Length1, m.Length0)
    && forall i, j :: 0 <= i < m.Length0 && 0 <= j < m.Length1 ==> m[i, j] == SiteValue(draws[i][j], p)
  }

  /**
    A fresh `height` x `width` matrix, filled row by row: 255 where the
    site's draw is below `p`, 150 elsewhere.
   */
  method GenerateMatrix(width: nat, height: nat, p: real, draws: seq<seq<real>>) returns (m: array2<Byte>)
    requires Shaped(draws, width, height)
    ensures fresh(m)
    ensures m.Length0 == height && m.Length1 == width
    ensures Generated(m, p, draws)
    ensures forall c :: InBounds(m, c) ==> (Open(m, c) <==> draws[c.row][c.col] < p)
    ensures forall i, j :: 0 <= i < height && 0 <= j < width ==> m[i, j] == OccupiedValue || m[i, j] == EmptyValue
  {
    m := new Byte[height, width]((i, j) => 0);
    for i := 0 to height
      invariant forall r, k :: 0 <= r < i && 0 <= k < width ==> m[r, k] == SiteValue(draws[r][k], p)
    {
      for j := 0 to width
        invariant forall r, k :: 0 <= r < i && 0 <= k < width ==> m[r, k] == SiteValue(draws[r][k], p)
        invariant forall k :: 0 <= k < j ==> m[i, k] == SiteValue(draws[i][k], p)
      {
        if draws[i][j] < p {
          m[i, j] := OccupiedValue;
        } else {
          m[i, j] := EmptyValue;
        }
      }
    }
  }

  /** The occupied sites of a generated matrix are exactly those whose draw is below `p`. */
  lemma GeneratedOccupied(m: array2<Byte>, p: real, draws: seq<seq<real>>, c: Cell)
    requires Generated(m, p, draws)
    ensures Open(m, c) <==> InBounds(m, c) && draws[c.row][c.col] < p
  {
    if InBounds(m, c) {
      assert m[c.row, c.col] == SiteValue(draws[c.row][c.col], p);
    }
  }

  /**
    Applying the rule to the same draws at a larger `p` only adds occupied
    sites: the occupied sites at `p` are occupied at every `p'` >= `p`.
   */
  lemma OccupiedMonotone(m: array2<Byte>, m': array2<Byte>, p: real, p': real, draws: seq<seq<real>>)
    requires Generated(m, p, draws) && Generated(m', p', draws) && p <= p'
    ensures OccupiedCells(m) <= OccupiedCells(m')
  {
    forall c | c in OccupiedCells(m) ensures c in OccupiedCells(m') {
      GeneratedOccupied(m, p, draws, c);
      GeneratedOccupied(m', p', draws, c);
    }
  }

  /** A path over the occupied sites at `p` is a path at every `p'` >= `p`. */
  lemma PathMonotone(m: array2<Byte>, m': array2<Byte>, p: real, p': real, draws: seq<seq<real>>, q: seq<Cell>)
    requires Generated(m, p, draws) && Generated(m', p', draws) && p <= p'
    requires IsPath(m, q)
    ensures IsPath(m', q)
  {
    forall k | 0 <= k < |q| ensures Open(m', q[k]) {
      GeneratedOccupied(m, p, draws, q[k]);
      GeneratedOccupied(m', p', draws, q[k]);
    }
  }

  /**
    Applying the rule to the same draws at a larger `p` only grows clusters:
    the cluster of a site at `p` lies inside its cluster at every `p'` >= `p`.
   */
  lemma ClusterMonotone(m: array2<Byte>, m': array2<Byte>, p: real, p': real, draws: seq<seq<real>>, seed: Cell)
    requires Generated(m, p, draws) && Generated(m', p', draws) && p <= p'
    ensures Component(m, seed) <= Component(m', seed)
  {
    forall c | c in Component(m, seed) ensures c in Component(m', seed) {
      InComponent(m, seed, c);
      var q :| IsPath(m, q) && q[0] == seed && q[|q| - 1] == c;
      PathMonotone(m, m', p, p', draws, q);
      InComponent(m', seed, c);
    }
  }

  /** With `p` at or below 0 no site is occupied. */
  lemma NoneOccupiedAtZero(m: array2<Byte>, p: real, draws: seq<seq<real>>)
    requires Generated(m, p, draws) && UnitDraws(draws) && p <= 0.0
    ensures OccupiedCells(m) == {}
  {
    forall c | c in OccupiedCells(m) ensures false {
      GeneratedOccupied(m, p, draws, c);
    }
  }

  /** With `p` at or above 1 every site is occupied. */
  lemma AllOccupiedAtOne(m: array2<Byte>, p: real, draws: seq<seq<real>>)
    requires Generated(m, p, draws) && UnitDraws(draws) && 1.0 <= p
    ensures OccupiedCells(m) == Cells(m)
  {
    forall c | c in Cells(m) ensures c in OccupiedCells(m) {
      GeneratedOccupied(m, p, draws, c);
    }
  }
}
