/**
  The lattice of the percolation study: a single-channel 8-bit matrix of
  `height` rows and `width` columns, addressed by (row, column) cells, with
  the three pixel values the program writes.
 */
module Lattice {

  /** One unsigned 8-bit pixel (an OpenCV `CV_8UC1` element). */
  newtype Byte = x: int | 0 <= x < 256

  /** Pixel value of an occupied site. */
  const OccupiedValue: Byte := 255
  /** Pixel value of an empty site. */
  const EmptyValue: Byte := 150
  /** Pixel value that marks the cells of the rendered cluster. */
  const HighlightValue: Byte := 0

  /** A (row, column) coordinate; it locates a pixel and carries nothing else. */
  datatype Cell = Cell(row: int, col: int)

  predicate InBounds(g: array2<Byte>, c: Cell) {
    0 <= c.row < g.Length0 && 0 <= c.col < g.Length1
  }

  /** The cell lies on the grid and holds the occupied value. */
  predicate Open(g: array2<Byte>, c: Cell)
    reads g
  {
    InBounds(g, c) && g[c.row, c.col] == OccupiedValue
  }

  /** 4-adjacency: the cells differ by one in exactly one coordinate. */
  predicate Adjacent(a: Cell, b: Cell) {
    || (a.row == b.row && (a.col == b.col + 1 || a.col + 1 == b.col))
    || (a.col == b.col && (a.row == b.row + 1 || a.row + 1 == b.row))
  }

  /** Strict row-major order: the order in which the scan visits cells. */
  predicate Before(a: Cell, b: Cell) {
    a.row < b.row || (a.row == b.row && a.col < b.col)
  }

  /** Every cell of the grid. */
  ghost function Cells(g: array2<Byte>): (cs: set<Cell>)
    ensures forall c {:trigger c in cs} :: c in cs <==> InBounds(g, c)
  {
    assert forall c :: InBounds(g, c) ==> c == Cell(c.row, c.col);
    set r, k | 0 <= r < g.Length0 && 0 <= k < g.Length1 :: Cell(r, k)
  }

  /** The occupied cells of the grid. */
  ghost function OccupiedCells(g: array2<Byte>): (cs: set<Cell>)
    reads g
    ensures forall c {:trigger c in cs} :: c in cs <==> Open(g, c)
  {
    set c | c in Cells(g) && Open(g, c)
  }

  /** The cells a row-major scan has passed before it reaches `s`. */
  ghost function Preceding(g: array2<Byte>, s: Cell): (cs: set<Cell>)
    ensures forall c {:trigger c in cs} :: c in cs <==> InBounds(g, c) && Before(c, s)
  {
    set c | c in Cells(g) && Before(c, s)
  }

  /**
    The in-bounds 4-neighbours of `c`, in the order the flood fill pushes
    them: up, down, left, right.
   */
  function Neighbours(g: array2<Byte>, c: Cell): (ns: seq<Cell>)
    requires InBounds(g, c)
    ensures forall n :: n in ns <==> InBounds(g, n) && Adjacent(c, n)
    ensures |ns| <= 4
  {
    (if c.row > 0 then [Cell(c.row - 1, c.col)] else [])
    + (if c.row < g.Length0 - 1 then [Cell(c.row + 1, c.col)] else [])
    + (if c.col > 0 then [Cell(c.row, c.col - 1)] else [])
    + (if c.col < g.Length1 - 1 then [Cell(c.row, c.col + 1)] else [])
  }
}
