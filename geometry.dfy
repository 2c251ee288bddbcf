/** Conversions between canvas pixels and grid cells, and the size of the grid a canvas holds.
    A cell is a `cellSize` by `cellSize` square; cell (x, y) starts at pixel (cellSize * x, cellSize * y). */
module Geometry {

  /** The cell that pixel offset p falls in: the floor of p / cellSize. Dafny's `/` with a positive
      divisor rounds toward negative infinity, as `Math.floor(p / cellSize)` does. */
  function CellOf(cellSize: nat, p: int): (c: int)
    requires cellSize > 0
    ensures c * cellSize <= p < (c + 1) * cellSize
    ensures p >= 0 ==> c >= 0
  {
    p / cellSize
  }

  /** The cell containing p is the only c with c * cellSize <= p < (c + 1) * cellSize. */
  lemma CellOfUnique(cellSize: nat, p: int, c: int)
    requires cellSize > 0
    requires c * cellSize <= p < (c + 1) * cellSize
    ensures CellOf(cellSize, p) == c
  {
  }

  /** The number of whole cells across and down a canvas of the given pixel size. */
  function GridSize(canvasWidth: nat, canvasHeight: nat, cellSize: nat): (size: (nat, nat))
    requires cellSize > 0
    ensures size.0 * cellSize <= canvasWidth < (size.0 + 1) * cellSize
    ensures size.1 * cellSize <= canvasHeight < (size.1 + 1) * cellSize
  {
    (CellOf(cellSize, canvasWidth), CellOf(cellSize, canvasHeight))
  }

  function PixelsToCoords(cellSize: nat, px: int, py: int): (c: (int, int))
    requires cellSize > 0
    ensures c.0 * cellSize <= px < (c.0 + 1) * cellSize
    ensures c.1 * cellSize <= py < (c.1 + 1) * cellSize
    ensures px >= 0 && py >= 0 ==> c.0 >= 0 && c.1 >= 0
  {
    (CellOf(cellSize, px), CellOf(cellSize, py))
  }

  /** The pixel where cell (x, y) starts; converting it back gives the same cell. */
  function CoordsToPixels(cellSize: nat, x: int, y: int): (p: (int, int))
    requires cellSize > 0
    ensures PixelsToCoords(cellSize, p.0, p.1) == (x, y)
  {
    CellOfUnique(cellSize, cellSize * x, x);
    CellOfUnique(cellSize, cellSize * y, y);
    (cellSize * x, cellSize * y)
  }
}
