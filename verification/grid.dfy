/**
 * Row-major index arithmetic shared by the dithering and the raster encoder:
 * pixel (x, y) of an image `width` pixels wide lives at `y * width + x`, and a
 * byte (b, y) of a raster `widthBytes` bytes wide at `y * widthBytes + b`.
 */
module Grid {

  /** The index of the first cell of row y: the y rows of `width` cells before it. */
  function RowStart(y: nat, width: nat): nat
  {
    if y == 0 then 0 else RowStart(y - 1, width) + width
  }

  lemma {:induction false} RowStartIsProduct(y: nat, width: nat)
    ensures RowStart(y, width) == y * width
  {
    if y > 0 {
      RowStartIsProduct(y - 1, width);
    }
  }

  /** A later row starts at least a whole row after an earlier one. */
  lemma {:induction false} RowStartMonotone(y1: nat, y2: nat, width: nat)
    requires y1 < y2
    ensures RowStart(y1, width) + width <= RowStart(y2, width)
    decreases y2
  {
    if y1 + 1 < y2 {
      RowStartMonotone(y1, y2 - 1, width);
    }
  }

  lemma MulMonotone(a: nat, b: nat, c: nat)
    requires a <= b
    ensures a * c <= b * c
  {
  }

  /** Index of cell (x, y) in a row-major grid `width` cells wide and `height` rows high. */
  function Idx(x: nat, y: nat, width: nat, height: nat): (i: nat)
    requires x < width && y < height
    ensures i < width * height
  {
    RowStartIsProduct(y + 1, width);
    MulMonotone(y + 1, height, width);
    RowStart(y, width) + x
  }

  /** Each index of the grid belongs to exactly one cell. */
  lemma IdxInjective(x1: nat, y1: nat, x2: nat, y2: nat, width: nat, height: nat)
    requires x1 < width && y1 < height && x2 < width && y2 < height
    requires Idx(x1, y1, width, height) == Idx(x2, y2, width, height)
    ensures x1 == x2 && y1 == y2
  {
    if y1 < y2 {
      RowStartMonotone(y1, y2, width);
    } else if y2 < y1 {
      RowStartMonotone(y2, y1, width);
    }
  }

  /** Every index below width * height is the index of the cell (i % width, i / width). */
  lemma CellOf(i: nat, width: nat, height: nat)
    requires i < width * height
    ensures 0 < width
    ensures i % width < width && i / width < height
    ensures Idx(i % width, i / width, width, height) == i
  {
    if i / width >= height {
      MulMonotone(height, i / width, width);
    }
    RowStartIsProduct(i / width, width);
  }

  /** The neighbour cells of (x, y) used by error diffusion, as index offsets. */
  lemma NeighbourOffsets(x: nat, y: nat, width: nat, height: nat)
    requires x < width && y < height
    ensures x + 1 < width ==> Idx(x, y, width, height) + 1 == Idx(x + 1, y, width, height)
    ensures y + 1 < height ==> Idx(x, y, width, height) + width == Idx(x, y + 1, width, height)
    ensures y + 1 < height && 1 <= x ==>
      Idx(x, y, width, height) + width - 1 == Idx(x - 1, y + 1, width, height)
    ensures y + 1 < height && x + 1 < width ==>
      Idx(x, y, width, height) + width + 1 == Idx(x + 1, y + 1, width, height)
  {
  }
}
