/** Arithmetic of flat row-major buffers: cell (x, y) of a buffer `width` cells wide lives at
    index y * width + x. Shared by the sprite blitter and the map view. */
module Grid {

  /** Row-major index of cell (x, y). */
  function Idx(width: nat, x: nat, y: nat): nat
  {
    y * width + x
  }

  lemma MulMonotone(a: nat, b: nat, w: nat)
    requires a <= b
    ensures a * w <= b * w
  {
    assert b * w == a * w + (b - a) * w;
  }

  /** Every cell of a width x height grid has an index below width * height. */
  lemma IdxBound(width: nat, height: nat, x: nat, y: nat)
    requires x < width && y < height
    ensures Idx(width, x, y) < width * height
  {
    MulMonotone(y + 1, height, width);
  }

  /** Distinct cells of a row have distinct indices: the index determines the cell. */
  lemma IdxInjective(width: nat, x: nat, y: nat, x': nat, y': nat)
    requires x < width && x' < width
    requires Idx(width, x, y) == Idx(width, x', y')
    ensures x == x' && y == y'
  {
    if y < y' {
      MulMonotone(y + 1, y', width);
    } else if y' < y {
      MulMonotone(y' + 1, y, width);
    }
  }

  /** Division and remainder by the width recover the cell from its index. */
  lemma IdxDivMod(width: nat, x: nat, y: nat)
    requires x < width
    ensures Idx(width, x, y) / width == y && Idx(width, x, y) % width == x
  {
    var i := Idx(width, x, y);
    assert i == Idx(width, i % width, i / width);
    IdxInjective(width, x, y, i % width, i / width);
  }

  /** Every index below width * height is the index of a cell of the grid. */
  lemma CellOfIdx(width: nat, height: nat, i: nat)
    requires i < width * height
    ensures width > 0 && i % width < width && i / width < height
    ensures i == Idx(width, i % width, i / width)
  {
    if i / width >= height {
      MulMonotone(height, i / width, width);
    }
  }

  /** Moving right or down never lowers the index. */
  lemma IdxMonotone(width: nat, x: nat, y: nat, x': nat, y': nat)
    requires x <= x' && y <= y'
    ensures Idx(width, x, y) <= Idx(width, x', y')
  {
    MulMonotone(y, y', width);
  }

  /** Any index is the index of the cell its quotient and remainder name. */
  lemma IdxOfDivMod(width: nat, i: nat)
    requires width > 0
    ensures i % width < width && i == Idx(width, i % width, i / width)
  {
  }

  /** The element of cell (x, y) of a width x height buffer. */
  function Cell<T>(buf: seq<T>, width: nat, height: nat, x: nat, y: nat): T
    requires |buf| == width * height && x < width && y < height
  {
    IdxBound(width, height, x, y);
    buf[Idx(width, x, y)]
  }
}
