/** Row-major indexing of a `width * height` grid, shared by the texture
    table and the framebuffer walk: cell (x, y) lives at `y * width + x`. */
module Grid {

  lemma MulMonotone(a: nat, b: nat, w: nat)
    requires a <= b
    ensures a * w <= b * w
  {
  }

  /** Every in-range cell has an index below `width * height`. */
  lemma IndexInBounds(x: nat, y: nat, width: nat, height: nat)
    requires x < width && y < height
    ensures y * width + x < width * height
  {
    MulMonotone(y + 1, height, width);
    assert (y + 1) * width == y * width + width;
  }

  /** The cell of index `y * width + x` is (x, y) again. */
  lemma IndexSplit(x: nat, y: nat, width: nat)
    requires x < width
    ensures (y * width + x) / width == y
    ensures (y * width + x) % width == x
  {
    var k := y * width + x;
    var q, r := k / width, k % width;
    assert k == q * width + r;
    if q < y {
      MulMonotone(q + 1, y, width);
    } else if q > y {
      MulMonotone(y + 1, q, width);
    }
  }

  /** Every index below `width * height` is the index of an in-range cell. */
  lemma IndexCell(k: nat, width: nat, height: nat)
    requires k < width * height
    ensures width > 0
    ensures k % width < width && k / width < height
    ensures (k / width) * width + k % width == k
  {
    if k / width >= height {
      MulMonotone(height, k / width, width);
    }
  }
}
