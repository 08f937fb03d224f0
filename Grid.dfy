/**
 * Row-major addressing of a width-by-height raster held as one flat
 * sequence, as canvas ImageData and the brush tip are laid out.
 */
module Grid {

  /** Position of column `x`, row `y` in a row-major raster of width `w`. */
  function Offset(x: int, y: int, w: int): int
  {
    y * w + x
  }

  lemma MulMonotone(a: int, b: int, w: int)
    requires a <= b && w >= 0
    ensures a * w <= b * w
  {
    assert b * w - a * w == (b - a) * w;
  }

  /** Column and row can be read back from an offset by `%` and `/`. */
  lemma {:induction false} OffsetDivMod(x: int, y: int, w: int)
    requires 0 <= x < w
    ensures Offset(x, y, w) / w == y && Offset(x, y, w) % w == x
  {
    var k := Offset(x, y, w);
    var q, r := k / w, k % w;
    assert k == q * w + r && 0 <= r < w;
    assert (y - q) * w == r - x;
    if y - q >= 1 {
      MulMonotone(1, y - q, w);
      assert false;
    } else if y - q <= -1 {
      MulMonotone(y - q, -1, w);
      assert false;
    }
  }

  /** An in-bounds column and row give an in-bounds offset. */
  lemma {:induction false} OffsetInRange(x: int, y: int, w: int, h: int)
    requires 0 <= x < w && 0 <= y < h
    ensures 0 <= Offset(x, y, w) < w * h
  {
    MulMonotone(0, y, w);
    MulMonotone(y, h - 1, w);
    assert (h - 1) * w == h * w - w;
  }

  /** Every offset of a width-by-height raster names an in-bounds cell. */
  lemma {:induction false} CellInRange(k: int, w: nat, h: nat)
    requires 0 <= k < w * h
    ensures w > 0 && 0 <= k % w < w && 0 <= k / w < h
    ensures Offset(k % w, k / w, w) == k
  {
    var q := k / w;
    assert k == q * w + k % w;
    if q < 0 {
      MulMonotone(q, -1, w);
      assert false;
    }
    if q >= h {
      MulMonotone(h, q, w);
      assert false;
    }
  }
}
