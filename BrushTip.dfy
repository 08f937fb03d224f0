/**
 * The brush tip: a size-by-size square of coverage values, regenerated
 * whenever the brush size or hardness changes.  Hardness 100 gives a solid
 * disc of radius size/2; lower hardness gives an opaque core of radius
 * radius·hardness/100 fading linearly to nothing at the radius.
 *
 * How the canvas rasterises the circle (anti-aliasing, sampling) is not
 * modelled: a texel is covered by the coverage at the distance of its
 * centre from the tip's centre.  Real numbers have no square root here, so
 * that distance is a parameter `dist` required to be Euclidean.
 */
module BrushTip {
  import opened Grid
  import opened Geometry
  import Compositing

  function Radius(size: nat): real
  {
    size as real / 2.0
  }

  function InnerRadius(size: nat, hardness: int): real
  {
    Radius(size) * (hardness as real / 100.0)
  }

  /** 1 inside `inner`, linear falloff to 0 at `radius`, 0 beyond. */
  function Falloff(d: real, inner: real, radius: real): (c: real)
    requires inner < radius
    ensures 0.0 <= c <= 1.0
    ensures d <= inner ==> c == 1.0
    ensures d >= radius ==> c == 0.0
    ensures inner < d < radius ==> 0.0 < c < 1.0
  {
    if d <= inner then 1.0
    else if d >= radius then 0.0
    else (radius - d) / (radius - inner)
  }

  /** Coverage at distance `d` from the centre, for the given size and hardness. */
  function Coverage(size: nat, hardness: int, d: real): (c: real)
    requires 0 <= hardness <= 100
    ensures 0.0 <= c <= 1.0
  {
    if hardness >= 100 then (if d <= Radius(size) then 1.0 else 0.0)
    else if size == 0 then 0.0
    else Falloff(d, InnerRadius(size, hardness), Radius(size))
  }

  /** `dist(dx, dy)` is the length of the vector (dx, dy). */
  ghost predicate Euclidean(dist: (real, real) -> real)
  {
    forall dx: real, dy: real :: dist(dx, dy) >= 0.0 && Sq(dist(dx, dy)) == Sq(dx) + Sq(dy)
  }

  /**
   * Between non-negative numbers, comparing squares compares the numbers.
   */
  lemma {:induction false} SquareOrder(d: real, r: real)
    requires d >= 0.0 && r >= 0.0
    ensures d <= r <==> Sq(d) <= Sq(r)
  {
    assert r * r - d * d == (r - d) * (r + d);
    if d <= r {
      Compositing.MulNonNegative(r - d, r + d);
    } else {
      MulPositive(d - r, d + r);
    }
  }

  lemma MulPositive(a: real, b: real)
    requires a > 0.0 && b > 0.0
    ensures a * b > 0.0
  {
  }

  /** Offset of a texel centre from the tip centre, along one axis. */
  function TexelOffset(i: int, size: nat): real
  {
    i as real + 0.5 - Radius(size)
  }

  /** Coverage of the texel at row-major position `k`. */
  function TexelCoverage(size: nat, hardness: int, dist: (real, real) -> real, k: int): (c: real)
    requires 0 <= hardness <= 100 && 0 <= k < size * size
    ensures 0.0 <= c <= 1.0
  {
    CellInRange(k, size, size);
    Coverage(size, hardness, dist(TexelOffset(k % size, size), TexelOffset(k / size, size)))
  }

  /** The tip: one coverage value per texel, row-major. */
  function GenerateTip(size: nat, hardness: int, dist: (real, real) -> real): (tip: seq<real>)
    requires 0 <= hardness <= 100
    ensures |tip| == size * size
    ensures forall k | 0 <= k < |tip| :: 0.0 <= tip[k] <= 1.0
  {
    seq(size * size, k requires 0 <= k < size * size => TexelCoverage(size, hardness, dist, k))
  }

  /** Texel (i, j) of the tip holds the coverage at that texel's distance. */
  lemma TipTexel(size: nat, hardness: int, dist: (real, real) -> real, i: int, j: int)
    requires 0 <= hardness <= 100 && 0 <= i < size && 0 <= j < size
    ensures 0 <= Offset(i, j, size) < size * size
    ensures GenerateTip(size, hardness, dist)[Offset(i, j, size)]
            == Coverage(size, hardness, dist(TexelOffset(i, size), TexelOffset(j, size)))
  {
    OffsetInRange(i, j, size, size);
    OffsetDivMod(i, j, size);
  }

  /**
   * A fully hard tip is a solid disc of radius size/2: a texel is 1 exactly
   * when its centre lies within the radius, and 0 exactly when it lies
   * outside.
   */
  lemma {:induction false} HardTipIsDisc(size: nat, dist: (real, real) -> real, i: int, j: int)
    requires Euclidean(dist) && 0 <= i < size && 0 <= j < size
    ensures 0 <= Offset(i, j, size) < size * size
    ensures var t := GenerateTip(size, 100, dist)[Offset(i, j, size)];
      var dx, dy, r := TexelOffset(i, size), TexelOffset(j, size), Radius(size);
      && (t == 1.0 <==> Sq(dx) + Sq(dy) <= Sq(r))
      && (t == 0.0 <==> Sq(dx) + Sq(dy) > Sq(r))
  {
    TipTexel(size, 100, dist, i, j);
    var dx, dy := TexelOffset(i, size), TexelOffset(j, size);
    var d := dist(dx, dy);
    assert d >= 0.0 && Sq(d) == Sq(dx) + Sq(dy);
    SquareOrder(d, Radius(size));
  }

  /** A soft tip is opaque within the inner radius, clear beyond the radius and partial between. */
  lemma SoftTipFalloff(size: nat, hardness: int, d: real)
    requires 0 <= hardness < 100 && size > 0
    ensures InnerRadius(size, hardness) < Radius(size)
    ensures d <= InnerRadius(size, hardness) ==> Coverage(size, hardness, d) == 1.0
    ensures d >= Radius(size) ==> Coverage(size, hardness, d) == 0.0
    ensures InnerRadius(size, hardness) < d < Radius(size) ==> 0.0 < Coverage(size, hardness, d) < 1.0
  {
    assert Radius(size) * (hardness as real / 100.0) < Radius(size) * 1.0;
  }

  lemma DivideLeftMonotone(a: real, b: real, c: real)
    requires a >= b && c > 0.0
    ensures a / c >= b / c
  {
    assert a / c - b / c == (a - b) / c;
  }

  lemma {:induction false} DivideRightAntitone(n: real, c1: real, c2: real)
    requires n >= 0.0 && 0.0 < c1 <= c2
    ensures n / c2 <= n / c1
  {
    var x := n / c2;
    assert x >= 0.0;
    assert x * c2 == n;
    assert x * c1 <= x * c2 by { assert x * c2 - x * c1 == x * (c2 - c1); }
    assert x == (x * c1) / c1;
  }

  /** Coverage never increases with distance from the centre. */
  lemma {:induction false} CoverageDecreasing(size: nat, hardness: int, d1: real, d2: real)
    requires 0 <= hardness <= 100 && d1 <= d2
    ensures Coverage(size, hardness, d1) >= Coverage(size, hardness, d2)
  {
    if hardness < 100 && size > 0 {
      var inner, radius := InnerRadius(size, hardness), Radius(size);
      SoftTipFalloff(size, hardness, d1);
      if inner < d1 && d2 < radius {
        DivideLeftMonotone(radius - d1, radius - d2, radius - inner);
      }
    }
  }

  /** A harder brush covers at least as much at every distance. */
  lemma {:induction false} HarderCoversMore(size: nat, h1: int, h2: int, d: real)
    requires 0 <= h1 <= h2 <= 100
    ensures Coverage(size, h1, d) <= Coverage(size, h2, d)
  {
    if size > 0 && h2 < 100 {
      var r, i1, i2 := Radius(size), InnerRadius(size, h1), InnerRadius(size, h2);
      SoftTipFalloff(size, h1, d);
      SoftTipFalloff(size, h2, d);
      assert i1 <= i2 by {
        assert h1 as real / 100.0 <= h2 as real / 100.0;
      }
      if i2 < d < r {
        DivideRightAntitone(r - d, r - i2, r - i1);
      }
    } else if size > 0 && h1 < 100 {
      SoftTipFalloff(size, h1, d);
    }
  }
}
