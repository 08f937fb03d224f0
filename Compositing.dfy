/**
 * RGBA samples and the three Porter-Duff operators the editor sets as
 * `globalCompositeOperation`: source-over, source-in and destination-out,
 * as defined in section 9.1 (Porter Duff compositing operators) of W3C
 * Compositing and Blending Level 1.
 *
 * A pixel holds non-premultiplied components in [0, 1], as ImageData
 * exposes them.  Compositing works on premultiplied values:
 *   αo = αs·Fa + αb·Fb,   co·αo = cs·αs·Fa + cb·αb·Fb
 * where αs already includes the context's `globalAlpha`.
 */
module Compositing {

  datatype Pixel = Pixel(r: real, g: real, b: real, a: real)

  predicate Unit(v: real)
  {
    0.0 <= v <= 1.0
  }

  predicate ValidPixel(p: Pixel)
  {
    Unit(p.r) && Unit(p.g) && Unit(p.b) && Unit(p.a)
  }

  predicate AllValid(s: seq<Pixel>)
  {
    forall k | 0 <= k < |s| :: ValidPixel(s[k])
  }

  /** Transparent black: what a canvas holds where nothing is painted. */
  const Clear := Pixel(0.0, 0.0, 0.0, 0.0)

  /** Two pixels look the same: equal, or both fully transparent. */
  predicate SameLook(p: Pixel, q: Pixel)
  {
    p == q || (p.a == 0.0 && q.a == 0.0)
  }

  datatype Op = SourceOver | SourceIn | DestinationOut

  /** Fa of section 9.1, given the backdrop alpha αb. */
  function SourceFactor(op: Op, ab: real): real
  {
    match op
    case SourceOver => 1.0
    case SourceIn => ab
    case DestinationOut => 0.0
  }

  /** Fb of section 9.1, given the (already globalAlpha-scaled) source alpha αs. */
  function BackdropFactor(op: Op, sa: real): real
  {
    match op
    case SourceOver => 1.0 - sa
    case SourceIn => 0.0
    case DestinationOut => 1.0 - sa
  }

  lemma MulNonNegative(a: real, b: real)
    requires a >= 0.0 && b >= 0.0
    ensures a * b >= 0.0
  {
  }

  lemma QuotientInUnit(n: real, d: real)
    requires 0.0 <= n <= d && d > 0.0
    ensures Unit(n / d)
  {
  }

  lemma {:induction false} WeightedMeanInUnit(cs: real, cb: real, x: real, y: real)
    requires Unit(cs) && Unit(cb) && x >= 0.0 && y >= 0.0 && x + y > 0.0
    ensures Unit((cs * x + cb * y) / (x + y))
  {
    MulNonNegative(1.0 - cs, x);
    MulNonNegative(1.0 - cb, y);
    MulNonNegative(cs, x);
    MulNonNegative(cb, y);
    QuotientInUnit(cs * x + cb * y, x + y);
  }

  /** One colour channel of the composite, un-premultiplied. */
  function Channel(cs: real, x: real, cb: real, y: real): (c: real)
    requires Unit(cs) && Unit(cb) && x >= 0.0 && y >= 0.0 && x + y > 0.0
    ensures Unit(c)
  {
    WeightedMeanInUnit(cs, cb, x, y);
    (cs * x + cb * y) / (x + y)
  }

  /** The premultiplied weights αs·Fa and αb·Fb are non-negative and sum to at most 1. */
  lemma {:induction false} WeightsInUnit(op: Op, sa: real, ab: real)
    requires Unit(sa) && Unit(ab)
    ensures var x, y := sa * SourceFactor(op, ab), ab * BackdropFactor(op, sa);
      x >= 0.0 && y >= 0.0 && x + y <= 1.0
  {
    match op
    case SourceOver =>
      MulNonNegative(1.0 - ab, 1.0 - sa);
      MulNonNegative(ab, 1.0 - sa);
    case SourceIn =>
      MulNonNegative(1.0 - ab, sa);
      MulNonNegative(sa, ab);
    case DestinationOut =>
      MulNonNegative(ab, sa);
      MulNonNegative(ab, 1.0 - sa);
  }

  lemma {:induction false} ScaledAlphaInUnit(a: real, globalAlpha: real)
    requires Unit(a) && Unit(globalAlpha)
    ensures Unit(a * globalAlpha)
  {
    MulNonNegative(1.0 - globalAlpha, a);
    MulNonNegative(a, globalAlpha);
  }

  /**
   * Composites source `s`, drawn with `globalAlpha`, onto backdrop `d`.
   * A result with zero alpha is transparent black.
   */
  function Composite(op: Op, s: Pixel, globalAlpha: real, d: Pixel): (o: Pixel)
    requires ValidPixel(s) && ValidPixel(d) && Unit(globalAlpha)
    ensures ValidPixel(o)
    ensures o.a == s.a * globalAlpha * SourceFactor(op, d.a)
                   + d.a * BackdropFactor(op, s.a * globalAlpha)
  {
    var sa := s.a * globalAlpha;
    ScaledAlphaInUnit(s.a, globalAlpha);
    var x := sa * SourceFactor(op, d.a);
    var y := d.a * BackdropFactor(op, sa);
    WeightsInUnit(op, sa, d.a);
    if x + y == 0.0 then Clear
    else
      Pixel(Channel(s.r, x, d.r, y), Channel(s.g, x, d.g, y), Channel(s.b, x, d.b, y), x + y)
  }

  /**
   * destination-out keeps the backdrop's colour and scales its alpha by
   * (1 − αs): it can only make a pixel more transparent.
   */
  lemma DestinationOutScalesAlpha(s: Pixel, globalAlpha: real, d: Pixel)
    requires ValidPixel(s) && ValidPixel(d) && Unit(globalAlpha)
    ensures var o := Composite(DestinationOut, s, globalAlpha, d);
      && o.a == d.a * (1.0 - s.a * globalAlpha)
      && o.a <= d.a
      && (o.a > 0.0 ==> o.r == d.r && o.g == d.g && o.b == d.b)
  {
    var sa := s.a * globalAlpha;
    var y := d.a * (1.0 - sa);
    ScaledAlphaInUnit(s.a, globalAlpha);
    MulNonNegative(d.a, sa);
    if y > 0.0 {
      assert (d.r * y) / y == d.r;
      assert (d.g * y) / y == d.g;
      assert (d.b * y) / y == d.b;
    }
  }

  /** source-in keeps the source's colour with alpha αs·αb. */
  lemma SourceInTakesSourceColour(s: Pixel, globalAlpha: real, d: Pixel)
    requires ValidPixel(s) && ValidPixel(d) && Unit(globalAlpha)
    ensures var o := Composite(SourceIn, s, globalAlpha, d);
      && o.a == s.a * globalAlpha * d.a
      && (o.a > 0.0 ==> o.r == s.r && o.g == s.g && o.b == s.b)
  {
    var x := s.a * globalAlpha * d.a;
    if x > 0.0 {
      assert (s.r * x) / x == s.r;
      assert (s.g * x) / x == s.g;
      assert (s.b * x) / x == s.b;
    }
  }

  /** source-over with an opaque source replaces the backdrop. */
  lemma SourceOverOpaque(s: Pixel, d: Pixel)
    requires ValidPixel(s) && ValidPixel(d) && s.a == 1.0
    ensures Composite(SourceOver, s, 1.0, d) == s
  {
    assert (s.r * 1.0 + d.r * 0.0) / 1.0 == s.r;
    assert (s.g * 1.0 + d.g * 0.0) / 1.0 == s.g;
    assert (s.b * 1.0 + d.b * 0.0) / 1.0 == s.b;
  }

  /** source-over with an invisible source leaves the backdrop's look unchanged. */
  lemma SourceOverInvisible(s: Pixel, globalAlpha: real, d: Pixel)
    requires ValidPixel(s) && ValidPixel(d) && Unit(globalAlpha)
    requires s.a * globalAlpha == 0.0
    ensures SameLook(Composite(SourceOver, s, globalAlpha, d), d)
  {
    if d.a > 0.0 {
      assert (d.r * d.a) / d.a == d.r;
      assert (d.g * d.a) / d.a == d.g;
      assert (d.b * d.a) / d.a == d.b;
    }
  }

  /** source-over onto a fully transparent backdrop yields the scaled source. */
  lemma SourceOverOntoClear(s: Pixel, globalAlpha: real, d: Pixel)
    requires ValidPixel(s) && ValidPixel(d) && Unit(globalAlpha) && d.a == 0.0
    ensures var o := Composite(SourceOver, s, globalAlpha, d);
      && o.a == s.a * globalAlpha
      && (o.a > 0.0 ==> o.r == s.r && o.g == s.g && o.b == s.b)
  {
    var x := s.a * globalAlpha;
    if x > 0.0 {
      assert (s.r * x + d.r * 0.0) / x == s.r;
      assert (s.g * x + d.g * 0.0) / x == s.g;
      assert (s.b * x + d.b * 0.0) / x == s.b;
    }
  }
}
