/**
 * What one brush stamp does to the editing buffer.
 *
 * The footprint is the size-by-size square whose top-left corner is the
 * stamp centre minus size/2, snapped to the pixel grid.  The stamp is
 * drawn with global alpha opacity/100.  Erase composites the tip onto the
 * buffer with destination-out.  Restore first masks the same-position
 * square of the original photo with the tip (source-in, on a scratch
 * canvas at full alpha) and then draws that with source-over; when no
 * original is loaded it draws nothing.  Writes that fall outside the
 * buffer are clipped.
 */
module Blend {
  import opened Wrappers
  import opened Grid
  import opened Compositing
  import opened Geometry

  datatype Tool = Erase | Restore

  /** A raster held row-major, as ImageData holds it. */
  datatype Image = Image(width: nat, height: nat, pixels: seq<Pixel>)

  predicate WellFormed(img: Image)
  {
    |img.pixels| == img.width * img.height && AllValid(img.pixels)
  }

  /** The pixel at (x, y); transparent outside the image. */
  function PixelAt(img: Image, x: int, y: int): (p: Pixel)
    requires WellFormed(img)
    ensures ValidPixel(p)
    ensures !(0 <= x < img.width && 0 <= y < img.height) ==> p == Clear
  {
    if 0 <= x < img.width && 0 <= y < img.height then
      OffsetInRange(x, y, img.width, img.height);
      img.pixels[Offset(x, y, img.width)]
    else Clear
  }

  /** The brush state a stamp reads: size, generated tip, opacity 0–100, tool. */
  datatype Brush = Brush(size: nat, tip: seq<real>, opacity: int, tool: Tool)

  predicate ValidBrush(b: Brush)
  {
    && |b.tip| == b.size * b.size
    && (forall i | 0 <= i < |b.tip| :: 0.0 <= b.tip[i] <= 1.0)
    && 0 <= b.opacity <= 100
  }

  /** The canvas global alpha a stamp is drawn with. */
  function StampAlpha(opacity: int): (alpha: real)
    requires 0 <= opacity <= 100
    ensures Unit(alpha)
    ensures opacity == 100 ==> alpha == 1.0
    ensures opacity == 0 ==> alpha == 0.0
  {
    opacity as real / 100.0
  }

  /** The tip texel as a source pixel: black with the texel's coverage as alpha. */
  function TipPixel(t: real): Pixel
  {
    Pixel(0.0, 0.0, 0.0, t)
  }

  /** Top-left corner of the footprint along one axis, snapped to the pixel grid. */
  function Origin(c: real, size: nat): (o: int)
    ensures o as real <= c - size as real / 2.0 < o as real + 1.0
  {
    (c - size as real / 2.0).Floor
  }

  /**
   * The new value of one covered buffer pixel `dst` under tip coverage `t`,
   * where `orig` is the original photo's pixel at the same position (None
   * when no original is loaded).
   */
  function StampPixel(dst: Pixel, t: real, opacity: int, tool: Tool, orig: Option<Pixel>): (p: Pixel)
    requires ValidPixel(dst) && 0.0 <= t <= 1.0 && 0 <= opacity <= 100
    requires orig.Some? ==> ValidPixel(orig.value)
    ensures ValidPixel(p)
  {
    match tool
    case Erase => Composite(DestinationOut, TipPixel(t), StampAlpha(opacity), dst)
    case Restore =>
      match orig
      case None => dst
      case Some(o) => Composite(SourceOver, Composite(SourceIn, o, 1.0, TipPixel(t)), StampAlpha(opacity), dst)
  }

  /** The original photo's pixel at (x, y), if an original is loaded. */
  function OriginalAt(original: Option<Image>, x: int, y: int): (o: Option<Pixel>)
    requires original.Some? ==> WellFormed(original.value)
    ensures o.Some? <==> original.Some?
    ensures o.Some? ==> ValidPixel(o.value)
  {
    match original
    case None => None
    case Some(img) => Some(PixelAt(img, x, y))
  }

  /** Whether buffer cell (x, y) lies in the footprint with top-left (ox, oy). */
  predicate InFootprint(x: int, y: int, ox: int, oy: int, size: nat)
  {
    ox <= x < ox + size && oy <= y < oy + size
  }

  /** The tip coverage over buffer cell (x, y) of a footprint with top-left (ox, oy). */
  function TipAt(b: Brush, x: int, y: int, ox: int, oy: int): (t: real)
    requires ValidBrush(b) && InFootprint(x, y, ox, oy, b.size)
    ensures 0.0 <= t <= 1.0
  {
    OffsetInRange(x - ox, y - oy, b.size, b.size);
    b.tip[Offset(x - ox, y - oy, b.size)]
  }

  /** A buffer of `w` columns and `h` rows of valid pixels. */
  predicate Raster(pixels: seq<Pixel>, w: nat, h: nat)
  {
    |pixels| == w * h && AllValid(pixels)
  }

  /** The new value of buffer cell k after a stamp with top-left (ox, oy). */
  function StampedCell(pixels: seq<Pixel>, w: nat, h: nat, b: Brush, original: Option<Image>,
                       ox: int, oy: int, k: int): (p: Pixel)
    requires Raster(pixels, w, h) && ValidBrush(b) && 0 <= k < |pixels|
    requires original.Some? ==> WellFormed(original.value)
    ensures ValidPixel(p)
  {
    CellInRange(k, w, h);
    var x, y := k % w, k / w;
    if InFootprint(x, y, ox, oy, b.size) then
      StampPixel(pixels[k], TipAt(b, x, y, ox, oy), b.opacity, b.tool, OriginalAt(original, x, y))
    else pixels[k]
  }

  /** The whole buffer after a stamp with top-left (ox, oy). */
  function StampImage(pixels: seq<Pixel>, w: nat, h: nat, b: Brush, original: Option<Image>,
                      ox: int, oy: int): (r: seq<Pixel>)
    requires Raster(pixels, w, h) && ValidBrush(b)
    requires original.Some? ==> WellFormed(original.value)
    ensures Raster(r, w, h)
    ensures forall k | 0 <= k < |r| :: r[k] == StampedCell(pixels, w, h, b, original, ox, oy, k)
  {
    seq(|pixels|, k requires 0 <= k < |pixels| => StampedCell(pixels, w, h, b, original, ox, oy, k))
  }

  /** The buffer after a stamp centred at `c`. */
  function StampAt(pixels: seq<Pixel>, w: nat, h: nat, b: Brush, original: Option<Image>, c: Point): (r: seq<Pixel>)
    requires Raster(pixels, w, h) && ValidBrush(b)
    requires original.Some? ==> WellFormed(original.value)
    ensures Raster(r, w, h)
  {
    StampImage(pixels, w, h, b, original, Origin(c.x, b.size), Origin(c.y, b.size))
  }

  /** The buffer after stamping at each centre of `cs` in turn. */
  function ApplyStamps(pixels: seq<Pixel>, w: nat, h: nat, b: Brush, original: Option<Image>, cs: seq<Point>): (r: seq<Pixel>)
    requires Raster(pixels, w, h) && ValidBrush(b)
    requires original.Some? ==> WellFormed(original.value)
    ensures Raster(r, w, h)
    decreases |cs|
  {
    if cs == [] then pixels
    else StampAt(ApplyStamps(pixels, w, h, b, original, cs[..|cs| - 1]), w, h, b, original, cs[|cs| - 1])
  }

  /** Stamping the first n + 1 centres is stamping the first n, then the next one. */
  lemma ApplyOneMore(pixels: seq<Pixel>, w: nat, h: nat, b: Brush, original: Option<Image>, cs: seq<Point>, n: nat)
    requires Raster(pixels, w, h) && ValidBrush(b)
    requires original.Some? ==> WellFormed(original.value)
    requires n < |cs|
    ensures ApplyStamps(pixels, w, h, b, original, cs[..n + 1])
         == StampAt(ApplyStamps(pixels, w, h, b, original, cs[..n]), w, h, b, original, cs[n])
  {
    assert cs[..n + 1][..n] == cs[..n];
  }

  // ----- properties -----

  /** A stamp touches only the cells of its footprint. */
  lemma StampOnlyTouchesFootprint(pixels: seq<Pixel>, w: nat, h: nat, b: Brush, original: Option<Image>,
                                  ox: int, oy: int, x: int, y: int)
    requires Raster(pixels, w, h) && ValidBrush(b)
    requires original.Some? ==> WellFormed(original.value)
    requires 0 <= x < w && 0 <= y < h && !InFootprint(x, y, ox, oy, b.size)
    ensures var k := Offset(x, y, w);
      0 <= k < |pixels| && StampImage(pixels, w, h, b, original, ox, oy)[k] == pixels[k]
  {
    var k := Offset(x, y, w);
    OffsetInRange(x, y, w, h);
    OffsetDivMod(x, y, w);
  }

  /**
   * An erase stamp keeps every pixel's colour and scales its alpha by
   * (1 − coverage·opacity/100): it can only make pixels more transparent.
   */
  lemma {:induction false} EraseScalesAlpha(pixels: seq<Pixel>, w: nat, h: nat, b: Brush, original: Option<Image>,
                                            ox: int, oy: int, x: int, y: int)
    requires Raster(pixels, w, h) && ValidBrush(b) && b.tool == Erase
    requires original.Some? ==> WellFormed(original.value)
    requires 0 <= x < w && 0 <= y < h
    ensures var k := Offset(x, y, w);
      var t := if InFootprint(x, y, ox, oy, b.size) then TipAt(b, x, y, ox, oy) else 0.0;
      var r := StampImage(pixels, w, h, b, original, ox, oy);
      && 0 <= k < |pixels|
      && r[k].a == pixels[k].a * (1.0 - t * StampAlpha(b.opacity))
      && r[k].a <= pixels[k].a
      && (r[k].a > 0.0 ==> r[k].r == pixels[k].r && r[k].g == pixels[k].g && r[k].b == pixels[k].b)
  {
    var k := Offset(x, y, w);
    OffsetInRange(x, y, w, h);
    OffsetDivMod(x, y, w);
    if InFootprint(x, y, ox, oy, b.size) {
      var t := TipAt(b, x, y, ox, oy);
      DestinationOutScalesAlpha(TipPixel(t), StampAlpha(b.opacity), pixels[k]);
    }
  }

  /** With no original loaded, a restore stamp leaves the buffer as it was. */
  lemma RestoreWithoutOriginalIsNoOp(pixels: seq<Pixel>, w: nat, h: nat, b: Brush, ox: int, oy: int)
    requires Raster(pixels, w, h) && ValidBrush(b) && b.tool == Restore
    ensures StampImage(pixels, w, h, b, None, ox, oy) == pixels
  {
  }

  /** A whole restore stroke without an original leaves the buffer as it was. */
  lemma {:induction false} RestoreStrokeWithoutOriginalIsNoOp(pixels: seq<Pixel>, w: nat, h: nat, b: Brush, cs: seq<Point>)
    requires Raster(pixels, w, h) && ValidBrush(b) && b.tool == Restore
    ensures ApplyStamps(pixels, w, h, b, None, cs) == pixels
    decreases |cs|
  {
    if cs != [] {
      var c := cs[|cs| - 1];
      RestoreStrokeWithoutOriginalIsNoOp(pixels, w, h, b, cs[..|cs| - 1]);
      RestoreWithoutOriginalIsNoOp(pixels, w, h, b, Origin(c.x, b.size), Origin(c.y, b.size));
    }
  }

  /** A whole erase stroke never raises any pixel's alpha. */
  lemma {:induction false} EraseStrokeLowersAlpha(pixels: seq<Pixel>, w: nat, h: nat, b: Brush,
                                                  original: Option<Image>, cs: seq<Point>, x: int, y: int)
    requires Raster(pixels, w, h) && ValidBrush(b) && b.tool == Erase
    requires original.Some? ==> WellFormed(original.value)
    requires 0 <= x < w && 0 <= y < h
    ensures var k := Offset(x, y, w);
      0 <= k < |pixels| && ApplyStamps(pixels, w, h, b, original, cs)[k].a <= pixels[k].a
    decreases |cs|
  {
    OffsetInRange(x, y, w, h);
    if cs != [] {
      var c := cs[|cs| - 1];
      var before := ApplyStamps(pixels, w, h, b, original, cs[..|cs| - 1]);
      EraseStrokeLowersAlpha(pixels, w, h, b, original, cs[..|cs| - 1], x, y);
      EraseScalesAlpha(before, w, h, b, original, Origin(c.x, b.size), Origin(c.y, b.size), x, y);
    }
  }

  /**
   * Restoring at full coverage and full opacity over a pixel that was
   * erased to transparency brings back the original photo's pixel.
   */
  lemma RestoreRecoversErased(dst: Pixel, orig: Pixel)
    requires ValidPixel(dst) && ValidPixel(orig)
    ensures var erased := StampPixel(dst, 1.0, 100, Erase, None);
      && erased.a == 0.0
      && SameLook(StampPixel(erased, 1.0, 100, Restore, Some(orig)), orig)
  {
    var erased := StampPixel(dst, 1.0, 100, Erase, None);
    DestinationOutScalesAlpha(TipPixel(1.0), 1.0, dst);
    var masked := Composite(SourceIn, orig, 1.0, TipPixel(1.0));
    SourceInTakesSourceColour(orig, 1.0, TipPixel(1.0));
    SourceOverOntoClear(masked, 1.0, erased);
  }

  /** Full-strength erase, then full-strength restore, over a whole footprint cell. */
  lemma {:induction false} EraseThenRestoreCell(pixels: seq<Pixel>, w: nat, h: nat, b: Brush, img: Image,
                                                ox: int, oy: int, x: int, y: int)
    requires Raster(pixels, w, h) && ValidBrush(b) && WellFormed(img)
    requires b.opacity == 100 && 0 <= x < w && 0 <= y < h
    requires InFootprint(x, y, ox, oy, b.size) && TipAt(b, x, y, ox, oy) == 1.0
    ensures var k := Offset(x, y, w);
      var erased := StampImage(pixels, w, h, b.(tool := Erase), Some(img), ox, oy);
      var restored := StampImage(erased, w, h, b.(tool := Restore), Some(img), ox, oy);
      0 <= k < |pixels| && SameLook(restored[k], PixelAt(img, x, y))
  {
    var k := Offset(x, y, w);
    OffsetInRange(x, y, w, h);
    OffsetDivMod(x, y, w);
    var erased := StampImage(pixels, w, h, b.(tool := Erase), Some(img), ox, oy);
    assert erased[k] == StampPixel(pixels[k], 1.0, 100, Erase, Some(PixelAt(img, x, y)));
    RestoreRecoversErased(pixels[k], PixelAt(img, x, y));
  }
}
