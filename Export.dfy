/**
 * Export: the background layer painted under the edited cutout, the
 * cover-fit placement of a background photo, the file name and MIME type,
 * and the pixel-level flattening of the cutout onto the background.
 *
 * Colour parsing, gradient rasterisation, image decoding and PNG/JPEG
 * encoding belong to the browser and are not modelled: a background
 * layer is described by what is drawn, and flattening is stated on pixels.
 */
module Export {
  import opened Wrappers
  import opened Compositing

  datatype BgType = Transparent | Color | Gradient | ImageBg

  /** The background choice: a kind and a value (colour, gradient text or image URL). */
  datatype BgConfig = BgConfig(kind: BgType, value: string)

  const DefaultBackground := BgConfig(Transparent, "")

  /** `sub` occurs in `s` starting at position i. */
  predicate OccursAt(s: string, sub: string, i: int)
  {
    0 <= i <= |s| - |sub| && s[i..i + |sub|] == sub
  }

  /** JavaScript's String.prototype.includes. */
  predicate Includes(s: string, sub: string)
  {
    exists i | 0 <= i <= |s| - |sub| :: OccursAt(s, sub, i)
  }

  /** A colour stop of a linear gradient. */
  datatype Stop = Stop(offset: real, colour: string)

  /** The four gradient presets, tested in this order, as (key colour, end colour). */
  const Presets: seq<(string, string)> :=
    [("#ff7e5f", "#feb47b"), ("#43e97b", "#38f9d7"), ("#00c6ff", "#0072ff"), ("#f83600", "#f9d423")]

  /** The stops of the first preset whose key colour occurs in `value`, from preset `from` on. */
  function StopsFrom(value: string, from: nat): (stops: seq<Stop>)
    requires from <= |Presets|
    ensures stops == [] <==> forall j | from <= j < |Presets| :: !Includes(value, Presets[j].0)
    ensures stops != [] ==> exists j | from <= j < |Presets| ::
      && Includes(value, Presets[j].0)
      && (forall i | from <= i < j :: !Includes(value, Presets[i].0))
      && stops == [Stop(0.0, Presets[j].0), Stop(1.0, Presets[j].1)]
    decreases |Presets| - from
  {
    if from == |Presets| then []
    else if Includes(value, Presets[from].0) then [Stop(0.0, Presets[from].0), Stop(1.0, Presets[from].1)]
    else StopsFrom(value, from + 1)
  }

  /** The colour stops of a gradient background. */
  function GradientStops(value: string): (stops: seq<Stop>)
    ensures stops == [] <==> forall j | 0 <= j < |Presets| :: !Includes(value, Presets[j].0)
    ensures stops == [] || exists j | 0 <= j < |Presets| ::
      Includes(value, Presets[j].0) && stops == [Stop(0.0, Presets[j].0), Stop(1.0, Presets[j].1)]
  {
    StopsFrom(value, 0)
  }

  /** What is painted under the cutout. */
  datatype Layer =
    | Nothing
    | Fill(colour: string)
    | LinearFill(stops: seq<Stop>)
    | Placed(source: string, x: real, y: real, w: real, h: real)

  /** Scale and centre an image of w×h so it covers a W×H canvas: (scale, x, y). */
  function CoverFit(cw: real, ch: real, w: real, h: real): (r: (real, real, real))
    requires w > 0.0 && h > 0.0
    ensures r.0 >= cw / w && r.0 >= ch / h && (r.0 == cw / w || r.0 == ch / h)
    ensures r.1 + (w / 2.0) * r.0 == cw / 2.0 && r.2 + (h / 2.0) * r.0 == ch / 2.0
  {
    var scale := if cw / w >= ch / h then cw / w else ch / h;
    (scale, cw / 2.0 - (w / 2.0) * scale, ch / 2.0 - (h / 2.0) * scale)
  }

  /**
   * The background layer for a canvas of cw×ch.  `bgSize` is the size of
   * the background photo when it loaded, None when loading failed.
   */
  function BackgroundLayer(cfg: BgConfig, cw: real, ch: real, bgSize: Option<(real, real)>): (l: Layer)
    requires bgSize.Some? ==> bgSize.value.0 > 0.0 && bgSize.value.1 > 0.0
    ensures cfg.kind == Transparent ==> l == Nothing
    ensures cfg.kind == Color ==> l == Fill(cfg.value)
    ensures cfg.kind == Gradient ==>
      (if Includes(cfg.value, "gradient") then l == LinearFill(GradientStops(cfg.value)) else l == Nothing)
    ensures cfg.kind == ImageBg ==> (l.Placed? <==> cfg.value != "" && bgSize.Some?)
  {
    match cfg.kind
    case Transparent => Nothing
    case Color => Fill(cfg.value)
    case Gradient =>
      if Includes(cfg.value, "gradient") then LinearFill(GradientStops(cfg.value)) else Nothing
    case ImageBg =>
      if cfg.value != "" && bgSize.Some? then
        var (w, h) := bgSize.value;
        var (scale, x, y) := CoverFit(cw, ch, w, h);
        Placed(cfg.value, x, y, w * scale, h * scale)
      else Nothing
  }

  /** The MIME type passed to the encoder. */
  function MimeType(format: string): (m: string)
    ensures m == "image/png" <==> format == "png"
    ensures m == "image/png" || m == "image/jpeg"
  {
    if format == "png" then "image/png" else "image/jpeg"
  }

  /** The downloaded file's name. */
  function FileName(format: string): (n: string)
    ensures |n| == 11 + |format| && n[..11] == "removed-bg." && n[11..] == format
  {
    "removed-bg." + format
  }

  /** One download: file name, MIME type, canvas size and background layer. */
  datatype Job = Job(fileName: string, mimeType: string, width: real, height: real, background: Layer)

  /**
   * The download for the current cutout.  `fgSize` is its size when it
   * decoded, None when there is no cutout or it failed to load (nothing is
   * downloaded then).
   */
  function ExportJob(cfg: BgConfig, format: string, fgSize: Option<(real, real)>, bgSize: Option<(real, real)>): (j: Option<Job>)
    requires bgSize.Some? ==> bgSize.value.0 > 0.0 && bgSize.value.1 > 0.0
    ensures j.Some? <==> fgSize.Some?
    ensures j.Some? ==> j.value.width == fgSize.value.0 && j.value.height == fgSize.value.1
  {
    match fgSize
    case None => None
    case Some((cw, ch)) =>
      Some(Job(FileName(format), MimeType(format), cw, ch, BackgroundLayer(cfg, cw, ch, bgSize)))
  }

  /** The cutout drawn with source-over onto the painted background, pixel by pixel. */
  function Flatten(background: seq<Pixel>, cutout: seq<Pixel>): (r: seq<Pixel>)
    requires |background| == |cutout| && AllValid(background) && AllValid(cutout)
    ensures |r| == |cutout| && AllValid(r)
    ensures forall k | 0 <= k < |r| ::
      r[k].a == cutout[k].a + background[k].a * (1.0 - cutout[k].a)
  {
    seq(|cutout|, k requires 0 <= k < |cutout| => Composite(SourceOver, cutout[k], 1.0, background[k]))
  }

  // ----- properties -----

  lemma MulMonotoneReal(a: real, b: real, c: real)
    requires a <= b && c >= 0.0
    ensures a * c <= b * c
  {
    assert b * c - a * c == (b - a) * c;
  }

  /**
   * Cover-fit covers the canvas, is the smallest scale that does, and is
   * centred: the overflow is split evenly and both offsets are ≤ 0.
   */
  lemma {:induction false} CoverFitCovers(cw: real, ch: real, w: real, h: real)
    requires w > 0.0 && h > 0.0 && cw >= 0.0 && ch >= 0.0
    ensures var (scale, x, y) := CoverFit(cw, ch, w, h);
      && w * scale >= cw && h * scale >= ch
      && (w * scale == cw || h * scale == ch)
      && x <= 0.0 && y <= 0.0
      && x + w * scale / 2.0 == cw / 2.0 && y + h * scale / 2.0 == ch / 2.0
  {
    var (scale, x, y) := CoverFit(cw, ch, w, h);
    assert w * (cw / w) == cw;
    assert h * (ch / h) == ch;
    if cw / w >= ch / h {
      MulMonotoneReal(ch / h, cw / w, h);
    } else {
      MulMonotoneReal(cw / w, ch / h, w);
    }
    assert (w / 2.0) * scale == w * scale / 2.0;
    assert (h / 2.0) * scale == h * scale / 2.0;
  }

  /** A gradient value naming none of the four preset colours gets no colour stops. */
  lemma UnknownGradientHasNoStops(value: string)
    requires forall j | 0 <= j < |Presets| :: !Includes(value, Presets[j].0)
    ensures GradientStops(value) == []
  {
  }

  /** The first preset colour found in the value decides the gradient, even when later ones occur too. */
  lemma FirstPresetWins(value: string, j: nat)
    requires j < |Presets| && Includes(value, Presets[j].0)
    requires forall i | 0 <= i < j :: !Includes(value, Presets[i].0)
    ensures GradientStops(value) == [Stop(0.0, Presets[j].0), Stop(1.0, Presets[j].1)]
  {
    var stops := GradientStops(value);
    var k :| 0 <= k < |Presets| && Includes(value, Presets[k].0)
      && (forall i | 0 <= i < k :: !Includes(value, Presets[i].0))
      && stops == [Stop(0.0, Presets[k].0), Stop(1.0, Presets[k].1)];
    assert k == j;
  }

  /** An opaque background gives an opaque result, whatever the cutout. */
  lemma {:induction false} FlattenOntoOpaqueIsOpaque(background: seq<Pixel>, cutout: seq<Pixel>)
    requires |background| == |cutout| && AllValid(background) && AllValid(cutout)
    requires forall k | 0 <= k < |background| :: background[k].a == 1.0
    ensures forall k | 0 <= k < |cutout| :: Flatten(background, cutout)[k].a == 1.0
  {
  }

  /** With nothing painted behind it, the cutout comes out looking as it went in. */
  lemma {:induction false} FlattenOntoNothingKeepsCutout(background: seq<Pixel>, cutout: seq<Pixel>)
    requires |background| == |cutout| && AllValid(background) && AllValid(cutout)
    requires forall k | 0 <= k < |background| :: background[k] == Clear
    ensures forall k | 0 <= k < |cutout| :: SameLook(Flatten(background, cutout)[k], cutout[k])
  {
    var r := Flatten(background, cutout);
    forall k | 0 <= k < |cutout|
      ensures SameLook(r[k], cutout[k])
    {
      SourceOverOntoClear(cutout[k], 1.0, background[k]);
      var c := cutout[k];
      if c.a > 0.0 {
        assert c.a * 1.0 == c.a;
      }
    }
  }

  /** Where the cutout is opaque the background does not show through. */
  lemma {:induction false} OpaqueCutoutHidesBackground(background: seq<Pixel>, cutout: seq<Pixel>, k: int)
    requires |background| == |cutout| && AllValid(background) && AllValid(cutout)
    requires 0 <= k < |cutout| && cutout[k].a == 1.0
    ensures Flatten(background, cutout)[k] == cutout[k]
  {
    SourceOverOpaque(cutout[k], background[k]);
  }
}
