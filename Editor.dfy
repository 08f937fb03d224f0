/**
 * The edit session of the result view: the canvas buffer, the brush
 * settings, the stroke in progress, the undo/redo history, the zoom and
 * the chosen export background, as one object whose handlers update them.
 *
 * Pointer coordinates arrive in display space and are mapped to buffer
 * space.  The Euclidean length of a move (Math.hypot) is supplied by the
 * caller together with the move, since square roots are not part of the
 * model; the rasteriser's texel distance for the brush tip is fixed when
 * the session is created.
 */
module Editor {
  import opened Wrappers
  import opened Grid
  import opened Compositing
  import opened Geometry
  import opened BrushTip
  import opened Stroke
  import opened Blend
  import opened History
  import opened Export

  /** Brush-size slider range and the session's initial brush. */
  const MinSize: nat := 5
  const MaxSize: nat := 100
  const InitialSize: nat := 20
  const FullHardness: int := 100
  const FullOpacity: int := 100

  function Max(a: int, b: int): int { if a >= b then a else b }
  function Min(a: int, b: int): int { if a <= b then a else b }

  /** The cells of row y, in row-major order, that come before column x. */
  predicate Before(k: int, w: nat, y: int, x: int)
    requires w > 0
  {
    k / w < y || (k / w == y && k % w < x)
  }

  /** Stamping changes no cell outside the footprint with top-left (ox, oy). */
  predicate KeepsOutside(before: seq<Pixel>, target: seq<Pixel>, w: nat, ox: int, oy: int, size: nat)
    requires w > 0 && |target| == |before|
  {
    forall k | 0 <= k < |before| :: !InFootprint(k % w, k / w, ox, oy, size) ==> target[k] == before[k]
  }

  /** The buffer part-way through a stamp: the cells before (x, y) hold their stamped values. */
  function Partial(before: seq<Pixel>, target: seq<Pixel>, w: nat, y: int, x: int): (r: seq<Pixel>)
    requires w > 0 && |target| == |before|
    ensures |r| == |before|
    ensures forall k | 0 <= k < |r| :: r[k] == if Before(k, w, y, x) then target[k] else before[k]
  {
    seq(|before|, k requires 0 <= k < |before| => if Before(k, w, y, x) then target[k] else before[k])
  }

  /** Rows above the footprint and cells left of it need no work. */
  lemma {:induction false} PartialStart(before: seq<Pixel>, target: seq<Pixel>, w: nat, h: nat,
                                        ox: int, oy: int, size: nat, y: int)
    requires |before| == w * h && w > 0 && |target| == |before| && KeepsOutside(before, target, w, ox, oy, size)
    ensures Partial(before, target, w, y, Max(ox, 0)) == Partial(before, target, w, y, 0)
    ensures y == Max(oy, 0) ==> Partial(before, target, w, y, 0) == before
  {
    forall k | 0 <= k < |before|
      ensures Partial(before, target, w, y, Max(ox, 0))[k] == Partial(before, target, w, y, 0)[k]
      ensures y == Max(oy, 0) ==> Partial(before, target, w, y, 0)[k] == before[k]
    {
      CellInRange(k, w, h);
    }
  }

  /** Writing the stamped value of cell (x, y) advances the write position by one. */
  lemma {:induction false} PartialStep(before: seq<Pixel>, target: seq<Pixel>, w: nat, h: nat, y: int, x: int)
    requires |before| == w * h && |target| == |before| && 0 <= x < w && 0 <= y < h
    ensures 0 <= Offset(x, y, w) < |before|
    ensures Partial(before, target, w, y, x)[Offset(x, y, w) := target[Offset(x, y, w)]]
         == Partial(before, target, w, y, x + 1)
  {
    OffsetInRange(x, y, w, h);
    OffsetDivMod(x, y, w);
    forall k | 0 <= k < |before|
      ensures Before(k, w, y, x + 1) <==> Before(k, w, y, x) || k == Offset(x, y, w)
    {
      CellInRange(k, w, h);
    }
  }

  /** Past the footprint's right edge the rest of the row needs no work. */
  lemma {:induction false} PartialRowEnd(before: seq<Pixel>, target: seq<Pixel>, w: nat, h: nat,
                                         ox: int, oy: int, size: nat, y: int, x: int)
    requires |before| == w * h && w > 0 && |target| == |before| && KeepsOutside(before, target, w, ox, oy, size)
    requires x >= Min(ox + size, w)
    ensures Partial(before, target, w, y, x) == Partial(before, target, w, y + 1, 0)
  {
    forall k | 0 <= k < |before|
      ensures Partial(before, target, w, y, x)[k] == Partial(before, target, w, y + 1, 0)[k]
    {
      CellInRange(k, w, h);
    }
  }

  /** Below the footprint's bottom edge nothing is left to do. */
  lemma {:induction false} PartialDone(before: seq<Pixel>, target: seq<Pixel>, w: nat, h: nat,
                                       ox: int, oy: int, size: nat, y: int)
    requires |before| == w * h && w > 0 && |target| == |before| && KeepsOutside(before, target, w, ox, oy, size)
    requires y >= Min(oy + size, h)
    ensures Partial(before, target, w, y, 0) == target
  {
    forall k | 0 <= k < |before|
      ensures Partial(before, target, w, y, 0)[k] == target[k]
    {
      CellInRange(k, w, h);
    }
  }

  /** The stamped buffer differs from the old one only inside the footprint. */
  lemma {:induction false} StampKeepsOutside(pixels: seq<Pixel>, w: nat, h: nat, b: Brush, original: Option<Image>,
                                             ox: int, oy: int)
    requires Raster(pixels, w, h) && ValidBrush(b) && w > 0
    requires original.Some? ==> WellFormed(original.value)
    ensures KeepsOutside(pixels, StampImage(pixels, w, h, b, original, ox, oy), w, ox, oy, b.size)
  {
  }

  /** The stamps of a move are those of its segment, if any, then one at its end point. */
  lemma ApplyMove(pixels: seq<Pixel>, w: nat, h: nat, b: Brush, original: Option<Image>,
                  prev: Point, p1: Point, dist: real, step: real)
    requires Raster(pixels, w, h) && ValidBrush(b) && (original.Some? ==> WellFormed(original.value))
    requires dist >= 0.0 && step > 0.0
    ensures ApplyStamps(pixels, w, h, b, original, MoveStamps(prev, p1, dist, step))
         == StampAt(if dist > step then ApplyStamps(pixels, w, h, b, original, SegmentStamps(prev, p1, dist, step))
                    else pixels, w, h, b, original, p1)
  {
    var stamps := if dist > step then SegmentStamps(prev, p1, dist, step) else [];
    assert MoveStamps(prev, p1, dist, step) == stamps + [p1];
    assert (stamps + [p1])[..|stamps|] == stamps;
  }

  /** Every snapshot of a history fits a buffer of n valid pixels. */
  ghost predicate FramesFit(h: seq<seq<Pixel>>, n: nat)
  {
    forall f | f in h :: |f| == n && AllValid(f)
  }

  /**
   * Committing a snapshot that fits keeps every snapshot fitting; the
   * entries are the kept prefix plus the snapshot, less the oldest entry
   * when that exceeds Capacity.
   */
  lemma CommitKeepsFrames(h: seq<seq<Pixel>>, index: int, s: seq<Pixel>, n: nat)
    requires WellShaped(h, index) && FramesFit(h, n) && |s| == n && AllValid(s)
    ensures var r := Commit(State(h, index), s);
      && WellShaped(r.entries, r.index) && FramesFit(r.entries, n)
      && r.index == |r.entries| - 1
      && var kept := SlicePrefix(h, index + 1) + [s];
         r.entries == if |kept| > Capacity then kept[1..] else kept
  {
    CommitShape(State(h, index), s);
    CommitAddsOnlySnapshot(State(h, index), s);
  }

  /** A fresh canvas buffer holding the given pixels. */
  /**
   * The composite operation a stamp leaves selected: destination-out for
   * erase, source-over for a restore that draws, and otherwise the one
   * selected before.
   */
  function StampOp(tool: Tool, original: Option<Image>, current: Op): (op: Op)
    ensures tool == Erase ==> op == DestinationOut
    ensures tool != Erase && original.Some? ==> op == SourceOver
    ensures tool != Erase && original.None? ==> op == current
  {
    if tool == Erase then DestinationOut else if original.Some? then SourceOver else current
  }

  /** A second stamp with the same tool and original selects the same operation. */
  lemma StampOpIdempotent(tool: Tool, original: Option<Image>, current: Op)
    ensures StampOp(tool, original, StampOp(tool, original, current)) == StampOp(tool, original, current)
  {
  }

  /** Copy `frame` into `a` element by element, as putImageData does. */
  method CopyInto(a: array<Pixel>, frame: seq<Pixel>)
    requires a.Length == |frame|
    modifies a
    ensures a[..] == frame
  {
    var i := 0;
    while i < a.Length
      invariant 0 <= i <= a.Length
      invariant a[..i] == frame[..i]
    {
      a[i] := frame[i];
      assert a[..i + 1] == frame[..i + 1];
      i := i + 1;
    }
    assert a[..] == a[..a.Length];
  }

  method NewBuffer(pixels: seq<Pixel>) returns (a: array<Pixel>)
    ensures fresh(a) && a[..] == pixels
  {
    a := new Pixel[|pixels|](i requires 0 <= i < |pixels| => pixels[i]);
    assert a[..] == pixels;
  }

  /** The loop's centre at distance i = n·step is the n-th interpolated stamp centre. */
  method SegmentCentre(p0: Point, p1: Point, dist: real, step: real, i: real, ghost segment: seq<Point>, ghost n: nat)
    returns (c: Point)
    requires 0.0 < step < dist && i == Reach(n, step) && i < dist
    requires segment == SegmentStamps(p0, p1, dist, step)
    ensures n < |segment| && c == segment[n]
  {
    StepCountSpec(dist, step, n);
    c := Along(p0, p1, dist, i);
  }

  class EditSession {
    var width: nat
    var height: nat
    /** The canvas pixels, row-major. */
    var buffer: array<Pixel>
    /** Whether the canvas has been sized and drawn (the 2D context is set). */
    var loaded: bool

    var history: seq<seq<Pixel>>
    var index: int

    var drawing: bool
    var prev: Point

    var size: nat
    var hardness: int
    var opacity: int
    var tool: Tool
    var tip: seq<real>
    /** The distance of a texel centre from the tip's centre, fixed for the session. */
    const texelDistance: (real, real) -> real

    /** The original photo, once it has loaded, for the restore tool. */
    var original: Option<Image>

    var globalAlpha: real
    var compositeOp: Op

    var view: Viewport
    var background: BgConfig

    ghost predicate Valid()
      reads this, buffer
    {
      && buffer.Length == width * height
      && AllValid(buffer[..])
      && MinSize <= size <= MaxSize
      && 0 <= hardness <= 100
      && ValidBrush(CurrentBrush())
      && WellShaped(history, index)
      && FramesFit(history, buffer.Length)
      && (history != [] ==> loaded)
      && (original.Some? ==> WellFormed(original.value))
      && globalAlpha == 1.0
    }

    /**
     * The tip is the one generated for the current size and hardness.  The
     * constructor and the size and hardness setters establish it, and every
     * other method keeps size, hardness and tip as they were.
     */
    ghost predicate TipMatches()
      reads this
    {
      0 <= hardness <= 100 && tip == GenerateTip(size, hardness, texelDistance)
    }

    /** The brush a stamp uses now. */
    function CurrentBrush(): (b: Brush)
      reads this
      ensures b.size == size && b.tip == tip && b.opacity == opacity && b.tool == tool
    {
      Brush(size, tip, opacity, tool)
    }

    /** What a stamp reads besides the buffer's contents: the canvas, the brush and the original. */
    function Setup(): (array<Pixel>, nat, nat, Brush, Option<Image>)
      reads this
    {
      (buffer, width, height, CurrentBrush(), original)
    }

    constructor(texelDistance: (real, real) -> real)
      requires Euclidean(texelDistance)
      ensures Valid() && TipMatches() && fresh(buffer) && this.texelDistance == texelDistance
      ensures width == 0 && height == 0 && !loaded && history == [] && index == -1 && !drawing
      ensures size == InitialSize && hardness == FullHardness && opacity == FullOpacity && tool == Erase
      ensures original == None && compositeOp == SourceOver && view == DefaultView
      ensures background == DefaultBackground
    {
      width, height := 0, 0;
      buffer := new Pixel[0];
      loaded := false;
      history, index := [], -1;
      drawing, prev := false, Point(0.0, 0.0);
      size, hardness, opacity, tool := InitialSize, FullHardness, FullOpacity, Erase;
      tip := GenerateTip(InitialSize, FullHardness, texelDistance);
      this.texelDistance := texelDistance;
      original := None;
      globalAlpha, compositeOp := 1.0, SourceOver;
      view := DefaultView;
      background := DefaultBackground;
    }

    // ----- loading and leaving -----

    /**
     * The cutout has decoded: size the canvas to it and draw it, switch to
     * Fit, and seed the history with that first frame if the history is
     * empty.
     */
    method Load(w: nat, h: nat, pixels: seq<Pixel>)
      requires Valid() && |pixels| == w * h && AllValid(pixels)
      requires history == [] || |pixels| == buffer.Length
      modifies this`width, this`height, this`buffer, this`globalAlpha, this`compositeOp, this`view, this`loaded
      modifies this`history, this`index
      ensures Valid() && fresh(buffer) && loaded
      ensures width == w && height == h && buffer[..] == pixels
      ensures view == old(view).(mode := Fit) && compositeOp == SourceOver
      ensures old(history) == [] ==> history == [pixels] && index == 0
      ensures old(history) != [] ==> history == old(history) && index == old(index)
    {
      DrawCutout(w, h, pixels);
      if history == [] {
        SeedHistory();
      }
    }

    /**
     * Size the canvas to w×h, which also resets the context's alpha and
     * operation, draw the cutout into it, and switch to Fit.
     */
    method DrawCutout(w: nat, h: nat, pixels: seq<Pixel>)
      requires Valid() && |pixels| == w * h && AllValid(pixels)
      requires history == [] || |pixels| == buffer.Length
      modifies this`width, this`height, this`buffer, this`globalAlpha, this`compositeOp, this`view, this`loaded
      ensures Valid() && fresh(buffer) && loaded
      ensures width == w && height == h && buffer[..] == pixels
      ensures view == old(view).(mode := Fit) && compositeOp == SourceOver
    {
      var a := NewBuffer(pixels);
      Resize(w, h, a);
      view := view.(mode := Fit);
      loaded := true;
    }

    /** Setting the canvas size replaces its pixels and resets the context's alpha and operation. */
    method Resize(w: nat, h: nat, a: array<Pixel>)
      requires Valid() && a.Length == w * h && AllValid(a[..])
      requires history == [] || a.Length == buffer.Length
      modifies this`width, this`height, this`buffer, this`globalAlpha, this`compositeOp
      ensures Valid() && buffer == a && width == w && height == h && compositeOp == SourceOver
    {
      width, height, buffer := w, h, a;
      globalAlpha, compositeOp := 1.0, SourceOver;
    }

    /** Seed an empty history with the buffer as its one snapshot. */
    method SeedHistory()
      requires Valid() && loaded && history == []
      modifies this`history, this`index
      ensures Valid() && State(history, index) == Seed(buffer[..])
    {
      history, index := [buffer[..]], 0;
    }

    /** The original photo has decoded; the restore tool can use it from now on. */
    method LoadOriginal(img: Image)
      requires Valid() && WellFormed(img)
      modifies this`original
      ensures Valid() && original == Some(img)
    {
      original := Some(img);
    }

    /**
     * Leaving edit mode: clear the history, reset zoom to Fit at 1, and put
     * the tool, hardness and opacity back to their defaults (the tip is
     * regenerated for the new hardness).  The brush size is kept.
     */
    method ExitEdit()
      requires Valid()
      modifies this`history, this`index, this`view, this`tool, this`hardness, this`opacity, this`tip
      ensures Valid() && TipMatches() && history == [] && index == -1
      ensures view == DefaultView && tool == Erase && hardness == FullHardness && opacity == FullOpacity
    {
      ClearHistory();
      view := DefaultView;
      ResetBrush();
    }

    /** Empty the history; the cursor goes back to −1. */
    method ClearHistory()
      requires Valid()
      modifies this`history, this`index
      ensures Valid() && history == [] && index == -1
    {
      history, index := [], -1;
    }

    /** Back to the Erase tool at full hardness and opacity, with the tip regenerated. */
    method ResetBrush()
      requires Valid()
      modifies this`tool, this`hardness, this`opacity, this`tip
      ensures Valid() && TipMatches() && tool == Erase && hardness == FullHardness && opacity == FullOpacity
    {
      tool := Erase;
      hardness := FullHardness;
      opacity := FullOpacity;
      tip := GenerateTip(size, hardness, texelDistance);
    }

    /**
     * A new photo arrived: reset the background, clear the history, set the
     * zoom level to 1 (the scale mode is left as it was) and select Erase.
     */
    method NewImage()
      requires Valid()
      modifies this`background, this`history, this`index, this`view, this`tool
      ensures Valid() && history == [] && index == -1
      ensures background == DefaultBackground && view == old(view).(zoom := 1.0) && tool == Erase
    {
      background := DefaultBackground;
      ClearHistory();
      view := view.(zoom := 1.0);
      tool := Erase;
    }

    /** The background buttons and colour picker choose what an export paints under the cutout. */
    method ChooseBackground(cfg: BgConfig)
      requires Valid()
      modifies this`background
      ensures Valid() && background == cfg
    {
      background := cfg;
    }

    // ----- brush settings -----

    /** The size slider; the tip is regenerated for the new size. */
    method SetBrushSize(s: nat)
      requires Valid() && MinSize <= s <= MaxSize
      modifies this`size, this`tip
      ensures Valid() && TipMatches() && size == s
    {
      size := s;
      tip := GenerateTip(size, hardness, texelDistance);
    }

    /** The hardness slider; the tip is regenerated for the new hardness. */
    method SetHardness(hd: int)
      requires Valid() && 0 <= hd <= 100
      modifies this`hardness, this`tip
      ensures Valid() && TipMatches() && hardness == hd
    {
      hardness := hd;
      tip := GenerateTip(size, hardness, texelDistance);
    }

    /** The opacity slider. */
    method SetOpacity(o: int)
      requires Valid() && 1 <= o <= 100
      modifies this`opacity
      ensures Valid() && opacity == o
    {
      opacity := o;
    }

    /** The Erase / Restore buttons. */
    method SetTool(t: Tool)
      requires Valid()
      modifies this`tool
      ensures Valid() && tool == t
    {
      tool := t;
    }

    // ----- stamping -----

    /**
     * Writes one stamp into the buffer, cell by cell over the part of the
     * footprint with top-left (ox, oy) that lies inside the buffer.
     */
    method Paint(ox: int, oy: int)
      requires buffer.Length == width * height && AllValid(buffer[..])
      requires ValidBrush(CurrentBrush()) && (original.Some? ==> WellFormed(original.value))
      modifies buffer
      ensures buffer[..] == StampImage(old(buffer[..]), width, height, CurrentBrush(), original, ox, oy)
    {
      var b := CurrentBrush();
      ghost var before := buffer[..];
      ghost var target := StampImage(before, width, height, b, original, ox, oy);
      var x0, x1 := Max(ox, 0), Min(ox + size, width);
      var y0, y1 := Max(oy, 0), Min(oy + size, height);
      if width == 0 {
        assert target == before;
        return;
      }
      StampKeepsOutside(before, width, height, b, original, ox, oy);
      PartialStart(before, target, width, height, ox, oy, size, y0);
      var y := y0;
      while y < y1
        invariant y0 <= y <= Max(y0, y1)
        invariant buffer[..] == Partial(before, target, width, y, 0)
      {
        PartialStart(before, target, width, height, ox, oy, size, y);
        var x := x0;
        while x < x1
          invariant x0 <= x <= Max(x0, x1)
          invariant buffer[..] == Partial(before, target, width, y, x)
        {
          var k := Offset(x, y, width);
          PartialStep(before, target, width, height, y, x);
          OffsetDivMod(x, y, width);
          buffer[k] := StampPixel(buffer[k], TipAt(b, x, y, ox, oy), opacity, tool, OriginalAt(original, x, y));
          x := x + 1;
        }
        PartialRowEnd(before, target, width, height, ox, oy, size, y, x);
        y := y + 1;
      }
      PartialDone(before, target, width, height, ox, oy, size, y);
    }

    /**
     * Stamps the brush centred at `c`: with global alpha opacity/100, erase
     * draws the tip with destination-out, restore draws the tip-masked
     * original with source-over (nothing when no original is loaded), and
     * the global alpha is put back to 1.  Nothing happens before the canvas
     * is loaded.
     */
    method Stamp(c: Point)
      requires Valid()
      modifies this`globalAlpha, this`compositeOp, buffer
      ensures Valid() && Setup() == old(Setup())
      ensures buffer[..] == if loaded then StampAt(old(buffer[..]), width, height, CurrentBrush(), original, c)
                            else old(buffer[..])
      ensures compositeOp == if loaded then StampOp(tool, original, old(compositeOp)) else old(compositeOp)
    {
      if !loaded {
        return;
      }
      var ox, oy := Origin(c.x, size), Origin(c.y, size);
      globalAlpha := StampAlpha(opacity);
      if tool == Erase {
        compositeOp := DestinationOut;
        Paint(ox, oy);
      } else if original.Some? {
        compositeOp := SourceOver;
        Paint(ox, oy);
      }
      globalAlpha := 1.0;
    }

    // ----- strokes -----

    /** Pointer down: record the mapped point as `prev`, start a stroke, stamp once there. */
    method StartDrawing(clientX: real, clientY: real, rect: Rect)
      requires Valid() && Shown(rect)
      modifies this`prev, this`drawing, this`globalAlpha, this`compositeOp, buffer
      ensures Valid()
      ensures var p := MapToBuffer(clientX, clientY, rect, width, height);
        if loaded then
          && drawing && prev == p
          && buffer[..] == StampAt(old(buffer[..]), width, height, CurrentBrush(), original, p)
          && compositeOp == StampOp(tool, original, old(compositeOp))
        else
          drawing == old(drawing) && prev == old(prev) && buffer[..] == old(buffer[..])
          && compositeOp == old(compositeOp)
    {
      if !loaded {
        return;
      }
      var p := MapToBuffer(clientX, clientY, rect, width, height);
      prev := p;
      drawing := true;
      Stamp(p);
    }

    /**
     * Pointer move during a stroke.  `hypot` is the Euclidean distance from
     * `prev` to the mapped point.  If it exceeds the spacing, stamps at
     * distances 0, step, 2·step, … below it along the segment and moves
     * `prev` to the new point; then stamps once at the new point.
     */
    method Draw(clientX: real, clientY: real, rect: Rect, hypot: real)
      requires Valid() && Shown(rect)
      requires IsHypot(hypot, prev, MapToBuffer(clientX, clientY, rect, width, height))
      modifies this`prev, this`globalAlpha, this`compositeOp, buffer
      ensures Valid()
      ensures var p1 := MapToBuffer(clientX, clientY, rect, width, height);
        var step := Spacing(size);
        if drawing && loaded then
          && buffer[..] == ApplyStamps(old(buffer[..]), width, height, CurrentBrush(), original,
                                       MoveStamps(old(prev), p1, hypot, step))
          && prev == NextPrev(old(prev), p1, hypot, step)
          && compositeOp == StampOp(tool, original, old(compositeOp))
        else
          buffer[..] == old(buffer[..]) && prev == old(prev) && compositeOp == old(compositeOp)
    {
      if !drawing || !loaded {
        return;
      }
      var p1 := MapToBuffer(clientX, clientY, rect, width, height);
      MoveTo(p1, hypot);
    }

    /** The stamps of a move to buffer point `p1` at distance `dist` from `prev`. */
    method MoveTo(p1: Point, dist: real)
      requires Valid() && loaded && dist >= 0.0
      modifies this`prev, this`globalAlpha, this`compositeOp, buffer
      ensures Valid() && Setup() == old(Setup())
      ensures buffer[..] == ApplyStamps(old(buffer[..]), width, height, CurrentBrush(), original,
                                        MoveStamps(old(prev), p1, dist, Spacing(size)))
      ensures prev == NextPrev(old(prev), p1, dist, Spacing(size))
      ensures compositeOp == StampOp(tool, original, old(compositeOp))
    {
      var step := Spacing(size);
      ApplyMove(buffer[..], width, height, CurrentBrush(), original, prev, p1, dist, step);
      StampOpIdempotent(tool, original, compositeOp);
      if dist > step {
        StampSegment(p1, dist, step);
        prev := p1;
      }
      Stamp(p1);
    }

    /**
     * The interpolation loop of a long move: stamps at distances 0, step,
     * 2·step, … strictly below `dist` along the segment from `prev` to `p1`.
     */
    method StampSegment(p1: Point, dist: real, step: real)
      requires Valid() && loaded && 0.0 < step < dist
      modifies this`globalAlpha, this`compositeOp, buffer
      ensures Valid() && Setup() == old(Setup())
      ensures buffer[..] == ApplyStamps(old(buffer[..]), width, height, CurrentBrush(), original,
                                        SegmentStamps(prev, p1, dist, step))
      ensures compositeOp == StampOp(tool, original, old(compositeOp))
    {
      ghost var start, w, h, b, orig := buffer[..], width, height, CurrentBrush(), original;
      ghost var segment := SegmentStamps(prev, p1, dist, step);
      ghost var op0 := compositeOp;
      ghost var op := StampOp(b.tool, orig, op0);
      StampOpIdempotent(b.tool, orig, compositeOp);
      assert Raster(start, w, h) && ValidBrush(b);
      ghost var n: nat := 0;
      var i := 0.0;
      while i < dist
        invariant Valid() && width == w && height == h && CurrentBrush() == b && original == orig
        invariant i == Reach(n, step) && n <= |segment|
        invariant buffer[..] == ApplyStamps(start, w, h, b, orig, segment[..n])
        invariant compositeOp == if n == 0 then op0 else op
        decreases |segment| - n
      {
        var c := SegmentCentre(prev, p1, dist, step, i, segment, n);
        StampNext(c, start, segment, n);
        NextReach(n, step);
        i := i + step;
        n := n + 1;
      }
      StepCountSpec(dist, step, n);
      StepCountSpec(dist, step, 0);
      assert segment[..n] == segment;
    }

    /** One iteration of the interpolation loop: after the first n centres, stamp the next one. */
    method StampNext(c: Point, ghost start: seq<Pixel>, ghost cs: seq<Point>, ghost n: nat)
      requires Valid() && loaded && n < |cs| && c == cs[n] && Raster(start, width, height)
      requires buffer[..] == ApplyStamps(start, width, height, CurrentBrush(), original, cs[..n])
      modifies this`globalAlpha, this`compositeOp, buffer
      ensures Valid() && Setup() == old(Setup())
      ensures buffer[..] == ApplyStamps(start, width, height, CurrentBrush(), original, cs[..n + 1])
      ensures compositeOp == StampOp(tool, original, old(compositeOp))
    {
      ApplyOneMore(start, width, height, CurrentBrush(), original, cs, n);
      Stamp(c);
    }

    /** Pointer up or leave: end the stroke and commit one snapshot, only if a stroke was in progress. */
    method StopDrawing()
      requires Valid()
      modifies this`drawing, this`history, this`index
      ensures Valid()
      ensures if old(loaded) && old(drawing) then
          !drawing && State(history, index) == Commit(State(old(history), old(index)), buffer[..])
        else
          drawing == old(drawing) && history == old(history) && index == old(index)
    {
      if !loaded || !drawing {
        return;
      }
      drawing := false;
      SaveToHistory();
    }

    /**
     * Commit the buffer: keep the entries up to the cursor, append the
     * snapshot, drop the oldest entry beyond Capacity, cursor to the end.
     */
    method SaveToHistory()
      requires Valid()
      modifies this`history, this`index
      ensures Valid()
      ensures if loaded then State(history, index) == Commit(State(old(history), old(index)), buffer[..])
              else history == old(history) && index == old(index)
    {
      if !loaded {
        return;
      }
      var snapshot := buffer[..];
      var newHistory := SlicePrefix(history, index + 1);
      newHistory := newHistory + [snapshot];
      if |newHistory| > Capacity {
        newHistory := newHistory[1..];
      }
      CommitKeepsFrames(history, index, snapshot, buffer.Length);
      history, index := newHistory, |newHistory| - 1;
    }

    /** Copy a snapshot back into the buffer, as putImageData does. */
    method RestoreState(frame: seq<Pixel>)
      requires Valid() && |frame| == buffer.Length && AllValid(frame)
      modifies this`compositeOp, buffer
      ensures Valid()
      ensures buffer[..] == if loaded then frame else old(buffer[..])
      ensures compositeOp == if loaded then SourceOver else old(compositeOp)
    {
      if !loaded {
        return;
      }
      compositeOp := SourceOver;
      CopyInto(buffer, frame);
    }

    /** Step the cursor back one snapshot and show it, if there is one. */
    method Undo()
      requires Valid()
      modifies this`index, this`compositeOp, buffer
      ensures Valid() && State(history, index) == History.Undo(State(history, old(index)))
      ensures buffer[..] == if old(index) > 0 then history[index] else old(buffer[..])
      ensures compositeOp == if old(index) > 0 then SourceOver else old(compositeOp)
    {
      if index > 0 {
        index := index - 1;
        RestoreState(history[index]);
      }
    }

    /** Step the cursor forward one snapshot and show it, if there is one. */
    method Redo()
      requires Valid()
      modifies this`index, this`compositeOp, buffer
      ensures Valid() && State(history, index) == History.Redo(State(history, old(index)))
      ensures buffer[..] == if old(index) < |history| - 1 then history[index] else old(buffer[..])
      ensures compositeOp == if old(index) < |history| - 1 then SourceOver else old(compositeOp)
    {
      if index < |history| - 1 {
        index := index + 1;
        RestoreState(history[index]);
      }
    }

    // ----- touch -----

    /** Touch start: as pointer down, at the first touch point. */
    method TouchStart(touches: seq<Point>, rect: Rect)
      requires Valid() && Shown(rect) && |touches| > 0
      modifies this`prev, this`drawing, this`globalAlpha, this`compositeOp, buffer
      ensures Valid()
      ensures var p := MapToBuffer(touches[0].x, touches[0].y, rect, width, height);
        if loaded then
          && drawing && prev == p
          && buffer[..] == StampAt(old(buffer[..]), width, height, CurrentBrush(), original, p)
          && compositeOp == StampOp(tool, original, old(compositeOp))
        else
          drawing == old(drawing) && prev == old(prev) && buffer[..] == old(buffer[..])
          && compositeOp == old(compositeOp)
    {
      StartDrawing(touches[0].x, touches[0].y, rect);
    }

    /** Touch move: as pointer move, following the first touch point. */
    method TouchMove(touches: seq<Point>, rect: Rect, hypot: real)
      requires Valid() && Shown(rect) && |touches| > 0
      requires IsHypot(hypot, prev, MapToBuffer(touches[0].x, touches[0].y, rect, width, height))
      modifies this`prev, this`globalAlpha, this`compositeOp, buffer
      ensures Valid()
      ensures var p1 := MapToBuffer(touches[0].x, touches[0].y, rect, width, height);
        var step := Spacing(size);
        if drawing && loaded then
          && buffer[..] == ApplyStamps(old(buffer[..]), width, height, CurrentBrush(), original,
                                       MoveStamps(old(prev), p1, hypot, step))
          && prev == NextPrev(old(prev), p1, hypot, step)
          && compositeOp == StampOp(tool, original, old(compositeOp))
        else
          buffer[..] == old(buffer[..]) && prev == old(prev) && compositeOp == old(compositeOp)
    {
      Draw(touches[0].x, touches[0].y, rect, hypot);
    }

    /** Touch end: as pointer up. */
    method TouchEnd()
      requires Valid()
      modifies this`drawing, this`history, this`index
      ensures Valid()
      ensures if old(loaded) && old(drawing) then
          !drawing && State(history, index) == Commit(State(old(history), old(index)), buffer[..])
        else
          drawing == old(drawing) && history == old(history) && index == old(index)
    {
      StopDrawing();
    }

    // ----- zoom -----

    method HandleZoomIn()
      requires Valid()
      modifies this`view
      ensures Valid() && view == ZoomIn(old(view))
    {
      view := ZoomIn(view);
    }

    method HandleZoomOut()
      requires Valid()
      modifies this`view
      ensures Valid() && view == ZoomOut(old(view))
    {
      view := ZoomOut(view);
    }

    method HandleFitScreen()
      requires Valid()
      modifies this`view
      ensures Valid() && view == FitScreen(old(view))
    {
      view := FitScreen(view);
    }
  }
}
