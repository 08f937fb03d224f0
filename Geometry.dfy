/**
 * Display-to-buffer coordinate mapping and the zoom controls of the
 * editing view.
 */
module Geometry {

  datatype Point = Point(x: real, y: real)

  function Sq(x: real): real
  {
    x * x
  }

  /** The on-screen rectangle of the canvas element (getBoundingClientRect). */
  datatype Rect = Rect(left: real, top: real, width: real, height: real)

  predicate Shown(rect: Rect)
  {
    rect.width > 0.0 && rect.height > 0.0
  }

  /**
   * Maps a pointer position in display space to buffer space: the offset
   * from the rectangle's corner scaled by buffer size over display size.
   * Nothing is clamped; points off the canvas map outside the buffer.
   */
  function MapToBuffer(clientX: real, clientY: real, rect: Rect, bufW: nat, bufH: nat): (p: Point)
    requires Shown(rect)
    ensures bufW > 0 ==> (p.x < 0.0 <==> clientX < rect.left)
    ensures bufW > 0 ==> (p.x > bufW as real <==> clientX > rect.left + rect.width)
    ensures bufH > 0 ==> (p.y < 0.0 <==> clientY < rect.top)
    ensures bufH > 0 ==> (p.y > bufH as real <==> clientY > rect.top + rect.height)
  {
    var scaleX := bufW as real / rect.width;
    var scaleY := bufH as real / rect.height;
    Point((clientX - rect.left) * scaleX, (clientY - rect.top) * scaleY)
  }

  /** Where a buffer point appears on screen: the inverse of MapToBuffer. */
  function ToDisplay(p: Point, rect: Rect, bufW: nat, bufH: nat): (c: Point)
    requires bufW > 0 && bufH > 0
  {
    Point(rect.left + p.x * (rect.width / bufW as real), rect.top + p.y * (rect.height / bufH as real))
  }

  /** Mapping a pointer to the buffer and back gives the pointer again. */
  lemma {:induction false} MapThenDisplay(clientX: real, clientY: real, rect: Rect, bufW: nat, bufH: nat)
    requires Shown(rect) && bufW > 0 && bufH > 0
    ensures ToDisplay(MapToBuffer(clientX, clientY, rect, bufW, bufH), rect, bufW, bufH) == Point(clientX, clientY)
  {
    var w, h := bufW as real, bufH as real;
    assert (clientX - rect.left) * (w / rect.width) * (rect.width / w) == clientX - rect.left;
    assert (clientY - rect.top) * (h / rect.height) * (rect.height / h) == clientY - rect.top;
  }

  /** Displaying a buffer point and mapping it back gives the buffer point again. */
  lemma {:induction false} DisplayThenMap(p: Point, rect: Rect, bufW: nat, bufH: nat)
    requires Shown(rect) && bufW > 0 && bufH > 0
    ensures var c := ToDisplay(p, rect, bufW, bufH);
      MapToBuffer(c.x, c.y, rect, bufW, bufH) == p
  {
    var w, h := bufW as real, bufH as real;
    assert (rect.width / w) * (w / rect.width) == 1.0;
    assert (rect.height / h) * (h / rect.height) == 1.0;
    assert p.x * (rect.width / w) * (w / rect.width) == p.x * ((rect.width / w) * (w / rect.width));
    assert p.y * (rect.height / h) * (h / rect.height) == p.y * ((rect.height / h) * (h / rect.height));
  }

  /**
   * Scaling the display rectangle's size and the buffer's size by the same
   * factor leaves every mapped point where it was.
   */
  lemma {:induction false} MapScaleInvariant(clientX: real, clientY: real, rect: Rect, bufW: nat, bufH: nat, k: nat)
    requires Shown(rect) && k > 0
    ensures var scaled := Rect(rect.left, rect.top, rect.width * k as real, rect.height * k as real);
      MapToBuffer(clientX, clientY, scaled, bufW * k, bufH * k) == MapToBuffer(clientX, clientY, rect, bufW, bufH)
  {
    var f := k as real;
    assert (bufW * k) as real == bufW as real * f;
    assert (bufH * k) as real == bufH as real * f;
    assert (bufW as real * f) / (rect.width * f) == bufW as real / rect.width;
    assert (bufH as real * f) / (rect.height * f) == bufH as real / rect.height;
  }

  // ----- zoom -----

  datatype ScaleMode = Fit | Custom

  /** `zoom` is used only in Custom mode; Fit scales the buffer to the viewport. */
  datatype Viewport = Viewport(zoom: real, mode: ScaleMode)

  const MinZoom: real := 0.25
  const MaxZoom: real := 3.0
  const ZoomStep: real := 0.25

  /** The view every edit session starts in. */
  const DefaultView := Viewport(1.0, Fit)

  predicate ZoomInRange(v: Viewport)
  {
    MinZoom <= v.zoom <= MaxZoom
  }

  /** Zoom in one step, capped at the maximum, switching to Custom mode. */
  function ZoomIn(v: Viewport): (r: Viewport)
    ensures r.mode == Custom
    ensures r.zoom <= MaxZoom
    ensures ZoomInRange(v) ==> ZoomInRange(r) && r.zoom >= v.zoom
    ensures r.zoom == v.zoom + ZoomStep || r.zoom == MaxZoom
  {
    Viewport(if v.zoom + ZoomStep < MaxZoom then v.zoom + ZoomStep else MaxZoom, Custom)
  }

  /** Zoom out one step, floored at the minimum, switching to Custom mode. */
  function ZoomOut(v: Viewport): (r: Viewport)
    ensures r.mode == Custom
    ensures r.zoom >= MinZoom
    ensures ZoomInRange(v) ==> ZoomInRange(r) && r.zoom <= v.zoom
    ensures r.zoom == v.zoom - ZoomStep || r.zoom == MinZoom
  {
    Viewport(if v.zoom - ZoomStep > MinZoom then v.zoom - ZoomStep else MinZoom, Custom)
  }

  /** Fit to screen: back to Fit mode at zoom 1. */
  function FitScreen(v: Viewport): (r: Viewport)
    ensures r == DefaultView && ZoomInRange(r)
  {
    Viewport(1.0, Fit)
  }

  /** Away from the upper cap, zooming out undoes zooming in. */
  lemma ZoomOutUndoesZoomIn(v: Viewport)
    requires MinZoom <= v.zoom <= MaxZoom - ZoomStep
    ensures ZoomOut(ZoomIn(v)) == Viewport(v.zoom, Custom)
  {
  }

  /** Away from the lower cap, zooming in undoes zooming out. */
  lemma ZoomInUndoesZoomOut(v: Viewport)
    requires MinZoom + ZoomStep <= v.zoom <= MaxZoom
    ensures ZoomIn(ZoomOut(v)) == Viewport(v.zoom, Custom)
  {
  }

  /** At the caps the zoom buttons change only the mode. */
  lemma ZoomSaturates(v: Viewport)
    ensures v.zoom >= MaxZoom - ZoomStep ==> ZoomIn(v).zoom == MaxZoom
    ensures v.zoom <= MinZoom + ZoomStep ==> ZoomOut(v).zoom == MinZoom
  {
  }
}
