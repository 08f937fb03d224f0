/**
 * The before/after compare slider: the divider position is a percentage
 * of the container width, set by dragging (mouse or touch) and nudged by
 * the arrow keys.
 */
module Slider {

  const InitialPosition: real := 50.0
  const KeyStep: real := 5.0

  function Clamp(v: real, lo: real, hi: real): (r: real)
    requires lo <= hi
    ensures lo <= r <= hi
    ensures lo <= v <= hi ==> r == v
    ensures v < lo ==> r == lo
    ensures v > hi ==> r == hi
  {
    if v < lo then lo else if v > hi then hi else v
  }

  /**
   * The position for a pointer at `clientX` over a container starting at
   * `left` with the given width: the pointer's offset clamped into the
   * container, as a percentage of its width.
   */
  function DragPercent(clientX: real, left: real, width: real): (p: real)
    requires width > 0.0
    ensures 0.0 <= p <= 100.0
    ensures clientX <= left ==> p == 0.0
    ensures clientX >= left + width ==> p == 100.0
    ensures left <= clientX <= left + width ==> p * width == (clientX - left) * 100.0
  {
    var x := Clamp(clientX - left, 0.0, width);
    assert width / width == 1.0;
    assert x / width <= 1.0 by {
      assert (width - x) / width >= 0.0;
      assert x / width + (width - x) / width == width / width;
    }
    (x / width) * 100.0
  }

  /** A key press: ArrowLeft and ArrowRight step by 5 within [0, 100]; other keys do nothing. */
  function KeyPosition(key: string, p: real): (r: real)
    ensures key == "ArrowLeft" ==> r == (if p - KeyStep > 0.0 then p - KeyStep else 0.0)
    ensures key == "ArrowRight" ==> r == (if p + KeyStep < 100.0 then p + KeyStep else 100.0)
    ensures key != "ArrowLeft" && key != "ArrowRight" ==> r == p
  {
    if key == "ArrowLeft" then (if 0.0 > p - KeyStep then 0.0 else p - KeyStep)
    else if key == "ArrowRight" then (if 100.0 < p + KeyStep then 100.0 else p + KeyStep)
    else p
  }

  /** Dragging further right never moves the divider left. */
  lemma {:induction false} DragMonotone(x1: real, x2: real, left: real, width: real)
    requires width > 0.0 && x1 <= x2
    ensures DragPercent(x1, left, width) <= DragPercent(x2, left, width)
  {
    var a := Clamp(x1 - left, 0.0, width);
    var b := Clamp(x2 - left, 0.0, width);
    assert a <= b;
    var q := (b - a) / width;
    assert q * width == b - a;
    assert (b / width) - (a / width) == q;
  }

  /** Inside [5, 95], ArrowRight undoes ArrowLeft and vice versa. */
  lemma ArrowKeysInverse(p: real)
    requires KeyStep <= p <= 100.0 - KeyStep
    ensures KeyPosition("ArrowRight", KeyPosition("ArrowLeft", p)) == p
    ensures KeyPosition("ArrowLeft", KeyPosition("ArrowRight", p)) == p
  {
  }

  /** The slider's state: the divider position and whether a drag is in progress. */
  class CompareSlider {
    var position: real
    var isResizing: bool

    predicate Valid()
      reads this
    {
      0.0 <= position <= 100.0
    }

    constructor()
      ensures Valid() && position == InitialPosition && !isResizing
    {
      position := InitialPosition;
      isResizing := false;
    }

    /** Mouse or touch down on the container starts a drag. */
    method PointerDown()
      modifies this
      ensures isResizing && position == old(position)
    {
      isResizing := true;
    }

    /** Mouse up or touch end anywhere in the window ends the drag. */
    method PointerUp()
      modifies this
      ensures !isResizing && position == old(position)
    {
      isResizing := false;
    }

    /** A mouse move over the container or the window: moves the divider only while dragging. */
    method MouseMove(clientX: real, left: real, width: real)
      requires Valid() && width > 0.0
      modifies this
      ensures Valid() && isResizing == old(isResizing)
      ensures position == if old(isResizing) then DragPercent(clientX, left, width) else old(position)
    {
      if !isResizing {
        return;
      }
      position := DragPercent(clientX, left, width);
    }

    /** A touch move over the container follows the first touch point, only while dragging. */
    method TouchMove(touchXs: seq<real>, left: real, width: real)
      requires Valid() && width > 0.0 && |touchXs| > 0
      modifies this
      ensures Valid() && isResizing == old(isResizing)
      ensures position == if old(isResizing) then DragPercent(touchXs[0], left, width) else old(position)
    {
      MouseMove(touchXs[0], left, width);
    }

    /** Arrow keys nudge the divider by 5, staying within [0, 100]. */
    method KeyDown(key: string)
      requires Valid()
      modifies this
      ensures Valid() && isResizing == old(isResizing)
      ensures position == KeyPosition(key, old(position))
    {
      if key == "ArrowLeft" {
        position := if 0.0 > position - KeyStep then 0.0 else position - KeyStep;
      }
      if key == "ArrowRight" {
        position := if 100.0 < position + KeyStep then 100.0 else position + KeyStep;
      }
    }
  }
}
