/**
 * Stroke interpolation: the stamp centres a pointer move produces.
 *
 * A move from the last recorded point `prev` to `p1` has length `dist`
 * (Math.hypot of the difference, supplied by the caller) and the stamp
 * spacing is step = brushSize·0.1.  When dist > step the move stamps at
 * distances 0, step, 2·step, … strictly below dist along the segment and
 * then records p1 as the new `prev`; either way it ends with one stamp at
 * p1.  When dist ≤ step, `prev` is left where it was.
 */
module Stroke {
  import opened Geometry
  import Compositing

  /** Stamp spacing for a brush of the given size: a tenth of the size. */
  function Spacing(size: nat): (s: real)
    ensures 10.0 * s == size as real
    ensures size > 0 ==> s > 0.0
  {
    size as real * 0.1
  }

  /** The squared Euclidean distance between two points. */
  function SqDist(p: Point, q: Point): real
  {
    Sq(q.x - p.x) + Sq(q.y - p.y)
  }

  /** `dist` is the Euclidean distance from p to q. */
  predicate IsHypot(dist: real, p: Point, q: Point)
  {
    dist >= 0.0 && Sq(dist) == SqDist(p, q)
  }

  /** The least integer not below q. */
  function Ceil(q: real): (c: int)
    ensures q <= c as real < q + 1.0
  {
    if q.Floor as real == q then q.Floor else q.Floor + 1
  }

  lemma MulStep(a: real, b: real, step: real)
    requires step > 0.0
    ensures a <= b ==> a * step <= b * step
    ensures a < b ==> a * step < b * step
  {
    assert b * step - a * step == (b - a) * step;
  }

  /** The distance covered by n steps of the given length. */
  function Reach(n: int, step: real): real
  {
    n as real * step
  }

  /** One more step reaches one step further. */
  lemma NextReach(n: int, step: real)
    ensures Reach(n + 1, step) == Reach(n, step) + step
  {
  }

  /** Ceil(dist / step) is a count whose multiple of the step reaches dist, and the least one. */
  lemma CeilingCount(dist: real, step: real)
    requires dist >= 0.0 && step > 0.0
    ensures Ceil(dist / step) >= 0
    ensures Ceil(dist / step) as real * step >= dist
    ensures Ceil(dist / step) == 0 || (Ceil(dist / step) - 1) as real * step < dist
  {
    var q := dist / step;
    var k := Ceil(q);
    assert q * step == dist;
    MulStep(q, k as real, step);
    assert (k - 1) as real == k as real - 1.0 < q;
    MulStep((k - 1) as real, q, step);
    assert (k - 1) as real * step < dist;
  }

  /**
   * How many values 0, step, 2·step, … lie strictly below `dist`: the
   * least count whose multiple of the step reaches `dist`.
   */
  ghost function StepCount(dist: real, step: real): (n: nat)
    requires dist >= 0.0 && step > 0.0
    ensures n as real * step >= dist
    ensures n == 0 || (n - 1) as real * step < dist
  {
    CeilingCount(dist, step);
    var n: nat :| n as real * step >= dist && (n == 0 || (n - 1) as real * step < dist);
    n
  }

  /** Exactly the first StepCount multiples of the step lie below `dist`. */
  lemma {:induction false} StepCountSpec(dist: real, step: real, m: int)
    requires dist >= 0.0 && step > 0.0 && m >= 0
    ensures m < StepCount(dist, step) <==> m as real * step < dist
  {
    var n := StepCount(dist, step);
    if m < n {
      MulStep(m as real, (n - 1) as real, step);
    } else {
      MulStep(n as real, m as real, step);
    }
  }

  /** The point at distance `i` from p0 along the segment towards p1 of length `dist`. */
  function Along(p0: Point, p1: Point, dist: real, i: real): (p: Point)
    requires dist > 0.0
    ensures i == 0.0 ==> p == p0
    ensures i == dist ==> p == p1
  {
    Point(p0.x + (p1.x - p0.x) * (i / dist), p0.y + (p1.y - p0.y) * (i / dist))
  }

  /** The centre of the n-th interpolated stamp of a move: n steps along the segment. */
  function StampCentre(p0: Point, p1: Point, dist: real, step: real, n: int): Point
    requires dist > 0.0
  {
    Along(p0, p1, dist, Reach(n, step))
  }

  /** The interpolated stamp centres of one move (not including the final one at p1). */
  ghost function SegmentStamps(p0: Point, p1: Point, dist: real, step: real): (r: seq<Point>)
    requires dist > 0.0 && step > 0.0
    ensures |r| == StepCount(dist, step)
    ensures forall n | 0 <= n < |r| :: r[n] == StampCentre(p0, p1, dist, step, n)
  {
    seq(StepCount(dist, step), n => StampCentre(p0, p1, dist, step, n))
  }

  /** All stamp centres of one pointer move, in the order they are stamped. */
  ghost function MoveStamps(prev: Point, p1: Point, dist: real, step: real): (r: seq<Point>)
    requires dist >= 0.0 && step > 0.0
    ensures |r| >= 1 && r[|r| - 1] == p1
    ensures dist <= step ==> r == [p1]
    ensures dist > step ==> |r| >= 3 && r[0] == prev
  {
    if dist > step then
      StepCountSpec(dist, step, 1);
      SegmentStamps(prev, p1, dist, step) + [p1]
    else
      [p1]
  }

  /**
   * The recorded previous point after a move: the new point when the move
   * interpolated stamps, the old one when it stamped only at the new point.
   */
  function NextPrev(prev: Point, p1: Point, dist: real, step: real): (r: Point)
    ensures r == p1 || r == prev
    ensures dist >= 0.0 && step > 0.0 && |MoveStamps(prev, p1, dist, step)| == 1 ==> r == prev
    ensures dist >= 0.0 && step > 0.0 && r != prev ==> |MoveStamps(prev, p1, dist, step)| >= 3
  {
    if dist > step then p1 else prev
  }

  lemma MulSquare(a: real, u: real)
    ensures (a * u) * (a * u) == (a * a) * (u * u)
  {
  }

  lemma ScaledDifference(a0: real, a1: real, dist: real, i: real, j: real)
    requires dist > 0.0
    ensures (a0 + (a1 - a0) * (j / dist)) - (a0 + (a1 - a0) * (i / dist)) == (a1 - a0) * ((j - i) / dist)
  {
    assert j / dist - i / dist == (j - i) / dist;
  }

  lemma SumOfScaledSquares(dx: real, dy: real, u: real)
    ensures (dx * u) * (dx * u) + (dy * u) * (dy * u) == (dx * dx + dy * dy) * (u * u)
  {
    MulSquare(dx, u);
    MulSquare(dy, u);
  }

  lemma ScaledHypot(dx: real, dy: real, u: real, dist: real)
    requires dx * dx + dy * dy == dist * dist
    ensures Sq(dx * u) + Sq(dy * u) == Sq(dist * u)
  {
    SumOfScaledSquares(dx, dy, u);
    MulSquare(dist, u);
  }

  /** Moving from distance i to distance j along the segment moves by (j − i)/dist of the whole. */
  lemma AlongDelta(p0: Point, p1: Point, dist: real, i: real, j: real)
    requires dist > 0.0
    ensures var a, b := Along(p0, p1, dist, i), Along(p0, p1, dist, j);
      b.x - a.x == (p1.x - p0.x) * ((j - i) / dist) && b.y - a.y == (p1.y - p0.y) * ((j - i) / dist)
  {
    ScaledDifference(p0.x, p1.x, dist, i, j);
    ScaledDifference(p0.y, p1.y, dist, i, j);
  }

  /** Two points along a segment are exactly as far apart as their distances along it differ. */
  lemma {:induction false} AlongSqDist(p0: Point, p1: Point, dist: real, i: real, j: real)
    requires IsHypot(dist, p0, p1) && dist > 0.0
    ensures SqDist(Along(p0, p1, dist, i), Along(p0, p1, dist, j)) == Sq(j - i)
  {
    var dx, dy := p1.x - p0.x, p1.y - p0.y;
    var u := (j - i) / dist;
    var a, b := Along(p0, p1, dist, i), Along(p0, p1, dist, j);
    AlongDelta(p0, p1, dist, i, j);
    assert SqDist(a, b) == Sq(dx * u) + Sq(dy * u);
    ScaledHypot(dx, dy, u, dist);
    assert dist * u == j - i;
  }

  /** Consecutive interpolated stamps are exactly one step apart. */
  lemma {:induction false} ConsecutiveStampsOneStepApart(p0: Point, p1: Point, dist: real, step: real, n: nat)
    requires IsHypot(dist, p0, p1) && dist > 0.0 && step > 0.0
    requires n + 1 < StepCount(dist, step)
    ensures var s := SegmentStamps(p0, p1, dist, step);
      SqDist(s[n], s[n + 1]) == Sq(step)
  {
    var s := SegmentStamps(p0, p1, dist, step);
    var i, j := n as real * step, (n + 1) as real * step;
    assert s[n] == Along(p0, p1, dist, i);
    assert s[n + 1] == Along(p0, p1, dist, j);
    AlongSqDist(p0, p1, dist, i, j);
    assert j - i == step by {
      assert (n + 1) as real * step == n as real * step + 1.0 * step;
    }
  }

  lemma SquareMonotone(g: real, step: real)
    requires 0.0 <= g <= step
    ensures Sq(g) <= Sq(step)
  {
    Compositing.MulNonNegative(step - g, step + g);
    assert step * step - g * g == (step - g) * (step + g);
  }

  /** The last interpolated stamp lies short of the endpoint, and within one step of it. */
  lemma {:induction false} LastStampWithinStep(p0: Point, p1: Point, dist: real, step: real)
    requires IsHypot(dist, p0, p1) && dist > 0.0 && step > 0.0
    ensures var s := SegmentStamps(p0, p1, dist, step);
      && |s| >= 1
      && (|s| - 1) as real * step < dist
      && SqDist(s[|s| - 1], p1) <= Sq(step)
  {
    var s := SegmentStamps(p0, p1, dist, step);
    var k := |s|;
    StepCountSpec(dist, step, 0);
    var i := (k - 1) as real * step;
    assert s[k - 1] == StampCentre(p0, p1, dist, step, k - 1) == Along(p0, p1, dist, i);
    AlongSqDist(p0, p1, dist, i, dist);
    var g := dist - i;
    assert SqDist(s[k - 1], p1) == Sq(g);
    assert 0.0 < g <= step by {
      assert k as real * step >= dist;
      assert i == k as real * step - step;
    }
    SquareMonotone(g, step);
  }

  /**
   * Within one move, consecutive stamps are never more than one step apart,
   * and afterwards the last stamp is within one step of the recorded point.
   */
  lemma {:induction false} MoveGapFree(prev: Point, p1: Point, dist: real, step: real)
    requires IsHypot(dist, prev, p1) && step > 0.0
    ensures var m := MoveStamps(prev, p1, dist, step);
      && (forall n | 0 <= n < |m| - 1 :: SqDist(m[n], m[n + 1]) <= Sq(step))
      && SqDist(NextPrev(prev, p1, dist, step), m[|m| - 1]) <= Sq(step)
      && SqDist(prev, m[0]) <= Sq(step)
  {
    var m := MoveStamps(prev, p1, dist, step);
    if dist > step {
      var s := SegmentStamps(prev, p1, dist, step);
      assert m == s + [p1];
      forall n | 0 <= n < |m| - 1
        ensures SqDist(m[n], m[n + 1]) <= Sq(step)
      {
        if n + 1 < |s| {
          ConsecutiveStampsOneStepApart(prev, p1, dist, step, n);
        } else {
          LastStampWithinStep(prev, p1, dist, step);
        }
      }
      assert SqDist(p1, p1) == 0.0;
      assert SqDist(prev, prev) == 0.0;
    } else {
      SquareMonotone(dist, step);
    }
  }

  /**
   * Because `prev` stays put on short moves, stamps of two successive short
   * moves can lie two steps apart: with step 1 and prev at the origin,
   * moving to (1, 0) and then to (-1, 0) stamps only at those two points.
   */
  lemma StrokeGapCanReachTwoSteps()
    ensures var prev, a, b := Point(0.0, 0.0), Point(1.0, 0.0), Point(-1.0, 0.0);
      && MoveStamps(prev, a, 1.0, 1.0) == [a]
      && NextPrev(prev, a, 1.0, 1.0) == prev
      && MoveStamps(prev, b, 1.0, 1.0) == [b]
      && IsHypot(1.0, prev, a) && IsHypot(1.0, prev, b)
      && SqDist(a, b) == 4.0
  {
  }
}
