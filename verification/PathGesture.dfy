/** A finger dragged along a polyline with easing (device/springboard/InputInjector.m), over exact reals. */
module PathGesture {
  datatype Point = Point(x: real, y: real)

  /** Stands for `hypot` of the coordinate differences. */
  type Distance = (Point, Point) -> real

  ghost predicate IsDistance(dist: Distance) {
    forall p, q :: dist(p, q) >= 0.0 && (dist(p, q) == 0.0 <==> p == q)
  }

  function Ease(progress: real, easing: string): real {
    if easing == "ease_in" then progress * progress
    else if easing == "ease_out" then 1.0 - (1.0 - progress) * (1.0 - progress)
    else if easing == "ease_in_out" then
      if progress < 0.5 then 2.0 * progress * progress
      else 1.0 - (-2.0 * progress + 2.0) * (-2.0 * progress + 2.0) / 2.0
    else progress
  }

  lemma SquareGrows(a: real, b: real)
    requires 0.0 <= a <= b
    ensures 0.0 <= a * a <= b * b
  {
    assert a * a <= a * b <= b * b;
  }

  /** Every easing climbs from 0 to 1, and its second half takes over where the first ends. */
  lemma EaseClimbs(p: real, q: real, easing: string)
    requires 0.0 <= p <= q <= 1.0
    ensures Ease(0.0, easing) == 0.0 && Ease(1.0, easing) == 1.0
    ensures 0.0 <= Ease(p, easing) <= Ease(q, easing) <= 1.0
  {
    SquareGrows(p, q);
    SquareGrows(q, 1.0);
    SquareGrows(1.0 - q, 1.0 - p);
    SquareGrows(1.0 - p, 1.0);
    if easing == "ease_in_out" {
      if p < 0.5 { SquareGrows(p, 0.5); }
      if q < 0.5 { SquareGrows(q, 0.5); }
      if p >= 0.5 { SquareGrows(-2.0 * p + 2.0, 1.0); }
      if q >= 0.5 {
        SquareGrows(-2.0 * q + 2.0, 1.0);
        if p >= 0.5 { SquareGrows(-2.0 * q + 2.0, -2.0 * p + 2.0); }
      }
    }
  }

  /**
   * What the names promise: easing in is never ahead of linear and falls behind in between, easing out
   * is the same run backwards, easing in and out is easing in at double speed up to the middle and
   * the rest mirrored; any other name is linear.
   */
  lemma EaseBends(p: real)
    requires 0.0 <= p <= 1.0
    ensures 0.0 < p < 1.0 ==> Ease(p, "ease_in") < p < Ease(p, "ease_out")
    ensures Ease(p, "ease_out") == 1.0 - Ease(1.0 - p, "ease_in")
    ensures p <= 0.5 ==> Ease(p, "ease_in_out") == Ease(2.0 * p, "ease_in") / 2.0
    ensures Ease(p, "ease_in_out") == 1.0 - Ease(1.0 - p, "ease_in_out")
    ensures Ease(p, "linear") == p
  {
    if 0.0 < p < 1.0 {
      Shrinks(p);
      Shrinks(1.0 - p);
    }
  }

  lemma Shrinks(p: real)
    requires 0.0 < p < 1.0
    ensures p * p < p
  {
    assert p * (1.0 - p) > 0.0;
  }

  // ---------------------------------------------------------------- the path

  /** The length of the path up to its `i`-th corner. */
  function Offset(points: seq<Point>, dist: Distance, i: nat): real
    requires i < |points|
  {
    if i == 0 then 0.0 else Offset(points, dist, i - 1) + dist(points[i - 1], points[i])
  }

  function Total(points: seq<Point>, dist: Distance): real
    requires points != []
  {
    Offset(points, dist, |points| - 1)
  }

  method Offsets(points: seq<Point>, dist: Distance) returns (offsets: seq<real>)
    requires points != []
    ensures |offsets| == |points| && forall i | 0 <= i < |points| :: offsets[i] == Offset(points, dist, i)
  {
    offsets := [0.0];
    for index := 1 to |points|
      invariant |offsets| == index && forall i | 0 <= i < index :: offsets[i] == Offset(points, dist, i)
    {
      offsets := offsets + [offsets[index - 1] + dist(points[index - 1], points[index])];
    }
  }

  lemma {:induction false} OffsetsClimb(points: seq<Point>, dist: Distance, i: nat, j: nat)
    requires IsDistance(dist) && i <= j < |points|
    ensures 0.0 <= Offset(points, dist, i) <= Offset(points, dist, j)
  {
    if j == 0 {
    } else if i < j {
      OffsetsClimb(points, dist, i, j - 1);
    } else {
      OffsetsClimb(points, dist, i - 1, j - 1);
    }
  }

  function Between(from: Point, to: Point, fraction: real): Point {
    Point(from.x + (to.x - from.x) * fraction, from.y + (to.y - from.y) * fraction)
  }

  /**
   * The point a fraction of the way: both coordinates have gone that fraction, so it is on the line and
   * as far along.
   */
  lemma BetweenIsOnTheWay(from: Point, to: Point, fraction: real)
    ensures var p := Between(from, to, fraction);
            && p.x - from.x == fraction * (to.x - from.x) && p.y - from.y == fraction * (to.y - from.y)
            && to.x - p.x == (1.0 - fraction) * (to.x - from.x) && to.y - p.y == (1.0 - fraction) * (to.y - from.y)
  {
  }

  function Clamp(fraction: real): real {
    if fraction < 0.0 then 0.0 else if fraction > 1.0 then 1.0 else fraction
  }

  /** `p` is the point at a fraction of the `i`-th segment, `d` along the path. */
  predicate OnSegment(points: seq<Point>, dist: Distance, p: Point, d: real, i: nat, fraction: real) {
    && 1 <= i < |points| && 0.0 <= fraction <= 1.0
    && p == Between(points[i - 1], points[i], fraction)
    && d == Offset(points, dist, i - 1) + fraction * dist(points[i - 1], points[i])
  }

  /** `p` is the point of the path that lies `d` along it. */
  ghost predicate LiesAt(points: seq<Point>, dist: Distance, p: Point, d: real) {
    exists i, fraction :: OnSegment(points, dist, p, d, i, fraction)
  }

  lemma Fraction(d: real, start: real, length: real)
    requires length > 0.0 && start <= d <= start + length
    ensures 0.0 <= (d - start) / length <= 1.0 && (d - start) / length * length == d - start
  {
    var f := (d - start) / length;
    assert f * length == d - start;
    Quotients(d - start, length, length);
  }

  /** The sample for a distance along the path lies exactly that far along it, and the last one is the final point. */
  method PointAlongPath(points: seq<Point>, offsets: seq<real>, dist: Distance, distance: real) returns (p: Point)
    requires IsDistance(dist) && points != []
    requires |offsets| == |points| && forall i | 0 <= i < |points| :: offsets[i] == Offset(points, dist, i)
    requires 0.0 <= distance <= Total(points, dist)
    ensures |points| >= 2 ==> LiesAt(points, dist, p, distance)
    ensures distance == Total(points, dist) ==> p == points[|points| - 1]
  {
    for index := 1 to |points|
      invariant index >= 2 ==> distance > offsets[index - 1]
    {
      var segmentEnd := offsets[index];
      if distance > segmentEnd && index + 1 < |points| { continue; }
      var segmentStart := offsets[index - 1];
      var length := segmentEnd - segmentStart;
      var fraction := PartOfSegment(distance, segmentStart, length);
      p := Between(points[index - 1], points[index], fraction);
      SampleLies(points, dist, index, distance);
      return;
    }
    return points[|points| - 1];
  }

  /** The part of a segment that a distance along the path has covered. */
  function PartOfSegment(d: real, start: real, length: real): real {
    if length > 0.0 then Clamp((d - start) / length) else 1.0
  }

  lemma PartFits(d: real, start: real, length: real)
    requires length >= 0.0 && start <= d <= start + length
    ensures 0.0 <= PartOfSegment(d, start, length) <= 1.0
    ensures d == start + PartOfSegment(d, start, length) * length
    ensures d == start + length ==> PartOfSegment(d, start, length) == 1.0
  {
    if length > 0.0 { Fraction(d, start, length); }
  }

  /** Points with no length between them are one point. */
  lemma {:induction false} RestIsStill(points: seq<Point>, dist: Distance, i: nat, j: nat)
    requires IsDistance(dist) && i <= j < |points|
    requires Offset(points, dist, i) == Offset(points, dist, j)
    ensures points[i] == points[j]
  {
    if i == j {
    } else {
      OffsetsClimb(points, dist, i, j - 1);
      RestIsStill(points, dist, i, j - 1);
    }
  }

  /** `i` is the segment in which the loop stops for the distance `d`. */
  predicate IsSegmentOf(points: seq<Point>, dist: Distance, i: nat, d: real) {
    && 1 <= i < |points| && 0.0 <= d <= Total(points, dist)
    && (i >= 2 ==> d > Offset(points, dist, i - 1))
    && (i + 1 < |points| ==> d <= Offset(points, dist, i))
  }

  function FractionAt(points: seq<Point>, dist: Distance, i: nat, d: real): real
    requires 1 <= i < |points|
  {
    PartOfSegment(d, Offset(points, dist, i - 1), dist(points[i - 1], points[i]))
  }

  lemma FractionFits(points: seq<Point>, dist: Distance, i: nat, d: real)
    requires IsDistance(dist) && IsSegmentOf(points, dist, i, d)
    ensures OnSegment(points, dist, Between(points[i - 1], points[i], FractionAt(points, dist, i, d)),
            d, i, FractionAt(points, dist, i, d))
    ensures d == Offset(points, dist, i) ==> FractionAt(points, dist, i, d) == 1.0
  {
    PartFits(d, Offset(points, dist, i - 1), dist(points[i - 1], points[i]));
  }

  /** The whole length ends at the last point, even if the last segments have no length. */
  lemma EndIsLast(points: seq<Point>, dist: Distance, i: nat)
    requires IsDistance(dist) && points != [] && IsSegmentOf(points, dist, i, Total(points, dist))
    ensures Total(points, dist) == Offset(points, dist, i) && points[i] == points[|points| - 1]
  {
    OffsetsClimb(points, dist, i, |points| - 1);
    RestIsStill(points, dist, i, |points| - 1);
  }

  /** The segment found for a distance holds the point that far along. */
  lemma SampleLies(points: seq<Point>, dist: Distance, i: nat, d: real)
    requires IsDistance(dist) && IsSegmentOf(points, dist, i, d)
    ensures var p := Between(points[i - 1], points[i], FractionAt(points, dist, i, d));
            && LiesAt(points, dist, p, d)
            && (d == Total(points, dist) ==> p == points[|points| - 1])
  {
    FractionFits(points, dist, i, d);
    if d == Total(points, dist) {
      EndIsLast(points, dist, i);
    }
  }

  /** Only one point lies a given distance along the path, so a sample is determined by its distance. */
  lemma OnePointAtADistance(points: seq<Point>, dist: Distance, p: Point, q: Point, d: real)
    requires IsDistance(dist) && LiesAt(points, dist, p, d) && LiesAt(points, dist, q, d)
    ensures p == q
  {
    var i: nat, f: real :| OnSegment(points, dist, p, d, i, f);
    var j: nat, g: real :| OnSegment(points, dist, q, d, j, g);
    if i < j {
      MeetAtCorner(points, dist, p, q, d, i, f, j, g);
    } else if j < i {
      MeetAtCorner(points, dist, q, p, d, j, g, i, f);
    } else {
      SameSegment(points, dist, p, q, d, i, f, g);
    }
  }

  lemma SameSegment(points: seq<Point>, dist: Distance, p: Point, q: Point, d: real, i: nat, f: real, g: real)
    requires IsDistance(dist)
    requires OnSegment(points, dist, p, d, i, f) && OnSegment(points, dist, q, d, i, g)
    ensures p == q
  {
    var length := dist(points[i - 1], points[i]);
    var x, y := f * length, g * length;
    assert x == y;
    if length == 0.0 {
      StillSegment(points, dist, i, f);
      StillSegment(points, dist, i, g);
    } else {
      SameFraction(f, g, length);
    }
  }

  lemma SameFraction(f: real, g: real, length: real)
    requires f * length == g * length && length != 0.0
    ensures f == g
  {
    assert (f - g) * length == 0.0;
  }

  lemma StillSegment(points: seq<Point>, dist: Distance, i: nat, f: real)
    requires IsDistance(dist) && 1 <= i < |points| && dist(points[i - 1], points[i]) == 0.0
    ensures Between(points[i - 1], points[i], f) == points[i]
  {
  }

  lemma {:induction false} MeetAtCorner(
    points: seq<Point>, dist: Distance, p: Point, q: Point, d: real, i: nat, f: real, j: nat, g: real)
    requires IsDistance(dist) && i < j
    requires OnSegment(points, dist, p, d, i, f) && OnSegment(points, dist, q, d, j, g)
    ensures p == q
  {
    var length, other := dist(points[i - 1], points[i]), dist(points[j - 1], points[j]);
    OffsetsClimb(points, dist, i, j - 1);
    Squeeze(d, Offset(points, dist, i - 1), length, f, Offset(points, dist, j - 1), other, g);
    RestIsStill(points, dist, i, j - 1);
    if length == 0.0 { StillSegment(points, dist, i, f); }
    if other == 0.0 { StillSegment(points, dist, j, g); }
  }

  /** The end of one stretch and the start of a later one can only meet where the one ends and the other starts. */
  lemma Squeeze(d: real, a: real, length: real, f: real, b: real, other: real, g: real)
    requires length >= 0.0 && other >= 0.0 && 0.0 <= f <= 1.0 && 0.0 <= g <= 1.0 && a + length <= b
    requires d == a + f * length && d == b + g * other
    ensures a + length == b && (length == 0.0 || f == 1.0) && (other == 0.0 || g == 0.0)
  {
    var x, y := f * length, g * other;
    assert x <= length by { Scale(length, f, 1.0); }
    assert y >= 0.0 by { Scale(other, g, 1.0); }
    assert x == length && y == 0.0;
    WholeOrNone(f, length);
    WholeOrNone(g, other);
  }

  lemma WholeOrNone(f: real, length: real)
    ensures f * length == length ==> length == 0.0 || f == 1.0
    ensures f * length == 0.0 ==> length == 0.0 || f == 0.0
  {
    assert f * length == length ==> (f - 1.0) * length == 0.0;
  }

  // ---------------------------------------------------------------- the gesture

  datatype Touch = Touch(at: Point, down: bool)

  function Ceil(x: real): int { if x.Floor as real == x then x.Floor else x.Floor + 1 }

  function Frames(durationMs: nat): nat {
    var wanted := Ceil(durationMs as real / 8.0);
    if wanted > 2 then wanted else 2
  }

  /** An easing climbs from 0 to 1. */
  ghost predicate IsEasing(ease: real -> real) {
    && ease(0.0) == 0.0 && ease(1.0) == 1.0
    && forall p, q | 0.0 <= p <= q <= 1.0 :: 0.0 <= ease(p) <= ease(q) <= 1.0
  }

  function EasingNamed(easing: string): real -> real {
    (progress: real) => Ease(progress, easing)
  }

  lemma EveryEasingClimbs(easing: string)
    ensures IsEasing(EasingNamed(easing))
  {
    EaseClimbs(0.0, 1.0, easing);
    forall p, q | 0.0 <= p <= q <= 1.0
      ensures 0.0 <= Ease(p, easing) <= Ease(q, easing) <= 1.0
    {
      EaseClimbs(p, q, easing);
    }
  }

  /** How much of the time has passed at a frame. */
  function Progress(frame: nat, frames: nat): real
    requires 0 < frames
  {
    frame as real / frames as real
  }

  /** How far along the path the sample is when so much of the time has passed. */
  function Travelled(total: real, ease: real -> real, progress: real): real { total * ease(progress) }

  lemma Scale(total: real, a: real, b: real)
    requires total >= 0.0 && 0.0 <= a <= b <= 1.0
    ensures 0.0 <= total * a <= total * b <= total
  {
    assert total * (b - a) >= 0.0 && total * (1.0 - b) >= 0.0;
  }

  lemma Quotients(a: real, b: real, n: real)
    requires 0.0 <= a <= b <= n && n > 0.0
    ensures 0.0 <= a / n <= b / n <= 1.0 && n / n == 1.0
  {
  }

  lemma EasedClimbs(total: real, ease: real -> real, p: real, q: real)
    requires total >= 0.0 && IsEasing(ease) && 0.0 <= p <= q <= 1.0
    ensures 0.0 <= Travelled(total, ease, p) <= Travelled(total, ease, q) <= total
    ensures q == 1.0 ==> Travelled(total, ease, q) == total
  {
    var x, y := ease(p), ease(q);
    assert 0.0 <= x <= y <= 1.0;
    Scale(total, x, y);
    if q == 1.0 {
      assert y == ease(1.0) == 1.0;
      assert total * 1.0 == total;
    }
  }

  lemma ProgressClimbs(f: nat, g: nat, frames: nat)
    requires 0 < frames && f <= g <= frames
    ensures 0.0 <= Progress(f, frames) <= Progress(g, frames) <= 1.0
    ensures Progress(frames, frames) == 1.0
  {
    Quotients(f as real, g as real, frames as real);
  }

  /** Samples never go back along the path, never leave it, and the last is at its end. */
  lemma TravelledClimbs(total: real, ease: real -> real, f: nat, g: nat, frames: nat)
    requires total >= 0.0 && IsEasing(ease) && 0 < frames && f <= g <= frames
    ensures var at := (frame: nat) => Travelled(total, ease, Progress(frame, frames));
            0.0 <= at(f) <= at(g) <= total && (g == frames ==> at(g) == total)
  {
    ProgressClimbs(f, g, frames);
    EasedClimbs(total, ease, Progress(f, frames), Progress(g, frames));
  }

  /**
   * Between start and end, eased in a drag lags behind an even pace, eased out it is ahead of it;
   * linear, it keeps it.
   */
  lemma PacedAsNamed(total: real, frame: nat, frames: nat)
    requires total > 0.0 && 0 < frame < frames
    ensures var even := total * (frame as real / frames as real);
            && Travelled(total, EasingNamed("ease_in"), Progress(frame, frames)) < even
            && even < Travelled(total, EasingNamed("ease_out"), Progress(frame, frames))
            && Travelled(total, EasingNamed("linear"), Progress(frame, frames)) == even
  {
    var p := Progress(frame, frames);
    Inside(frame as real, frames as real);
    EaseBends(p);
    ScaleStrict(total, Ease(p, "ease_in"), p);
    ScaleStrict(total, p, Ease(p, "ease_out"));
  }

  lemma SignOfProduct(q: real, n: real)
    requires n > 0.0
    ensures q > 0.0 <==> q * n > 0.0
  {
  }

  /** A factor that takes a number to a smaller one lies between 0 and 1. */
  lemma FactorInside(q: real, a: real, n: real)
    requires 0.0 < a < n && q * n == a
    ensures 0.0 < q < 1.0
  {
    SignOfProduct(q, n);
    assert (1.0 - q) * n == n - a;
    SignOfProduct(1.0 - q, n);
  }

  lemma Inside(a: real, n: real)
    requires 0.0 < a < n
    ensures 0.0 < a / n < 1.0
  {
    assert a / n * n == a;
    FactorInside(a / n, a, n);
  }

  lemma ScaleStrict(total: real, a: real, b: real)
    requires total > 0.0 && a < b
    ensures total * a < total * b
  {
    assert total * (b - a) > 0.0;
  }

  /** The frames are as many as 8 ms frames it takes to last the duration, and at least two. */
  lemma FramesLast(durationMs: nat)
    ensures var frames := Frames(durationMs);
            && frames >= 2 && 8 * frames >= durationMs
            && (frames > 2 ==> 8 * (frames - 1) < durationMs)
  {
    var wanted := durationMs as real / 8.0;
    var whole := Ceil(wanted);
    assert whole as real >= wanted > whole as real - 1.0;
    assert wanted * 8.0 == durationMs as real;
    assert (8 * whole) as real >= durationMs as real > (8 * (whole - 1)) as real;
  }

  /** A plan says how far along the path each frame's sample is; it stays on the path and ends at its end. */
  ghost predicate IsPlan(points: seq<Point>, dist: Distance, frames: nat, plan: nat -> real)
    requires points != []
  {
    (forall k: nat | k <= frames :: 0.0 <= plan(k) <= Total(points, dist)) && plan(frames) == Total(points, dist)
  }

  /** After the touch down, the `k`-th touch is a move to the `k`-th sample. */
  ghost predicate Moves(points: seq<Point>, dist: Distance, plan: nat -> real, trace: seq<Touch>, k: nat)
    requires k < |trace|
  {
    trace[k].down && LiesAt(points, dist, trace[k].at, plan(k))
  }

  /**
   * The touches of `frames` frames. `works(k)` says whether the k-th touch tried is dispatched;
   * `trace` is what was tried. On success it is one touch down at the start, a move for every frame
   * to the planned place, and one touch up at the final point; a failed move is followed by one
   * touch up, tried where the finger was.
   */
  method Drag(points: seq<Point>, offsets: seq<real>, frames: nat, plan: nat -> real,
    dist: Distance, works: nat -> bool)
    returns (ok: bool, trace: seq<Touch>)
    requires IsDistance(dist) && |points| >= 2 && frames > 0 && IsPlan(points, dist, frames, plan)
    requires |offsets| == |points| && forall i | 0 <= i < |points| :: offsets[i] == Offset(points, dist, i)
    ensures trace != [] && trace[0] == Touch(points[0], true) && |trace| <= frames + 2
    ensures |trace| == 1 <==> !works(0)
    ensures |trace| > 1 ==> trace[|trace| - 1] == Touch(trace[|trace| - 2].at, false)
    ensures forall k | 1 <= k < |trace| - 1 :: Moves(points, dist, plan, trace, k)
    ensures ok <==> forall k | 0 <= k < |trace| :: works(k)
    ensures ok ==> |trace| == frames + 2 && trace[|trace| - 1] == Touch(points[|points| - 1], false)
  {
    var current := points[0];
    trace := [Touch(current, true)];
    if !works(0) { return false, trace; }
    for frame := 1 to frames + 1
      invariant |trace| == frame && Dragged(points, dist, plan, works, trace)
      invariant current == trace[frame - 1].at
      invariant frame == frames + 1 ==> current == points[|points| - 1]
    {
      current := PointAlongPath(points, offsets, dist, plan(frame));
      MoveOn(points, dist, plan, works, trace, current);
      trace := trace + [Touch(current, true)];
      if !works(frame) {
        Lift(points, dist, plan, trace, current);
        trace := trace + [Touch(current, false)];
        return false, trace;
      }
    }
    Lift(points, dist, plan, trace, current);
    trace := trace + [Touch(current, false)];
    ok := works(frames + 1);
  }

  /** A touch down at the start and moves as planned, all of them dispatched. */
  ghost predicate Dragged(points: seq<Point>, dist: Distance, plan: nat -> real, works: nat -> bool, trace: seq<Touch>)
    requires points != []
  {
    && trace != [] && trace[0] == Touch(points[0], true)
    && (forall k | 0 <= k < |trace| :: works(k))
    && (forall k | 1 <= k < |trace| :: Moves(points, dist, plan, trace, k))
  }

  lemma MoveOn(points: seq<Point>, dist: Distance, plan: nat -> real, works: nat -> bool, trace: seq<Touch>, p: Point)
    requires points != [] && Dragged(points, dist, plan, works, trace) && LiesAt(points, dist, p, plan(|trace|))
    ensures var longer := trace + [Touch(p, true)];
            && (works(|trace|) ==> Dragged(points, dist, plan, works, longer))
            && longer[0] == Touch(points[0], true)
            && (forall k | 1 <= k < |longer| :: Moves(points, dist, plan, longer, k))
  {
    var longer := trace + [Touch(p, true)];
    forall k | 1 <= k < |longer|
      ensures Moves(points, dist, plan, longer, k)
    {
      if k < |trace| {
        assert Moves(points, dist, plan, trace, k) && longer[k] == trace[k];
      }
    }
  }

  lemma Lift(points: seq<Point>, dist: Distance, plan: nat -> real, trace: seq<Touch>, p: Point)
    requires forall k | 1 <= k < |trace| :: Moves(points, dist, plan, trace, k)
    ensures forall k | 1 <= k < |trace| :: Moves(points, dist, plan, trace + [Touch(p, false)], k)
  {
    forall k | 1 <= k < |trace|
      ensures Moves(points, dist, plan, trace + [Touch(p, false)], k)
    {
      assert Moves(points, dist, plan, trace, k) && (trace + [Touch(p, false)])[k] == trace[k];
    }
  }

  function EasedPlan(total: real, ease: real -> real, frames: nat): nat -> real
    requires 0 < frames
  {
    (frame: nat) => Travelled(total, ease, Progress(frame, frames))
  }

  lemma EasedPlanIsPlan(points: seq<Point>, dist: Distance, ease: real -> real, frames: nat)
    requires points != [] && IsDistance(dist) && IsEasing(ease) && 0 < frames
    ensures IsPlan(points, dist, frames, EasedPlan(Total(points, dist), ease, frames))
  {
    OffsetsClimb(points, dist, 0, |points| - 1);
    forall k: nat | k <= frames
      ensures 0.0 <= Travelled(Total(points, dist), ease, Progress(k, frames)) <= Total(points, dist)
    {
      TravelledClimbs(Total(points, dist), ease, k, frames, frames);
    }
    TravelledClimbs(Total(points, dist), ease, frames, frames, frames);
  }

  method PerformPathGesture(points: seq<Point>, durationMs: nat, easing: string, dist: Distance, works: nat -> bool)
    returns (ok: bool, trace: seq<Touch>)
    requires IsDistance(dist) && |points| >= 2
    ensures var frames := Frames(durationMs);
            && trace != [] && trace[0] == Touch(points[0], true) && |trace| <= frames + 2
            && (forall k | 1 <= k < |trace| - 1 ::
                  Moves(points, dist, EasedPlan(Total(points, dist), EasingNamed(easing), frames), trace, k))
            && (ok ==> |trace| == frames + 2 && trace[|trace| - 1] == Touch(points[|points| - 1], false))
    ensures |trace| > 1 ==> trace[|trace| - 1] == Touch(trace[|trace| - 2].at, false)
    ensures |trace| == 1 <==> !works(0)
    ensures ok <==> forall k | 0 <= k < |trace| :: works(k)
  {
    var offsets := Offsets(points, dist);
    var frames := Frames(durationMs);
    EveryEasingClimbs(easing);
    EasedPlanIsPlan(points, dist, EasingNamed(easing), frames);
    ok, trace := Drag(points, offsets, frames,
      EasedPlan(offsets[|offsets| - 1], EasingNamed(easing), frames), dist, works);
  }
}
