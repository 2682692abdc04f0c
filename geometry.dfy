/** Planar points and the primitives the footprint scripts share: squared
    distances, the point-to-segment distance, the perpendicular projection,
    the edge-normal rule and the abstract segment-intersection and
    normalisation helpers.  Coordinates are reals; a distance `d` of the
    source appears here as its square `d * d`, so no square root is needed. */
module Geometry {

  datatype Point = Point(x: real, y: real)

  /** A directed segment from `p` to `q` (a polygon edge, a dilation line). */
  datatype Segment = Segment(p: Point, q: Point)

  /** One line of a footprint file: the OBJ file name, the point-cloud file
      name and the polygon nodes in traversal order. */
  datatype PolygonRecord = PolygonRecord(objName: string, cloudName: string, nodes: seq<Point>)

  const Origin := Point(0.0, 0.0)

  function Add(a: Point, b: Point): Point { Point(a.x + b.x, a.y + b.y) }

  function Sub(a: Point, b: Point): Point { Point(a.x - b.x, a.y - b.y) }

  function Scale(k: real, a: Point): Point { Point(k * a.x, k * a.y) }

  function Dot(a: Point, b: Point): real { a.x * b.x + a.y * b.y }

  function Cross(a: Point, b: Point): real { a.x * b.y - a.y * b.x }

  /** Squared length: never negative, and zero for the zero vector. */
  function Norm2(a: Point): (r: real)
    ensures 0.0 <= r
    ensures a == Origin ==> r == 0.0
  {
    a.x * a.x + a.y * a.y
  }

  function Dist2(a: Point, b: Point): real { Norm2(Sub(a, b)) }

  lemma Dist2Symmetric(a: Point, b: Point)
    ensures Dist2(a, b) == Dist2(b, a)
  {
  }

  /** The halfway point as the scripts write it, `a + (b - a) / 2`. */
  function Mid(a: Point, b: Point): Point
  {
    Point(a.x + (b.x - a.x) / 2.0, a.y + (b.y - a.y) / 2.0)
  }

  /** The halfway point is equally far from both ends, at half their distance,
      and on the line through them. */
  lemma MidIsHalfway(a: Point, b: Point)
    ensures Dist2(Mid(a, b), a) == Dist2(Mid(a, b), b)
    ensures 4.0 * Dist2(Mid(a, b), a) == Dist2(a, b)
    ensures Cross(Sub(Mid(a, b), a), Sub(b, a)) == 0.0
  {
  }

  /** The projection parameter clamped to [0, 1] (the two `if`s after it is computed). */
  function Clamp01(u: real): (c: real)
    ensures 0.0 <= c <= 1.0
    ensures 0.0 <= u <= 1.0 ==> c == u
    ensures u < 0.0 ==> c == 0.0
    ensures 1.0 < u ==> c == 1.0
  {
    if u > 1.0 then 1.0 else if u < 0.0 then 0.0 else u
  }

  /** Parameter of the foot of the perpendicular from `p` on the line `a + u (b - a)`.
      The division by the squared edge length is why the segment needs a
      non-zero length (the source raises ZeroDivisionError otherwise). */
  function SegmentParam(a: Point, b: Point, p: Point): real
    requires Dist2(b, a) != 0.0
  {
    Dot(Sub(p, a), Sub(b, a)) / Norm2(Sub(b, a))
  }

  /** The point of segment (a, b) that shortest_distance_from_point_to_line_segment measures to. */
  function NearestOnSegment(a: Point, b: Point, p: Point): Point
    requires Dist2(b, a) != 0.0
  {
    Add(a, Scale(Clamp01(SegmentParam(a, b, p)), Sub(b, a)))
  }

  /** Square of shortest_distance_from_point_to_line_segment(a, b, p): the least
      squared distance from `p` to a point `a + t (b - a)` of the segment
      (`SegDist2Attained` shows that a point of the segment is that far). */
  function SegDist2(a: Point, b: Point, p: Point): (d: real)
    requires Dist2(b, a) != 0.0
    ensures 0.0 <= d
    ensures forall t :: 0.0 <= t <= 1.0 ==> d <= Dist2(Add(a, Scale(t, Sub(b, a))), p)
    ensures d <= Dist2(p, a) && d <= Dist2(p, b)
    ensures p == a || p == b ==> d == 0.0
  {
    ClampedIsNearer(a, b, p);
    Dist2(NearestOnSegment(a, b, p), p)
  }

  /** The shortest distance is reached: some point of the segment lies exactly
      `SegDist2` away from `p`. */
  lemma SegDist2Attained(a: Point, b: Point, p: Point)
    requires Dist2(b, a) != 0.0
    ensures exists t :: 0.0 <= t <= 1.0 && SegDist2(a, b, p) == Dist2(Add(a, Scale(t, Sub(b, a))), p)
  {
    var c := Clamp01(SegmentParam(a, b, p));
    assert SegDist2(a, b, p) == Dist2(Add(a, Scale(c, Sub(b, a))), p);
  }

  /** The squared distance from `p` to `a + c (b - a)` as a polynomial in `c`,
      with `n` the squared edge length, `w` the dot product of `p - a` with the
      edge and `f0` the squared distance from `p` to `a`. */
  function LinePoly(n: real, w: real, f0: real, c: real): real
  {
    c * c * n - 2.0 * c * w + f0
  }

  /** Expands the squared distance from `p` to the point `a + c (b - a)`. */
  lemma OnLineDistance(a: Point, b: Point, p: Point, c: real)
    ensures Dist2(Add(a, Scale(c, Sub(b, a))), p)
         == LinePoly(Norm2(Sub(b, a)), Dot(Sub(p, a), Sub(b, a)), Norm2(Sub(p, a)), c)
  {
    var dx, dy := b.x - a.x, b.y - a.y;
    var wx, wy := p.x - a.x, p.y - a.y;
    calc {
      Dist2(Add(a, Scale(c, Sub(b, a))), p);
      (c * dx - wx) * (c * dx - wx) + (c * dy - wy) * (c * dy - wy);
      c * c * (dx * dx + dy * dy) - 2.0 * c * (wx * dx + wy * dy) + (wx * wx + wy * wy);
    }
  }

  lemma MulNonneg(p: real, q: real)
    requires 0.0 <= p && 0.0 <= q
    ensures 0.0 <= p * q
  {
  }

  /** The distance polynomial `c * c * n - 2 * c * w` along the edge line (the
      constant term left out) is no larger at the clamped parameter than at any
      parameter `t` of the segment.  The difference factors into non-negative
      parts: `n (t - u)^2` inside, `t n (t - 2 u)` below 0 and
      `(1 - t) n (2 u - t - 1)` above 1. */
  lemma ClampedParameterIsNearest(n: real, w: real, u: real, t: real, f0: real)
    requires 0.0 <= n && w == u * n
    requires 0.0 <= t <= 1.0
    ensures LinePoly(n, w, f0, Clamp01(u)) <= LinePoly(n, w, f0, t)
  {
    var c := Clamp01(u);
    var gap := LinePoly(n, w, f0, t) - LinePoly(n, w, f0, c);
    if c == u {
      MulNonneg(n, (t - u) * (t - u));
      assert gap == n * ((t - u) * (t - u));
    } else if c == 0.0 {
      MulNonneg(t, t - 2.0 * u);
      MulNonneg(n, t * (t - 2.0 * u));
      assert gap == n * (t * (t - 2.0 * u));
    } else {
      assert c == 1.0;
      MulNonneg(1.0 - t, 2.0 * u - t - 1.0);
      MulNonneg(n, (1.0 - t) * (2.0 * u - t - 1.0));
      assert gap == n * ((1.0 - t) * (2.0 * u - t - 1.0));
    }
  }

  /** The projection parameter times the squared edge length is the dot product it came from. */
  lemma ParamTimesLength(a: Point, b: Point, p: Point)
    requires Dist2(b, a) != 0.0
    ensures Dot(Sub(p, a), Sub(b, a)) == SegmentParam(a, b, p) * Norm2(Sub(b, a))
  {
  }

  /** The clamped projection is at least as near to `p` as the point of the
      segment at parameter `t`. */
  lemma ClampedBeats(a: Point, b: Point, p: Point, t: real)
    requires Dist2(b, a) != 0.0
    requires 0.0 <= t <= 1.0
    ensures Dist2(NearestOnSegment(a, b, p), p) <= Dist2(Add(a, Scale(t, Sub(b, a))), p)
  {
    var n, w, f0 := Norm2(Sub(b, a)), Dot(Sub(p, a), Sub(b, a)), Norm2(Sub(p, a));
    var u := SegmentParam(a, b, p);
    ParamTimesLength(a, b, p);
    OnLineDistance(a, b, p, t);
    OnLineDistance(a, b, p, Clamp01(u));
    ClampedParameterIsNearest(n, w, u, t, f0);
  }

  /** The clamped projection is at least as near to `p` as every point of the
      segment, the two ends included. */
  lemma ClampedIsNearer(a: Point, b: Point, p: Point)
    requires Dist2(b, a) != 0.0
    ensures forall t :: 0.0 <= t <= 1.0 ==>
              Dist2(NearestOnSegment(a, b, p), p) <= Dist2(Add(a, Scale(t, Sub(b, a))), p)
    ensures Dist2(NearestOnSegment(a, b, p), p) <= Dist2(p, a)
    ensures Dist2(NearestOnSegment(a, b, p), p) <= Dist2(p, b)
  {
    forall t | 0.0 <= t <= 1.0
      ensures Dist2(NearestOnSegment(a, b, p), p) <= Dist2(Add(a, Scale(t, Sub(b, a))), p)
    {
      ClampedBeats(a, b, p, t);
    }
    assert Add(a, Scale(0.0, Sub(b, a))) == a;
    assert Add(a, Scale(1.0, Sub(b, a))) == b;
    Dist2Symmetric(p, a);
    Dist2Symmetric(p, b);
  }

  /** project_point_to_line(p, (a, b)): the foot of the perpendicular from `p` on the
      line through `a` and `b`.  The source normalises `b - a` first; with
      `n = (b - a) / |b - a|` the foot `a + n ((p - a) . n)` equals the expression here. */
  function Project(p: Point, a: Point, b: Point): (r: Point)
    requires Dist2(b, a) != 0.0
    ensures Dot(Sub(p, r), Sub(b, a)) == 0.0
    ensures Cross(Sub(r, a), Sub(b, a)) == 0.0
    ensures p == a ==> r == a
  {
    var u := SegmentParam(a, b, p);
    var r := Add(a, Scale(u, Sub(b, a)));
    assert Dot(Sub(p, r), Sub(b, a)) == Dot(Sub(p, a), Sub(b, a)) - u * Norm2(Sub(b, a));
    r
  }

  /** The sign test of the edge-normal rule: candidate `(-dy, dx)` is added to the
      edge midpoint and the cross product of the edge with that test point is taken. */
  function NormalTest(a: Point, b: Point): real
  {
    var halfway := Point(a.x + 0.5 * (b.x - a.x), a.y + 0.5 * (b.y - a.y));
    var dx, dy := b.x - a.x, b.y - a.y;
    var test := Point(halfway.x + -dy, halfway.y + dx);
    (dx * (test.y - a.y)) - (dy * (test.x - a.x))
  }

  /** The normal chosen for edge (a, b): `(-dy, dx)` when the test is negative or
      zero (the "180-degree" fallback), `(dy, -dx)` otherwise. */
  function EdgeNormal(a: Point, b: Point): Point
  {
    var dx, dy := b.x - a.x, b.y - a.y;
    var cp := NormalTest(a, b);
    if cp < 0.0 then Point(-dy, dx)
    else if cp == 0.0 then Point(-dy, dx)
    else Point(dy, -dx)
  }

  /** Because the test is the squared edge length, every edge of non-zero
      length gets the right-hand normal `(dy, -dx)`. */
  lemma EdgeNormalIsRightHand(a: Point, b: Point)
    requires Dist2(b, a) != 0.0
    ensures EdgeNormal(a, b) == Point(b.y - a.y, -(b.x - a.x))
  {
    NormalTestIsSquaredLength(a, b);
  }

  /** The normal is one of the two quarter turns of the edge vector. */
  lemma EdgeNormalIsQuarterTurn(a: Point, b: Point)
    ensures EdgeNormal(a, b) == Point(-(b.y - a.y), b.x - a.x) || EdgeNormal(a, b) == Point(b.y - a.y, -(b.x - a.x))
  {
  }

  /** A quarter turn of the edge vector is perpendicular to the edge, as long
      as it, and zero exactly when the edge has equal ends. */
  lemma QuarterTurnShape(a: Point, b: Point, n: Point)
    requires n == Point(-(b.y - a.y), b.x - a.x) || n == Point(b.y - a.y, -(b.x - a.x))
    ensures Dot(n, Sub(b, a)) == 0.0
    ensures Norm2(n) == Dist2(b, a)
    ensures n == Origin <==> a == b
  {
  }

  /** The normal is perpendicular to its edge and exactly as long, and it is
      the zero vector exactly for an edge with equal ends. */
  lemma EdgeNormalShape(a: Point, b: Point)
    ensures Dot(EdgeNormal(a, b), Sub(b, a)) == 0.0
    ensures Norm2(EdgeNormal(a, b)) == Dist2(b, a)
    ensures EdgeNormal(a, b) == Origin <==> a == b
  {
    EdgeNormalIsQuarterTurn(a, b);
    QuarterTurnShape(a, b, EdgeNormal(a, b));
  }

  /** The cross product of the normal test simplifies to `dx * dx + dy * dy`. */
  lemma NormalTestIsSquaredLength(a: Point, b: Point)
    ensures NormalTest(a, b) == Dist2(b, a)
  {
    var dx, dy := b.x - a.x, b.y - a.y;
    calc {
      NormalTest(a, b);
      dx * (0.5 * dy + dx) - dy * (0.5 * dx - dy);
      dx * dx + dy * dy;
    }
  }

  /** The first branch of the normal rule never runs, and the fallback runs
      exactly for an edge of zero length (among them every edge with equal ends). */
  lemma NormalFallbackOnlyForZeroLengthEdge(a: Point, b: Point)
    ensures !(NormalTest(a, b) < 0.0)
    ensures NormalTest(a, b) == 0.0 <==> Dist2(b, a) == 0.0
    ensures a == b ==> NormalTest(a, b) == 0.0
  {
    NormalTestIsSquaredLength(a, b);
  }

  /** Shapely's `LineString.intersects` and `LineString.intersection` on two
      segments, kept abstract: `crosses(s, t)` says whether they meet and
      `at(s, t)` is the meeting point.  Every result of the model holds for
      every such pair of functions. */
  datatype Intersector = Intersector(crosses: (Segment, Segment) -> bool, at: (Segment, Segment) -> Point)

  /** `unit` plays `v / |v|` (numpy normalisation): for a non-zero `v` it has
      length one and points the same way as `v`. */
  ghost predicate IsUnit(unit: Point -> Point)
  {
    forall v {:trigger unit(v)} :: v != Origin ==>
      Norm2(unit(v)) == 1.0 && Cross(unit(v), v) == 0.0 && Dot(unit(v), v) > 0.0
  }

  /** A node displaced from `corner` by `amount` along the normalised `normal`. */
  function Displaced(unit: Point -> Point, amount: real, corner: Point, normal: Point): Point
  {
    Add(corner, Scale(amount, unit(normal)))
  }

  /** A displaced node moves exactly `amount` (squared: `amount * amount`), along
      the normal and, for a positive amount, to the normal's side. */
  lemma DisplacedDistance(unit: Point -> Point, amount: real, corner: Point, normal: Point)
    requires IsUnit(unit)
    requires normal != Origin
    ensures Dist2(Displaced(unit, amount, corner, normal), corner) == amount * amount
    ensures Cross(Sub(Displaced(unit, amount, corner, normal), corner), normal) == 0.0
    ensures amount > 0.0 ==> Dot(Sub(Displaced(unit, amount, corner, normal), corner), normal) > 0.0
  {
    var u := unit(normal);
    var m := Displaced(unit, amount, corner, normal);
    assert Sub(m, corner) == Scale(amount, u);
    calc {
      Dist2(m, corner);
      Norm2(Scale(amount, u));
      amount * amount * Norm2(u);
    }
    assert Cross(Scale(amount, u), normal) == amount * Cross(u, normal);
    assert Dot(Scale(amount, u), normal) == amount * Dot(u, normal);
  }

  /** Python's `s[:-4]`: the string without its last four characters (empty when shorter). */
  function WithoutLastFour(s: string): (r: string)
    ensures |s| >= 4 ==> |r| == |s| - 4 && s == r + s[|s| - 4..]
    ensures |s| < 4 ==> r == ""
  {
    if |s| >= 4 then s[..|s| - 4] else ""
  }

  /** Cutting a four-character extension gives back the stem. */
  lemma WithoutLastFourOfExtension(stem: string, ext: string)
    requires |ext| == 4
    ensures WithoutLastFour(stem + ext) == stem
  {
    assert (stem + ext)[..|stem|] == stem;
  }
}
