/** The arithmetic the selector ranks points with: the area of a triangle
    (`calculateTriangleArea`) and the mean of a bucket
    (`calculateBucketAverage`). Coordinates are exact reals. */
module Geometry {

  /** A sample of the series: x is the timestamp, y the measured value. */
  datatype Point = Point(x: real, y: real)

  function Abs(r: real): (a: real)
    ensures a >= 0.0 && (a == r || a == -r)
  {
    if r < 0.0 then -r else r
  }

  /** The cross product (b - a) x (c - a): twice the signed area of triangle abc. */
  function Cross(a: Point, b: Point, c: Point): real
  {
    (b.x - a.x) * (c.y - a.y) - (c.x - a.x) * (b.y - a.y)
  }

  /** `calculateTriangleArea`: the shoelace sum, halved, made non-negative. */
  function TriangleArea(a: Point, b: Point, c: Point): (area: real)
    ensures area >= 0.0
  {
    Abs((a.x * (b.y - c.y) + b.x * (c.y - a.y) + c.x * (a.y - b.y)) / 2.0)
  }

  /** The shoelace sum is the cross product (b - a) x (c - a): the area is
      half its absolute value. */
  lemma TriangleAreaIsHalfCross(a: Point, b: Point, c: Point)
    ensures 2.0 * TriangleArea(a, b, c) == Abs(Cross(a, b, c))
  {
    assert a.x * (b.y - c.y) == a.x * b.y - a.x * c.y;
    assert b.x * (c.y - a.y) == b.x * c.y - b.x * a.y;
    assert c.x * (a.y - b.y) == c.x * a.y - c.x * b.y;
    assert (b.x - a.x) * (c.y - a.y) == b.x * c.y - b.x * a.y - a.x * c.y + a.x * a.y;
    assert (c.x - a.x) * (b.y - a.y) == c.x * b.y - c.x * a.y - a.x * b.y + a.x * a.y;
  }

  /** The point reached from a by t times the step from a to b. */
  function Along(a: Point, b: Point, t: real): Point
  {
    Point(a.x + t * (b.x - a.x), a.y + t * (b.y - a.y))
  }

  /** c lies on the line through a and b. */
  ghost predicate OnLine(a: Point, b: Point, c: Point)
  {
    exists t: real :: c == Along(a, b, t)
  }

  /** A degenerate triangle has no area: two equal corners give 0, and for
      a != b the area is 0 exactly when c is on the line through a and b. */
  lemma ZeroAreaIffCollinear(a: Point, b: Point, c: Point)
    ensures a == b ==> TriangleArea(a, b, c) == 0.0
    ensures a != b ==> (TriangleArea(a, b, c) == 0.0 <==> OnLine(a, b, c))
  {
    TriangleAreaIsHalfCross(a, b, c);
    if a != b {
      if TriangleArea(a, b, c) == 0.0 {
        CrossZeroOnLine(a, b, c);
      }
      if OnLine(a, b, c) {
        var t :| c == Along(a, b, t);
        OnLineCrossZero(a, b, t);
      }
    }
  }

  lemma CrossZeroOnLine(a: Point, b: Point, c: Point)
    requires a != b && Cross(a, b, c) == 0.0
    ensures OnLine(a, b, c)
  {
    var u, v := b.x - a.x, b.y - a.y;
    var p, q := c.x - a.x, c.y - a.y;
    assert u * q == p * v;
    var t;
    if u != 0.0 {
      t := p / u;
      assert t * u == p;
      assert u * q == u * (t * v);
      assert q == t * v;
    } else {
      assert v != 0.0;
      assert p * v == 0.0;
      assert p == 0.0;
      t := q / v;
      assert t * v == q;
    }
    assert c == Along(a, b, t);
  }

  lemma OnLineCrossZero(a: Point, b: Point, t: real)
    ensures Cross(a, b, Along(a, b, t)) == 0.0
  {
    var u, v := b.x - a.x, b.y - a.y;
    var c := Along(a, b, t);
    assert c.x - a.x == t * u && c.y - a.y == t * v;
    assert Cross(a, b, c) == u * (t * v) - (t * u) * v;
  }

  /** The two coordinates the average is taken over. */
  datatype Axis = X | Y

  function Coord(p: Point, axis: Axis): real
  {
    match axis
    case X => p.x
    case Y => p.y
  }

  /** The left-to-right sum of one coordinate over the first n points: what
      the accumulation loop holds after n steps. */
  function PrefixSum(ps: seq<Point>, axis: Axis, n: nat): real
    requires n <= |ps|
  {
    if n == 0 then 0.0 else PrefixSum(ps, axis, n - 1) + Coord(ps[n - 1], axis)
  }

  /** The component-wise mean of a non-empty bucket. */
  function Mean(bucketPoints: seq<Point>): (m: Point)
    requires |bucketPoints| >= 1
    ensures |bucketPoints| == 1 ==> m == bucketPoints[0]
  {
    var n := |bucketPoints| as real;
    assert PrefixSum(bucketPoints, X, 1) == 0.0 + bucketPoints[0].x;
    assert PrefixSum(bucketPoints, Y, 1) == 0.0 + bucketPoints[0].y;
    Point(PrefixSum(bucketPoints, X, |bucketPoints|) / n, PrefixSum(bucketPoints, Y, |bucketPoints|) / n)
  }

  /** `calculateBucketAverage`: accumulate both coordinates, then divide by the count. */
  method BucketAverage(bucketPoints: seq<Point>) returns (average: Point)
    requires |bucketPoints| >= 1
    ensures average == Mean(bucketPoints)
  {
    var sumX, sumY := 0.0, 0.0;
    for i := 0 to |bucketPoints|
      invariant sumX == PrefixSum(bucketPoints, X, i)
      invariant sumY == PrefixSum(bucketPoints, Y, i)
    {
      sumX := sumX + bucketPoints[i].x;
      sumY := sumY + bucketPoints[i].y;
    }
    average := Point(sumX / |bucketPoints| as real, sumY / |bucketPoints| as real);
  }

  lemma {:induction false} SumBounds(ps: seq<Point>, axis: Axis, n: nat, lo: real, hi: real)
    requires n <= |ps|
    requires forall i :: 0 <= i < n ==> lo <= Coord(ps[i], axis) <= hi
    ensures n as real * lo <= PrefixSum(ps, axis, n) <= n as real * hi
  {
    if n > 0 {
      SumBounds(ps, axis, n - 1, lo, hi);
      assert n as real * lo == (n - 1) as real * lo + lo;
      assert n as real * hi == (n - 1) as real * hi + hi;
    }
  }

  /** The mean of a bucket lies in every box that holds all of its points. */
  lemma MeanWithinBounds(bucketPoints: seq<Point>, lo: Point, hi: Point)
    requires |bucketPoints| >= 1
    requires forall i :: 0 <= i < |bucketPoints| ==>
      lo.x <= bucketPoints[i].x <= hi.x && lo.y <= bucketPoints[i].y <= hi.y
    ensures lo.x <= Mean(bucketPoints).x <= hi.x
    ensures lo.y <= Mean(bucketPoints).y <= hi.y
  {
    AverageWithinBounds(bucketPoints, X, lo.x, hi.x);
    AverageWithinBounds(bucketPoints, Y, lo.y, hi.y);
  }

  lemma AverageWithinBounds(ps: seq<Point>, axis: Axis, lo: real, hi: real)
    requires |ps| >= 1
    requires forall i :: 0 <= i < |ps| ==> lo <= Coord(ps[i], axis) <= hi
    ensures lo <= PrefixSum(ps, axis, |ps|) / |ps| as real <= hi
  {
    SumBounds(ps, axis, |ps|, lo, hi);
    DivideBounds(PrefixSum(ps, axis, |ps|), |ps| as real, lo, hi);
  }

  lemma DivideBounds(s: real, n: real, lo: real, hi: real)
    requires n > 0.0 && n * lo <= s <= n * hi
    ensures lo <= s / n <= hi
  {
    var m := s / n;
    assert m * n == s;
    assert (m - lo) * n == s - n * lo;
    assert (hi - m) * n == n * hi - s;
  }
}
