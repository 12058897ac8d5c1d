/** What the downsampled series is, as a whole: its length, its end points,
    where each interior point comes from, that it is an ordered subsequence
    of the input, and that a series short enough passes through unchanged. */
module LttbProperties {
  import opened Geometry
  import opened Bucketing
  import opened Lttb

  /** The first step of the fold ranks bucket i against `prev`. */
  lemma WalkFirst(bs: seq<seq<Point>>, i: nat, prev: Point)
    requires WellFormed(bs) && 1 <= i < |bs| - 1
    ensures Walk(bs, i, prev)[0] == bs[i][Select(prev, bs[i], Mean(bs[i + 1]))]
  {
  }

  /** From step j on, the fold is the fold started at bucket i + j from the
      point chosen at step j - 1. */
  lemma {:induction false} WalkSuffix(bs: seq<seq<Point>>, i: nat, prev: Point, j: nat)
    requires WellFormed(bs) && 1 <= i <= |bs| - 1 && 1 <= j <= |bs| - 1 - i
    ensures Walk(bs, i, prev)[j..] == Walk(bs, i + j, Walk(bs, i, prev)[j - 1])
    decreases j
  {
    var p := bs[i][Select(prev, bs[i], Mean(bs[i + 1]))];
    var w, rest := Walk(bs, i, prev), Walk(bs, i + 1, p);
    assert w == [p] + rest;
    assert w[j..] == rest[j - 1..];
    if j == 1 {
      assert w[j - 1] == p;
      assert rest[j - 1..] == rest;
    } else {
      WalkSuffix(bs, i + 1, p, j - 1);
      assert w[j - 1] == rest[j - 2];
      assert rest[j - 1..] == Walk(bs, i + j, rest[j - 2]);
    }
  }

  /** Every later step j of the fold ranks bucket i + j against the point
      chosen at step j - 1. */
  lemma WalkSelects(bs: seq<seq<Point>>, i: nat, prev: Point, j: nat)
    requires WellFormed(bs) && 1 <= i <= |bs| - 1 && 1 <= j < |bs| - 1 - i
    ensures Walk(bs, i, prev)[j]
            == bs[i + j][Select(Walk(bs, i, prev)[j - 1], bs[i + j], Mean(bs[i + j + 1]))]
  {
    var w := Walk(bs, i, prev);
    WalkSuffix(bs, i, prev, j);
    WalkFirst(bs, i + j, w[j - 1]);
    assert w[j] == w[j..][0];
  }

  /** Framed output point i (for an interior i) is the pick of bucket i
      against output point i - 1. */
  lemma FramedWalkSelects(bs: seq<seq<Point>>, first: Point, last: Point, i: nat)
    requires WellFormed(bs) && 1 <= i < |bs| - 1
    ensures Framed(bs, first, last)[i]
            == bs[i][Select(Framed(bs, first, last)[i - 1], bs[i], Mean(bs[i + 1]))]
  {
    var w := Walk(bs, 1, first);
    var out := Framed(bs, first, last);
    assert out == [first] + w + [last];
    assert out[i] == w[i - 1];
    if i == 1 {
      WalkFirst(bs, 1, first);
      assert out[0] == first;
    } else {
      WalkSelects(bs, 1, first, i - 1);
      assert out[i - 1] == w[i - 2];
    }
  }

  /** Interior output point i is the point of bucket i that Select picks
      against output point i - 1 and the mean of bucket i + 1; for the last
      interior bucket that mean is the last input point itself. */
  lemma SelectionRule(input: seq<Point>, outputSamplesCount: int, i: nat)
    requires |input| >= 1 && outputSamplesCount >= 3
    requires 1 <= i < |Downsampled(input, outputSamplesCount)| - 1
    ensures Downsampled(input, outputSamplesCount)[i]
            == Buckets(input, outputSamplesCount)[i][Select(Downsampled(input, outputSamplesCount)[i - 1],
                                                            Buckets(input, outputSamplesCount)[i],
                                                            Mean(Buckets(input, outputSamplesCount)[i + 1]))]
    ensures i == |Downsampled(input, outputSamplesCount)| - 2 ==>
            Mean(Buckets(input, outputSamplesCount)[i + 1]) == input[|input| - 1]
  {
    var bs := Buckets(input, outputSamplesCount);
    assert WellFormed(bs);
    FramedWalkSelects(bs, input[0], input[|input| - 1], i);
  }

  /** One output point per bucket: `outputSamplesCount` points when the input
      has at least that many, otherwise one per input point (two for a
      single point, which is both first and last). Never more than asked. */
  lemma DownsampledLength(input: seq<Point>, outputSamplesCount: int)
    requires |input| >= 1 && outputSamplesCount >= 3
    ensures |Downsampled(input, outputSamplesCount)|
            == if |input| >= outputSamplesCount then outputSamplesCount
               else if |input| >= 2 then |input|
               else 2
    ensures |Downsampled(input, outputSamplesCount)| <= outputSamplesCount
  {
    var s := Interior(input);
    var k := outputSamplesCount - 2;
    SplitCount(s, k);
    assert |Buckets(input, outputSamplesCount)| == |BalancedSplit(s, k)| + 2;
  }

  /** A series no longer than `outputSamplesCount` comes back unchanged:
      every bucket is a single point, and a single point is its own pick. */
  lemma PassThrough(input: seq<Point>, outputSamplesCount: int)
    requires 2 <= |input| <= outputSamplesCount && outputSamplesCount >= 3
    ensures Downsampled(input, outputSamplesCount) == input
  {
    var s := Interior(input);
    SplitSingletons(s, outputSamplesCount - 2);
    var bs := Buckets(input, outputSamplesCount);
    var out := Downsampled(input, outputSamplesCount);
    DownsampledLength(input, outputSamplesCount);
    assert |bs| == |input|;
    forall i | 0 <= i < |out|
      ensures out[i] == input[i]
    {
      if 0 < i < |out| - 1 {
        assert bs[i] == [s[i - 1]] == [input[i]];
        SelectionRule(input, outputSamplesCount, i);
      }
    }
  }

  /** Downsampling a downsampled series changes nothing. */
  lemma Idempotent(input: seq<Point>, outputSamplesCount: int)
    requires |input| >= 1 && outputSamplesCount >= 3
    ensures Downsampled(Downsampled(input, outputSamplesCount), outputSamplesCount)
            == Downsampled(input, outputSamplesCount)
  {
    DownsampledLength(input, outputSamplesCount);
    PassThrough(Downsampled(input, outputSamplesCount), outputSamplesCount);
  }

  /** Where output point i sits in the concatenated buckets: the start of
      bucket i plus the index chosen within it (0 for the two end buckets). */
  function Origin(bs: seq<seq<Point>>, out: seq<Point>, i: nat): nat
    requires WellFormed(bs) && |out| == |bs| && i < |bs|
  {
    |Flatten(bs[..i])| + if 0 < i < |bs| - 1 then Select(out[i - 1], bs[i], Mean(bs[i + 1])) else 0
  }

  /** The framed output point i is the point at its origin, inside bucket i. */
  lemma OriginPoint(bs: seq<seq<Point>>, first: Point, last: Point, i: nat)
    requires WellFormed(bs) && bs[0] == [first] && bs[|bs| - 1] == [last] && i < |bs|
    ensures Origin(bs, Framed(bs, first, last), i) < |Flatten(bs)|
    ensures Framed(bs, first, last)[i] == Flatten(bs)[Origin(bs, Framed(bs, first, last), i)]
  {
    var out := Framed(bs, first, last);
    var k := Origin(bs, out, i) - |Flatten(bs[..i])|;
    assert k < |bs[i]|;
    if 0 < i < |bs| - 1 {
      FramedWalkSelects(bs, first, last, i);
    }
    assert out[i] == bs[i][k];
    FlattenAt(bs, i, k);
  }

  /** Whatever points are chosen, origins strictly increase along the buckets. */
  lemma OriginsIncrease(bs: seq<seq<Point>>, out: seq<Point>, i: nat, j: nat)
    requires WellFormed(bs) && |out| == |bs| && i < j < |bs|
    ensures Origin(bs, out, i) < Origin(bs, out, j)
  {
    FlattenPrefixes(bs, i, j);
  }

  /** The first origin is the first element; with a single-point last
      bucket, the last origin is the last element. */
  lemma OriginEnds(bs: seq<seq<Point>>, out: seq<Point>)
    requires WellFormed(bs) && |out| == |bs| && |bs[|bs| - 1]| == 1
    ensures Origin(bs, out, 0) == 0
    ensures Origin(bs, out, |bs| - 1) == |Flatten(bs)| - 1
  {
    var last := |bs| - 1;
    assert bs[..0] == [];
    assert bs == bs[..last] + [bs[last]];
    FlattenAppend(bs[..last], [bs[last]]);
    assert Flatten([bs[last]]) == bs[last] + Flatten([]);
  }

  /** Every framed output point is the point at its origin, origins strictly
      increase, and they run from the first element to the last. */
  lemma FramedIsSubsequence(bs: seq<seq<Point>>, first: Point, last: Point)
    requires WellFormed(bs) && bs[0] == [first] && bs[|bs| - 1] == [last]
    ensures forall i :: 0 <= i < |bs| ==>
      Origin(bs, Framed(bs, first, last), i) < |Flatten(bs)| &&
      Framed(bs, first, last)[i] == Flatten(bs)[Origin(bs, Framed(bs, first, last), i)]
    ensures forall i, j :: 0 <= i < j < |bs| ==>
      Origin(bs, Framed(bs, first, last), i) < Origin(bs, Framed(bs, first, last), j)
    ensures Origin(bs, Framed(bs, first, last), 0) == 0
    ensures Origin(bs, Framed(bs, first, last), |bs| - 1) == |Flatten(bs)| - 1
  {
    var out := Framed(bs, first, last);
    forall i | 0 <= i < |bs|
      ensures Origin(bs, out, i) < |Flatten(bs)| && out[i] == Flatten(bs)[Origin(bs, out, i)]
    {
      OriginPoint(bs, first, last, i);
    }
    forall i, j | 0 <= i < j < |bs|
      ensures Origin(bs, out, i) < Origin(bs, out, j)
    {
      OriginsIncrease(bs, out, i, j);
    }
    OriginEnds(bs, out);
  }

  /** Where output point i sits in the input. */
  function SourceIndex(input: seq<Point>, outputSamplesCount: int, i: nat): nat
    requires |input| >= 1 && outputSamplesCount >= 3
    requires i < |Downsampled(input, outputSamplesCount)|
  {
    Origin(Buckets(input, outputSamplesCount), Downsampled(input, outputSamplesCount), i)
  }

  /** The output is an ordered subsequence of the input that starts at its
      first point and ends at its last: no point is synthesised, none is
      reordered. */
  lemma DownsampledIsSubsequence(input: seq<Point>, outputSamplesCount: int)
    requires |input| >= 2 && outputSamplesCount >= 3
    ensures SourceIndex(input, outputSamplesCount, 0) == 0
    ensures SourceIndex(input, outputSamplesCount, |Downsampled(input, outputSamplesCount)| - 1) == |input| - 1
    ensures forall i :: 0 <= i < |Downsampled(input, outputSamplesCount)| ==>
      SourceIndex(input, outputSamplesCount, i) < |input| &&
      Downsampled(input, outputSamplesCount)[i] == input[SourceIndex(input, outputSamplesCount, i)]
    ensures forall i, j :: 0 <= i < j < |Downsampled(input, outputSamplesCount)| ==>
      SourceIndex(input, outputSamplesCount, i) < SourceIndex(input, outputSamplesCount, j)
  {
    var bs := Buckets(input, outputSamplesCount);
    assert WellFormed(bs);
    FramedIsSubsequence(bs, input[0], input[|input| - 1]);
  }

  /** A zigzag whose two peaks (1, 5) and (3, 5) span equal triangles with
      (0, 0) and (6, 0): asked for three points, the first peak is kept. */
  lemma FirstOfEqualPeaksWins()
    ensures Downsampled([Point(0.0, 0.0), Point(1.0, 5.0), Point(2.0, 0.0), Point(3.0, 5.0),
                         Point(4.0, 0.0), Point(5.0, 5.0), Point(6.0, 0.0)], 3)
            == [Point(0.0, 0.0), Point(1.0, 5.0), Point(6.0, 0.0)]
  {
    var first, last := Point(0.0, 0.0), Point(6.0, 0.0);
    var interior := [Point(1.0, 5.0), Point(2.0, 0.0), Point(3.0, 5.0), Point(4.0, 0.0), Point(5.0, 5.0)];
    var input := [first] + interior + [last];
    var bs := [[first], interior, [last]];
    assert Buckets(input, 3) == bs by {
      assert Interior(input) == interior;
      assert interior[..5] == interior && interior[5..] == [];
      assert BalancedSplit(interior, 1) == [interior];
    }
    assert Select(first, interior, Mean([last])) == 0 by {
      ZigzagPick(first, interior, last);
    }
    assert Walk(bs, 1, first) == [interior[0]] + Walk(bs, 2, interior[0]);
    assert Walk(bs, 2, interior[0]) == [];
    assert Downsampled(input, 3) == Framed(bs, first, last) == [first, interior[0], last];
    assert input == [Point(0.0, 0.0), Point(1.0, 5.0), Point(2.0, 0.0), Point(3.0, 5.0),
                     Point(4.0, 0.0), Point(5.0, 5.0), Point(6.0, 0.0)];
  }

  lemma ZigzagPick(first: Point, interior: seq<Point>, last: Point)
    requires first == Point(0.0, 0.0) && last == Point(6.0, 0.0)
    requires interior == [Point(1.0, 5.0), Point(2.0, 0.0), Point(3.0, 5.0), Point(4.0, 0.0), Point(5.0, 5.0)]
    ensures Select(first, interior, Mean([last])) == 0
  {
    assert Mean([last]) == last;
    assert TriangleArea(first, interior[0], last) == 15.0;
    assert TriangleArea(first, interior[1], last) == 0.0;
    assert TriangleArea(first, interior[2], last) == 15.0;
    assert TriangleArea(first, interior[3], last) == 0.0;
    assert FirstMax(first, interior, last, 2) == 0;
    assert FirstMax(first, interior, last, 3) == 0;
  }
}
