/** Largest-Triangle-Three-Buckets (section 4.2 of Steinarsson,
    "Downsampling Time Series for Visual Representation"), as
    `LTTBDownsampling` runs it: the first and last input points are buckets
    of their own, the interior is cut by the bucketizer into
    `outputSamplesCount - 2` buckets, and each interior bucket contributes
    the candidate that spans the largest triangle with the point chosen just
    before it and the mean of the bucket after it. */
module Lttb {
  import opened Geometry
  import opened Bucketing

  // ---------------------------------------------------------------------
  // Selecting one point of a bucket

  /** How many points of a bucket the scan ranks: point 0, then `j` from 1
      while `j < length - 1`. The last point of a bucket of two or more
      points is never ranked. */
  function CandidateCount(bucketLength: nat): (m: nat)
    requires bucketLength >= 1
    ensures 1 <= m <= bucketLength
    ensures bucketLength >= 2 ==> m == bucketLength - 1
  {
    if bucketLength <= 2 then 1 else bucketLength - 1
  }

  /** The index, among the first m points of a bucket, of the first one whose
      triangle with a and c is largest: a later point replaces the current
      best only when its area is strictly larger. */
  function FirstMax(a: Point, bucketPoints: seq<Point>, c: Point, m: nat): (k: nat)
    requires 1 <= m <= |bucketPoints|
    ensures k < m
  {
    if m == 1 then 0
    else
      var k := FirstMax(a, bucketPoints, c, m - 1);
      if TriangleArea(a, bucketPoints[m - 1], c) > TriangleArea(a, bucketPoints[k], c) then m - 1 else k
  }

  /** FirstMax spans a largest triangle among the first m points, and every
      point before it spans a strictly smaller one. */
  lemma {:induction false} FirstMaxIsFirstMax(a: Point, bucketPoints: seq<Point>, c: Point, m: nat)
    requires 1 <= m <= |bucketPoints|
    ensures forall j :: 0 <= j < m ==>
      TriangleArea(a, bucketPoints[j], c) <= TriangleArea(a, bucketPoints[FirstMax(a, bucketPoints, c, m)], c)
    ensures forall j :: 0 <= j < FirstMax(a, bucketPoints, c, m) ==>
      TriangleArea(a, bucketPoints[j], c) < TriangleArea(a, bucketPoints[FirstMax(a, bucketPoints, c, m)], c)
  {
    if m > 1 {
      FirstMaxIsFirstMax(a, bucketPoints, c, m - 1);
    }
  }

  /** The index of the point a bucket contributes, given the previously
      chosen point a and the mean c of the next bucket (see SelectIsFirstMax). */
  function Select(a: Point, bucketPoints: seq<Point>, c: Point): (k: nat)
    requires |bucketPoints| >= 1
    ensures k < CandidateCount(|bucketPoints|)
  {
    FirstMax(a, bucketPoints, c, CandidateCount(|bucketPoints|))
  }

  /** Among the ranked candidates, Select picks the first whose triangle with
      a and c is largest. */
  lemma SelectIsFirstMax(a: Point, bucketPoints: seq<Point>, c: Point)
    requires |bucketPoints| >= 1
    ensures forall j :: 0 <= j < CandidateCount(|bucketPoints|) ==>
      TriangleArea(a, bucketPoints[j], c) <= TriangleArea(a, bucketPoints[Select(a, bucketPoints, c)], c)
    ensures forall j :: 0 <= j < Select(a, bucketPoints, c) ==>
      TriangleArea(a, bucketPoints[j], c) < TriangleArea(a, bucketPoints[Select(a, bucketPoints, c)], c)
  {
    FirstMaxIsFirstMax(a, bucketPoints, c, CandidateCount(|bucketPoints|));
  }

  /** The inner loop of `LTTBDownsampling`: keep a candidate and its rank,
      replace them on a strictly larger rank. */
  method SelectCandidate(a: Point, currentBucketPoints: seq<Point>, c: Point) returns (k: nat)
    requires |currentBucketPoints| >= 1
    ensures k == Select(a, currentBucketPoints, c)
  {
    var rank := TriangleArea(a, currentBucketPoints[0], c);
    k := 0;
    var j := 1;
    while j < |currentBucketPoints| - 1
      invariant 1 <= j <= CandidateCount(|currentBucketPoints|)
      invariant k == FirstMax(a, currentBucketPoints, c, j) && rank == TriangleArea(a, currentBucketPoints[k], c)
    {
      var currentRank := TriangleArea(a, currentBucketPoints[j], c);
      if currentRank > rank {
        rank := currentRank;
        k := j;
      }
      j := j + 1;
    }
  }

  // ---------------------------------------------------------------------
  // The buckets and the pass over them

  /** `input.slice(1, input.length - 1)`: empty for fewer than three points. */
  function Interior(input: seq<Point>): (s: seq<Point>)
    requires |input| >= 1
    ensures |s| == if |input| >= 2 then |input| - 2 else 0
    ensures |input| >= 2 ==> input == [input[0]] + s + [input[|input| - 1]]
  {
    if |input| >= 2 then input[1..|input| - 1] else []
  }

  /** The first point alone, the interior split into
      `outputSamplesCount - 2` buckets, the last point alone. */
  function Buckets(input: seq<Point>, outputSamplesCount: int): (bs: seq<seq<Point>>)
    requires |input| >= 1 && outputSamplesCount >= 3
    ensures |bs| >= 2 && bs[0] == [input[0]] && bs[|bs| - 1] == [input[|input| - 1]]
    ensures forall i :: 0 <= i < |bs| ==> |bs[i]| >= 1
    ensures |input| >= 2 ==> Flatten(bs) == input
  {
    var interior := BalancedSplit(Interior(input), outputSamplesCount - 2);
    var bs := [[input[0]]] + interior + [[input[|input| - 1]]];
    SplitPartition(Interior(input), outputSamplesCount - 2);
    assert |input| >= 2 ==> Flatten(bs) == input by {
      if |input| >= 2 {
        FlattenAppend([[input[0]]] + interior, [[input[|input| - 1]]]);
        FlattenAppend([[input[0]]], interior);
        assert Flatten([[input[0]]]) == [input[0]] + Flatten([]);
        assert Flatten([[input[|input| - 1]]]) == [input[|input| - 1]] + Flatten([]);
      }
    }
    bs
  }

  /** Non-empty buckets, of which at least the two end buckets exist. */
  ghost predicate WellFormed(bs: seq<seq<Point>>)
  {
    |bs| >= 2 && forall i :: 0 <= i < |bs| ==> |bs[i]| >= 1
  }

  /** The outer loop of `LTTBDownsampling` from bucket i on, as a fold:
      `prev` is the point chosen for bucket i - 1, and the result holds the
      point chosen in each of the buckets i .. |bs| - 2. */
  function Walk(bs: seq<seq<Point>>, i: nat, prev: Point): (ps: seq<Point>)
    requires WellFormed(bs) && 1 <= i <= |bs| - 1
    ensures |ps| == |bs| - 1 - i
    decreases |bs| - i
  {
    if i == |bs| - 1 then []
    else
      var p := bs[i][Select(prev, bs[i], Mean(bs[i + 1]))];
      [p] + Walk(bs, i + 1, p)
  }

  /** The first point, the point chosen in each interior bucket, the last point. */
  function Framed(bs: seq<seq<Point>>, first: Point, last: Point): (out: seq<Point>)
    requires WellFormed(bs)
    ensures |out| == |bs| && out[0] == first && out[|out| - 1] == last
  {
    [first] + Walk(bs, 1, first) + [last]
  }

  /** The result of `LTTBDownsampling(input, outputSamplesCount)`. */
  function Downsampled(input: seq<Point>, outputSamplesCount: int): (output: seq<Point>)
    requires |input| >= 1 && outputSamplesCount >= 3
    ensures |output| == |Buckets(input, outputSamplesCount)|
    ensures output[0] == input[0] && output[|output| - 1] == input[|input| - 1]
  {
    Framed(Buckets(input, outputSamplesCount), input[0], input[|input| - 1])
  }

  /** `LTTBDownsampling`: cut the buckets, then for every interior bucket
      rank its candidates against the last output point and the next
      bucket's average and append the winner. */
  method Downsample(input: seq<Point>, outputSamplesCount: int) returns (output: seq<Point>)
    requires |input| >= 1 && outputSamplesCount >= 3
    ensures output == Downsampled(input, outputSamplesCount)
  {
    var interiorBuckets := SplitIntoBuckets(Interior(input), outputSamplesCount - 2);
    var buckets := [[input[0]]] + interiorBuckets + [[input[|input| - 1]]];
    assert buckets == Buckets(input, outputSamplesCount);
    var outputData := [buckets[0][0]];
    for i := 1 to |buckets| - 1
      invariant |outputData| == i
      invariant outputData + Walk(buckets, i, outputData[i - 1]) == [input[0]] + Walk(buckets, 1, input[0])
    {
      var a := outputData[i - 1];
      var c := BucketAverage(buckets[i + 1]);
      var k := SelectCandidate(a, buckets[i], c);
      assert Walk(buckets, i, a) == [buckets[i][k]] + Walk(buckets, i + 1, buckets[i][k]);
      assert outputData + Walk(buckets, i, a) == (outputData + [buckets[i][k]]) + Walk(buckets, i + 1, buckets[i][k]);
      outputData := outputData + [buckets[i][k]];
    }
    output := outputData + [buckets[|buckets| - 1][0]];
  }
}
