# LTTB downsampler of the chart component

This project models the Largest-Triangle-Three-Buckets (LTTB) downsampler of
`src/app/chart/chart.component.ts`. The downsampler reduces a time series of
`[timestamp, value]` points to at most `outputSamplesCount` points for
plotting. It follows section 4.2 of Steinarsson, "Downsampling Time Series for
Visual Representation":

- the first and the last input points are buckets of their own;
- `balancedSplitIntoBuckets` cuts the interior points into
  `outputSamplesCount - 2` contiguous buckets;
- a pass over the interior buckets keeps one point per bucket. The kept point
  spans the largest triangle (`calculateTriangleArea`) with two anchors: the
  point kept for the previous bucket, and the average of the next bucket
  (`calculateBucketAverage`).

Modules, one per part of the component:

- `Geometry` (`geometry.dfy`): points, the triangle area, the bucket average.
  The average is an imperative accumulation loop proved equal to `Mean`.
- `Bucketing` (`bucketing.dfy`): the bucketizer.
  - `BalancedSplit` is the specification: an even branch (`EvenSplit`) and a
    ceiling-division branch (`GreedySplit`).
  - `SplitIntoBuckets`, `SplitEvenly` and `SplitGreedily` are its two loops,
    proved equal to it.
  - The lemmas prove that the split is a partition, its bucket count, its
    bucket sizes, and that the even branch is the greedy rule in disguise.
- `Lttb` (`lttb.dfy`): selection and the outer pass.
  - `Select` specifies the scan over a bucket; `SelectCandidate` is its loop.
  - `Buckets` builds the framed bucket list.
  - `Walk` folds the selection over the buckets; `Downsampled` is the whole
    result.
  - `Downsample` is the outer loop of `LTTBDownsampling`, proved equal to
    `Downsampled`.
- `LttbProperties` (`lttb_properties.dfy`): what the result is as a whole.
  - its length;
  - the selection rule for every interior output point;
  - that a short series passes through unchanged;
  - idempotence;
  - that the output is an ordered subsequence of the input from its first
    point to its last.

Coordinates are exact reals (`real`), so the area and average statements are
statements about the formulas, not about IEEE rounding.

Behaviour of the code that the model keeps, where a prose reading could
suggest otherwise:

- **The last point of a bucket is never ranked.** The inner scan runs
  `j < currentBucketPoints.length - 1` (line 120). A bucket of two or more
  points therefore never contributes its last point, and a two-point bucket
  always contributes its first. `CandidateCount` and `Select` keep that
  bound. A description that "every point of the bucket is ranked" does not
  match the code; the model follows the code.
- **A two-point input gives two points.** The interior is then empty, and
  `0 % k == 0` takes the even branch with no buckets. The output is exactly
  the two input points, even though `len - 2 == 0` is "evenly divisible" by
  `outputSamplesCount - 2`. So "`outputSamplesCount` points whenever
  `len - 2` divides evenly" does not hold for `len == 2`. `DownsampledLength`
  states the exact length.
- **A one-point input gives two points.** `input.slice(1, 0)` is empty, so
  the buckets are `[[p], [p]]` and the output is `[p, p]`.
- **`outputData[i] = point` is an append.** It always writes at index
  `i == outputData.length`; the model appends.

## Model

| member | source | states |
|---|---|---|
| Geometry.TriangleArea | src/app/chart/chart.component.ts:156-159 | the area is never negative |
| Geometry.TriangleAreaIsHalfCross | src/app/chart/chart.component.ts:156-159 | twice the area is the absolute cross product (b - a) x (c - a): the shoelace sum is the signed double area |
| Geometry.ZeroAreaIffCollinear | src/app/chart/chart.component.ts:156-159 | two equal corners give area 0; for a != b the area is 0 exactly when c lies on the line through a and b (both directions) |
| Geometry.Mean | src/app/chart/chart.component.ts:161-172 | the mean of a single-point bucket is that point (so the forward anchor of the last interior bucket is the last input point) |
| Geometry.BucketAverage | src/app/chart/chart.component.ts:161-172 | the accumulation loop returns the component-wise sum over all points divided by the count |
| Geometry.MeanWithinBounds | src/app/chart/chart.component.ts:161-172 | the average lies in every axis-aligned box that holds all points of the bucket |
| Bucketing.EightIntoThree | src/app/chart/chart.component.ts:148-151 | eight elements in three buckets are cut 3, 3, 2 |
| Bucketing.CeilDivIsCeiling | src/app/chart/chart.component.ts:149 | `(a + b - 1) / b` is `Math.ceil(a / b)`: the least q with a <= q * b |
| Bucketing.SplitIntoBuckets | src/app/chart/chart.component.ts:136-154 | the method returns BalancedSplit: the even loop when the count divides the length, the greedy loop otherwise |
| Bucketing.SplitEvenly | src/app/chart/chart.component.ts:140-146 | the even loop pushes consecutive slices of `bucketSize` until the input is used up |
| Bucketing.SplitGreedily | src/app/chart/chart.component.ts:148-151 | the greedy loop pushes slices of ceil(remaining / count) while post-decrementing the count |
| Bucketing.EvenIsGreedy | src/app/chart/chart.component.ts:140-151 | on an exact multiple the even slices equal the greedy slices |
| Bucketing.SplitIsGreedy | src/app/chart/chart.component.ts:136-154 | whichever branch is taken, the buckets follow the greedy rule |
| Bucketing.SplitPartition | src/app/chart/chart.component.ts:136-154 | the buckets concatenate back to the input and none is empty |
| Bucketing.SplitCount | src/app/chart/chart.component.ts:136-154 | exactly `outputBucketsCount` buckets when the input has at least that many elements, otherwise one per element |
| Bucketing.SplitEven | src/app/chart/chart.component.ts:140-146 | when the count divides the length there are `outputBucketsCount` buckets (none for an empty input) of exactly `length / outputBucketsCount` elements each |
| Bucketing.SplitSizes | src/app/chart/chart.component.ts:148-151 | bucket j has ceil((length - i) / (count - j)) elements, where i is the number of elements taken before it and count - j >= 1 |
| Bucketing.SplitNonIncreasing | src/app/chart/chart.component.ts:148-151 | bucket sizes never grow and drop by at most one from one bucket to the next |
| Bucketing.SplitSingletons | src/app/chart/chart.component.ts:148-151 | with no more elements than buckets, every element is a bucket of its own, in order |
| Lttb.CandidateCount | src/app/chart/chart.component.ts:116-126 | the scan ranks between 1 and all of the bucket's points, and exactly all but the last when the bucket has two or more |
| Lttb.FirstMaxIsFirstMax | src/app/chart/chart.component.ts:116-126 | the kept index spans a largest triangle among the ranked points, and every earlier point spans a strictly smaller one (first maximum wins) |
| Lttb.Select | src/app/chart/chart.component.ts:116-126 | the chosen index is one of the ranked candidates, never the last point of a bucket of two or more |
| Lttb.SelectIsFirstMax | src/app/chart/chart.component.ts:116-126 | Select's point has the largest area against the two anchors among the candidates, and is the first such |
| Lttb.SelectCandidate | src/app/chart/chart.component.ts:116-126 | the inner loop with its strict `>` replacement returns Select's index |
| Lttb.Interior | src/app/chart/chart.component.ts:103 | `input.slice(1, length - 1)`: the input minus its end points, empty for one or two points |
| Lttb.Buckets | src/app/chart/chart.component.ts:101-105 | at least two non-empty buckets, the first holding only the first input point, the last only the last; for two or more points they concatenate back to the input |
| Lttb.Walk | src/app/chart/chart.component.ts:111-128 | one chosen point per interior bucket from bucket i on |
| Lttb.Framed | src/app/chart/chart.component.ts:107-133 | one output point per bucket, starting with the first point and ending with the last |
| Lttb.Downsampled | src/app/chart/chart.component.ts:88-134 | one output point per bucket; the first output point is the first input point and the last is the last |
| Lttb.Downsample | src/app/chart/chart.component.ts:88-134 | the outer loop (average of the next bucket, inner scan, write of the winner) and the final append return Downsampled |
| LttbProperties.WalkSuffix | src/app/chart/chart.component.ts:111-128 | from any step on, the pass is the pass restarted at that bucket from the point chosen just before |
| LttbProperties.WalkSelects | src/app/chart/chart.component.ts:111-128 | each step of the pass ranks its bucket against the point chosen at the previous step |
| LttbProperties.SelectionRule | src/app/chart/chart.component.ts:111-128 | interior output point i is Select's pick in bucket i against output point i - 1 and the mean of bucket i + 1; for the last interior bucket that mean is the last input point |
| LttbProperties.DownsampledLength | src/app/chart/chart.component.ts:101-133 | the output has `outputSamplesCount` points when the input has at least that many, otherwise as many as the input (two for one point), and never more than `outputSamplesCount` |
| LttbProperties.PassThrough | src/app/chart/chart.component.ts:101-133 | a series of two to `outputSamplesCount` points comes back unchanged |
| LttbProperties.Idempotent | src/app/chart/chart.component.ts:88-134 | downsampling a downsampled series changes nothing |
| LttbProperties.OriginsIncrease | src/app/chart/chart.component.ts:111-128 | whatever points are chosen, their positions in the concatenated buckets strictly increase with the bucket index |
| LttbProperties.FramedIsSubsequence | src/app/chart/chart.component.ts:101-133 | every output point is the element at its position in the concatenated buckets, positions strictly increase, and they run from the first element to the last |
| LttbProperties.DownsampledIsSubsequence | src/app/chart/chart.component.ts:88-134 | every output point is the input point at SourceIndex; these indices strictly increase from 0 to length - 1, so no point is synthesised or reordered |
| LttbProperties.FirstOfEqualPeaksWins | src/app/chart/chart.component.ts:116-126 | a seven-point zigzag cut to three points keeps the first of two peaks with equal triangles (strict `>` tie-break) |

## Left out

- The Angular component around the downsampler is not part of this model:
  the `@Component` and `@Input` members, the Highcharts options, and chart
  initialisation and data setting (lines 1-64). They are plumbing around a
  library that is not part of this model.
- `returnDownsampledData` (lines 67-81) is left out. It measures time with
  `console.time`/`console.log`, has an unused `plotWidth`, and copies the
  array. The `1000` it passes is the `outputSamplesCount` parameter here.
- IEEE floating point is left out: rounding, summation order, and
  `Math.ceil` on a rounded quotient. Coordinates are exact reals, and the
  ceiling of `a / b` is the exact integer ceiling `CeilDiv`.
- The preconditions `outputSamplesCount >= 3` and "at least one input
  point" exclude the following behaviours of the code (lines 101-105 and
  136-154), which the model does not capture:
  - `outputSamplesCount <= 1` with at least one interior point (three or
    more input points) never terminates. The bucket count
    `outputSamplesCount - 2` is negative. If it divides the interior length,
    `bucketSize` is negative, `slice(i, i += bucketSize)` pushes `[]`, and
    `i` falls forever (3 points with `outputSamplesCount == 1`: `1 % -1` is
    zero, `bucketSize == -1`). Otherwise `Math.ceil` of a negative quotient
    is at most zero and `i` never grows. `EvenSplit` and `GreedySplit`
    terminate only because they require a bucket count of at least one.
  - `outputSamplesCount == 2` with at least one interior point returns three
    points, more than requested. `length % 0` is NaN, so the greedy loop
    runs, `Math.ceil(length / 0)` is Infinity, and the whole interior
    becomes a single bucket.
  - The `0 / 0` average of an empty bucket cannot occur once the buckets are
    non-empty. `input[0]` on an empty input is undefined.
- Object identity is left out. The source returns references to the input's
  point arrays; the model returns equal point values.
- The two loops of `balancedSplitIntoBuckets` are separate methods
  (`SplitEvenly`, `SplitGreedily`) called from the branch, rather than
  inline; the early `return` after the even loop is that branch.
