/** The bucketizer: `balancedSplitIntoBuckets` cuts a sequence into contiguous
    buckets. When the length divides evenly by the bucket count every bucket
    has the same size; otherwise each bucket takes `ceil(remaining / count)`
    elements and the remaining count drops by one. The module is generic in
    the element type: the downsampler uses it on points. */
module Bucketing {

  /** `Math.ceil(a / b)` for a whole a >= 0 and b >= 1. */
  function CeilDiv(a: nat, b: int): nat
    requires b >= 1
  {
    (a + b - 1) / b
  }

  /** CeilDiv(a, b) is the least q with a <= q * b. */
  lemma CeilDivIsCeiling(a: nat, b: int)
    requires b >= 1
    ensures (CeilDiv(a, b) - 1) * b < a <= CeilDiv(a, b) * b
  {
  }

  /** Concatenation of the buckets, in order. */
  function Flatten<T>(buckets: seq<seq<T>>): seq<T>
  {
    if buckets == [] then [] else buckets[0] + Flatten(buckets[1..])
  }

  /** The even branch: consecutive slices of `size` elements. Like
      `Array.prototype.slice`, a slice stops at the end of the input. */
  function EvenSplit<T>(rest: seq<T>, size: nat): seq<seq<T>>
    requires |rest| > 0 ==> size >= 1
    decreases |rest|
  {
    if |rest| == 0 then []
    else
      var n := if size <= |rest| then size else |rest|;
      [rest[..n]] + EvenSplit(rest[n..], size)
  }

  /** The uneven branch: the next bucket takes `ceil(|rest| / count)`
      elements and one bucket fewer remains for the rest. */
  function GreedySplit<T>(rest: seq<T>, count: int): seq<seq<T>>
    requires |rest| > 0 ==> count >= 1
    decreases |rest|
  {
    if |rest| == 0 then []
    else
      CeilDivFacts(|rest|, count);
      var n := CeilDiv(|rest|, count);
      [rest[..n]] + GreedySplit(rest[n..], count - 1)
  }

  /** `balancedSplitIntoBuckets(input, count)`. */
  function BalancedSplit<T>(input: seq<T>, count: int): seq<seq<T>>
    requires count >= 1
  {
    if |input| % count == 0 then
      ExactQuotient(|input|, count);
      EvenSplit(input, |input| / count)
    else GreedySplit(input, count)
  }

  /** `balancedSplitIntoBuckets`: the even loop when the count divides the
      length, the greedy loop otherwise. */
  method SplitIntoBuckets<T>(input: seq<T>, outputBucketsCount: int) returns (result: seq<seq<T>>)
    requires outputBucketsCount >= 1
    ensures result == BalancedSplit(input, outputBucketsCount)
  {
    if |input| % outputBucketsCount == 0 {
      var bucketSize := |input| / outputBucketsCount;
      assert |input| > 0 ==> bucketSize >= 1 by {
        ExactQuotient(|input|, outputBucketsCount);
      }
      result := SplitEvenly(input, bucketSize);
      return;
    }
    result := SplitGreedily(input, outputBucketsCount);
  }

  /** The even loop: push slices of `bucketSize` until the input is used up. */
  method SplitEvenly<T>(input: seq<T>, bucketSize: nat) returns (result: seq<seq<T>>)
    requires |input| > 0 ==> bucketSize >= 1
    ensures result == EvenSplit(input, bucketSize)
  {
    result := [];
    var i := 0;
    while i < |input|
      invariant 0 <= i <= |input|
      invariant result + EvenSplit(input[i..], bucketSize) == EvenSplit(input, bucketSize)
    {
      var end := if i + bucketSize <= |input| then i + bucketSize else |input|;
      EvenStep(input, i, bucketSize);
      result := result + [input[i..end]];
      i := end;
    }
  }

  /** The greedy loop: each slice takes the ceiling of what remains over the
      buckets still to fill, and the count of those drops by one. */
  method SplitGreedily<T>(input: seq<T>, outputBucketsCount: int) returns (result: seq<seq<T>>)
    requires |input| > 0 ==> outputBucketsCount >= 1
    ensures result == GreedySplit(input, outputBucketsCount)
  {
    result := [];
    var i := 0;
    var count := outputBucketsCount;
    while i < |input|
      invariant 0 <= i <= |input|
      invariant i < |input| ==> count >= 1
      invariant result + GreedySplit(input[i..], count) == GreedySplit(input, outputBucketsCount)
    {
      var currentBucketSize := CeilDiv(|input| - i, count);
      GreedyStep(input, i, count);
      count := count - 1;
      result := result + [input[i..i + currentBucketSize]];
      i := i + currentBucketSize;
    }
  }

  /** One pass of the even loop: the next slice, and the rest from its end. */
  lemma EvenStep<T>(input: seq<T>, i: nat, size: nat)
    requires i < |input| && size >= 1
    ensures var end := if i + size <= |input| then i + size else |input|;
      i < end <= |input| &&
      EvenSplit(input[i..], size) == [input[i..end]] + EvenSplit(input[end..], size)
  {
    var end := if i + size <= |input| then i + size else |input|;
    assert input[i..][..end - i] == input[i..end];
    assert input[i..][end - i..] == input[end..];
  }

  /** One pass of the greedy loop: a non-empty slice that fits, a count that
      stays positive while elements remain, and the rest from its end. */
  lemma GreedyStep<T>(input: seq<T>, i: nat, count: int)
    requires i < |input| && count >= 1
    ensures var n := CeilDiv(|input| - i, count);
      1 <= n && i + n <= |input| && (i + n < |input| ==> count - 1 >= 1) &&
      GreedySplit(input[i..], count) == [input[i..i + n]] + GreedySplit(input[i + n..], count - 1)
  {
    var n := CeilDiv(|input| - i, count);
    GreedyStepArith(|input| - i, count);
    assert input[i..][..n] == input[i..i + n];
    assert input[i..][n..] == input[i + n..];
  }

  // ---------------------------------------------------------------------
  // Arithmetic of the ceiling division

  /** The greedy bucket over a non-empty remainder is non-empty and fits, and
      a bucket that leaves elements behind leaves a bucket to hold them. */
  lemma GreedyStepArith(rem: nat, count: int)
    requires rem >= 1 && count >= 1
    ensures 1 <= CeilDiv(rem, count) <= rem
    ensures CeilDiv(rem, count) < rem ==> count >= 2
  {
    CeilDivFacts(rem, count);
  }

  /** An exact multiple of b is the quotient times b, and a non-zero one has a non-zero quotient. */
  lemma ExactQuotient(a: nat, b: int)
    requires b >= 1 && a % b == 0
    ensures a == (a / b) * b
    ensures a > 0 ==> a / b >= 1
  {
  }

  lemma MulMono(x: int, y: int, b: int)
    requires x <= y && b >= 0
    ensures x * b <= y * b
  {
    assert (y - x) * b >= 0;
  }

  lemma MulCancel(x: int, y: int, b: int)
    requires b >= 1 && x * b < y * b
    ensures x < y
  {
    if x >= y { MulMono(y, x, b); }
  }

  /** The bounds the greedy loop relies on: a non-empty remainder gets a
      non-empty bucket that fits, the last bucket takes everything, fewer
      elements than buckets give singletons, and enough elements leave
      enough for the buckets still to come. */
  lemma CeilDivFacts(a: nat, b: int)
    requires b >= 1
    ensures a >= 1 ==> 1 <= CeilDiv(a, b) <= a
    ensures b == 1 ==> CeilDiv(a, b) == a
    ensures 1 <= a <= b ==> CeilDiv(a, b) == 1
    ensures a >= b ==> a - CeilDiv(a, b) >= b - 1
  {
    var q := CeilDiv(a, b);
    CeilDivIsCeiling(a, b);
    if a >= 1 && q > a {
      MulMono(1, b, q - 1);
    }
    if 1 <= a <= b {
      MulCancel(q - 1, 1, b);
    }
    if a >= b {
      assert (a - b + 1) * b - a == (a - b) * (b - 1);
      MulMono(0, a - b, b - 1);
      if q > a - b + 1 {
        MulMono(a - b + 1, q - 1, b);
      }
    }
  }

  /** Dividing an exact multiple rounds nothing up. */
  lemma CeilDivExact(q: nat, b: int)
    requires b >= 1
    ensures CeilDiv(q * b, b) == q
  {
    var r := CeilDiv(q * b, b);
    CeilDivIsCeiling(q * b, b);
    MulCancel(r - 1, q, b);
    if r > q { MulMono(q + 1, r, b); }
  }

  /** Two consecutive greedy buckets: the second is no larger than the first
      and at most one smaller. */
  lemma CeilDivStep(a: nat, b: int)
    requires b >= 2 && a >= 1
    requires a - CeilDiv(a, b) >= 1
    ensures CeilDiv(a - CeilDiv(a, b), b - 1) <= CeilDiv(a, b) <= CeilDiv(a - CeilDiv(a, b), b - 1) + 1
  {
    var c := CeilDiv(a, b);
    var d := CeilDiv(a - c, b - 1);
    CeilDivIsCeiling(a, b);
    CeilDivIsCeiling(a - c, b - 1);
    assert a - c <= c * (b - 1);
    MulCancel(d - 1, c, b - 1);
    assert (c - 2) * (b - 1) == (c - 1) * b - c - (b - 1) + 1;
    MulCancel(c - 2, d, b - 1);
  }

  // ---------------------------------------------------------------------
  // Concatenation

  lemma {:induction false} FlattenAppend<T>(a: seq<seq<T>>, b: seq<seq<T>>)
    ensures Flatten(a + b) == Flatten(a) + Flatten(b)
  {
    if a == [] {
      assert a + b == b;
    } else {
      assert (a + b)[1..] == a[1..] + b;
      FlattenAppend(a[1..], b);
    }
  }

  /** Element k of bucket i sits at offset |Flatten(buckets[..i])| + k of the concatenation. */
  lemma FlattenAt<T>(buckets: seq<seq<T>>, i: nat, k: nat)
    requires i < |buckets| && k < |buckets[i]|
    ensures |Flatten(buckets[..i])| + k < |Flatten(buckets)|
    ensures Flatten(buckets)[|Flatten(buckets[..i])| + k] == buckets[i][k]
  {
    assert buckets == buckets[..i] + ([buckets[i]] + buckets[i + 1..]);
    FlattenAppend(buckets[..i], [buckets[i]] + buckets[i + 1..]);
    FlattenAppend([buckets[i]], buckets[i + 1..]);
    assert Flatten([buckets[i]]) == buckets[i] + Flatten([]);
  }

  /** The prefix offsets grow by the bucket sizes. */
  lemma FlattenPrefixes<T>(buckets: seq<seq<T>>, i: nat, j: nat)
    requires i < j <= |buckets|
    ensures |Flatten(buckets[..i])| + |buckets[i]| <= |Flatten(buckets[..j])|
  {
    assert buckets[..j] == buckets[..i] + ([buckets[i]] + buckets[i + 1..j]);
    FlattenAppend(buckets[..i], [buckets[i]] + buckets[i + 1..j]);
    FlattenAppend([buckets[i]], buckets[i + 1..j]);
    assert Flatten([buckets[i]]) == buckets[i] + Flatten([]);
  }

  // ---------------------------------------------------------------------
  // The two branches agree

  /** On an exact multiple, slicing by the quotient and the greedy rule cut the
      same buckets: the even branch is a shortcut, not a different rule. */
  lemma {:induction false} EvenIsGreedy<T>(rest: seq<T>, size: nat, count: int)
    requires count >= 1 && |rest| == size * count
    ensures EvenSplit(rest, size) == GreedySplit(rest, count)
    decreases count
  {
    if |rest| > 0 {
      EvenGreedyArith(|rest|, size, count);
      assert GreedySplit(rest, count) == [rest[..size]] + GreedySplit(rest[size..], count - 1);
      assert EvenSplit(rest, size) == [rest[..size]] + EvenSplit(rest[size..], size);
      if count > 1 {
        EvenIsGreedy(rest[size..], size, count - 1);
      }
    }
  }

  /** One quotient-sized bucket of an exact multiple: it is non-empty, fits,
      leaves an exact multiple for one bucket fewer, and is the greedy size. */
  lemma EvenGreedyArith(n: nat, size: nat, count: int)
    requires count >= 1 && n == size * count && n > 0
    ensures 1 <= size <= n && n - size == size * (count - 1) && CeilDiv(n, count) == size
  {
    MulMono(1, count, size);
    CeilDivExact(size, count);
  }

  /** Whatever branch `balancedSplitIntoBuckets` takes, its buckets follow the greedy rule. */
  lemma SplitIsGreedy<T>(input: seq<T>, count: int)
    requires count >= 1
    ensures BalancedSplit(input, count) == GreedySplit(input, count)
  {
    if |input| % count == 0 {
      ExactQuotient(|input|, count);
      EvenIsGreedy(input, |input| / count, count);
    }
  }

  // ---------------------------------------------------------------------
  // Properties of the greedy rule

  lemma {:induction false} GreedyPartition<T>(rest: seq<T>, count: int)
    requires |rest| > 0 ==> count >= 1
    ensures Flatten(GreedySplit(rest, count)) == rest
    ensures forall j :: 0 <= j < |GreedySplit(rest, count)| ==> |GreedySplit(rest, count)[j]| >= 1
    decreases |rest|
  {
    if |rest| > 0 {
      CeilDivFacts(|rest|, count);
      var n := CeilDiv(|rest|, count);
      GreedyPartition(rest[n..], count - 1);
      assert rest[..n] + rest[n..] == rest;
    }
  }

  lemma {:induction false} GreedyCount<T>(rest: seq<T>, count: int)
    requires count >= 0 && (|rest| > 0 ==> count >= 1)
    ensures |GreedySplit(rest, count)| == if |rest| >= count then count else |rest|
    decreases |rest|
  {
    if |rest| > 0 {
      CeilDivFacts(|rest|, count);
      var n := CeilDiv(|rest|, count);
      GreedyCount(rest[n..], count - 1);
    }
  }

  lemma {:induction false} GreedySizes<T>(rest: seq<T>, count: int, j: nat)
    requires |rest| > 0 ==> count >= 1
    requires j < |GreedySplit(rest, count)|
    ensures count - j >= 1
    ensures |Flatten(GreedySplit(rest, count)[..j])| < |rest|
    ensures |GreedySplit(rest, count)[j]|
            == CeilDiv(|rest| - |Flatten(GreedySplit(rest, count)[..j])|, count - j)
    decreases j
  {
    var r := GreedySplit(rest, count);
    CeilDivFacts(|rest|, count);
    var n := CeilDiv(|rest|, count);
    assert r[0] == rest[..n];
    if j == 0 {
      assert r[..0] == [];
    } else {
      var r' := GreedySplit(rest[n..], count - 1);
      assert r == [rest[..n]] + r';
      GreedySizes(rest[n..], count - 1, j - 1);
      assert r[..j] == [rest[..n]] + r'[..j - 1];
      assert r[..j][1..] == r'[..j - 1];
      assert r[j] == r'[j - 1];
    }
  }

  lemma {:induction false} GreedyNonIncreasing<T>(rest: seq<T>, count: int)
    requires |rest| > 0 ==> count >= 1
    ensures forall j :: 0 < j < |GreedySplit(rest, count)| ==> ShrinksByAtMostOne(GreedySplit(rest, count), j)
    decreases |rest|
  {
    if |rest| > 0 {
      CeilDivFacts(|rest|, count);
      var n := CeilDiv(|rest|, count);
      var r := GreedySplit(rest, count);
      var r' := GreedySplit(rest[n..], count - 1);
      assert r == [rest[..n]] + r';
      GreedyNonIncreasing(rest[n..], count - 1);
      GreedyFirstTwo(rest, count);
      forall j | 0 < j < |r|
        ensures ShrinksByAtMostOne(r, j)
      {
        if j > 1 {
          assert 0 < j - 1 < |r'|;
          assert ShrinksByAtMostOne(r', j - 1);
          assert r[j] == r'[j - 1] && r[j - 1] == r'[j - 2];
        }
      }
    }
  }

  /** Bucket j is no larger than bucket j - 1, and at most one smaller. */
  ghost predicate ShrinksByAtMostOne<T>(r: seq<seq<T>>, j: int)
    requires 0 < j < |r|
  {
    |r[j]| <= |r[j - 1]| <= |r[j]| + 1
  }

  lemma GreedyFirstTwo<T>(rest: seq<T>, count: int)
    requires |rest| > 0 && count >= 1
    ensures var r := GreedySplit(rest, count);
      |r| >= 2 ==> |r[1]| <= |r[0]| <= |r[1]| + 1
  {
    CeilDivFacts(|rest|, count);
    var n := CeilDiv(|rest|, count);
    if |rest| - n >= 1 {
      CeilDivStep(|rest|, count);
      CeilDivFacts(|rest| - n, count - 1);
      var m := CeilDiv(|rest| - n, count - 1);
      assert GreedySplit(rest, count)[0] == rest[..n];
      assert GreedySplit(rest, count)[1] == GreedySplit(rest[n..], count - 1)[0] == rest[n..][..m];
    }
  }

  lemma {:induction false} GreedySingletons<T>(rest: seq<T>, count: int)
    requires |rest| <= count
    ensures GreedySplit(rest, count) == seq(|rest|, j requires 0 <= j < |rest| => [rest[j]])
    decreases |rest|
  {
    if |rest| > 0 {
      CeilDivFacts(|rest|, count);
      var r' := GreedySplit(rest[1..], count - 1);
      GreedySingletons(rest[1..], count - 1);
      var r := GreedySplit(rest, count);
      assert r == [rest[..1]] + r';
      assert |r| == |rest|;
      forall j | 0 <= j < |rest|
        ensures r[j] == [rest[j]]
      {
        if j > 0 { assert r[j] == r'[j - 1] == [rest[1..][j - 1]]; }
      }
    }
  }

  // ---------------------------------------------------------------------
  // Properties of balancedSplitIntoBuckets

  /** The buckets are non-empty and concatenate back to the input. */
  lemma SplitPartition<T>(input: seq<T>, count: int)
    requires count >= 1
    ensures Flatten(BalancedSplit(input, count)) == input
    ensures forall j :: 0 <= j < |BalancedSplit(input, count)| ==> |BalancedSplit(input, count)[j]| >= 1
  {
    SplitIsGreedy(input, count);
    GreedyPartition(input, count);
  }

  /** `count` buckets when there are enough elements, otherwise one per element. */
  lemma SplitCount<T>(input: seq<T>, count: int)
    requires count >= 1
    ensures |BalancedSplit(input, count)| == if |input| >= count then count else |input|
  {
    SplitIsGreedy(input, count);
    GreedyCount(input, count);
  }

  /** When the length divides evenly, there are `count` buckets (none for an
      empty input) and every bucket has `|input| / count` elements. */
  lemma SplitEven<T>(input: seq<T>, count: int)
    requires count >= 1 && |input| % count == 0
    ensures |BalancedSplit(input, count)| == if |input| == 0 then 0 else count
    ensures forall j :: 0 <= j < |BalancedSplit(input, count)| ==> |BalancedSplit(input, count)[j]| == |input| / count
  {
    if |input| > 0 {
      ExactQuotient(|input|, count);
      EvenSizes(input, |input| / count, count);
    }
  }

  lemma {:induction false} EvenSizes<T>(rest: seq<T>, size: nat, m: nat)
    requires size >= 1 && |rest| == size * m
    ensures |EvenSplit(rest, size)| == m
    ensures forall j :: 0 <= j < m ==> |EvenSplit(rest, size)[j]| == size
    decreases m
  {
    if m > 0 {
      assert |rest[size..]| == size * (m - 1);
      EvenSizes(rest[size..], size, m - 1);
    }
  }

  /** Bucket j takes `ceil((|input| - i) / (count - j))` elements, where i is
      the number of elements the earlier buckets took. */
  lemma SplitSizes<T>(input: seq<T>, count: int, j: nat)
    requires count >= 1 && j < |BalancedSplit(input, count)|
    ensures count - j >= 1
    ensures |Flatten(BalancedSplit(input, count)[..j])| < |input|
    ensures |BalancedSplit(input, count)[j]|
            == CeilDiv(|input| - |Flatten(BalancedSplit(input, count)[..j])|, count - j)
  {
    SplitIsGreedy(input, count);
    GreedySizes(input, count, j);
  }

  /** Bucket sizes never grow from one bucket to the next, and drop by at most one. */
  lemma SplitNonIncreasing<T>(input: seq<T>, count: int)
    requires count >= 1
    ensures forall j :: 0 < j < |BalancedSplit(input, count)| ==> ShrinksByAtMostOne(BalancedSplit(input, count), j)
  {
    SplitIsGreedy(input, count);
    GreedyNonIncreasing(input, count);
  }

  /** With no more elements than buckets, every element is a bucket of its own. */
  lemma SplitSingletons<T>(input: seq<T>, count: int)
    requires count >= 1 && |input| <= count
    ensures BalancedSplit(input, count) == seq(|input|, j requires 0 <= j < |input| => [input[j]])
  {
    SplitIsGreedy(input, count);
    GreedySingletons(input, count);
  }

  /** Eight elements in three buckets: 8 is not a multiple of 3, so the
      buckets take ceil(8 / 3) = 3, ceil(5 / 2) = 3 and ceil(2 / 1) = 2. */
  lemma EightIntoThree<T>(input: seq<T>)
    requires |input| == 8
    ensures BalancedSplit(input, 3) == [input[..3], input[3..6], input[6..]]
  {
    var r2 := GreedySplit(input[3..], 2);
    var r1 := GreedySplit(input[6..], 1);
    assert CeilDiv(8, 3) == 3 && CeilDiv(5, 2) == 3 && CeilDiv(2, 1) == 2;
    assert input[6..][..2] == input[6..] && GreedySplit(input[6..][2..], 0) == [];
    assert r1 == [input[6..]];
    assert input[3..][..3] == input[3..6] && input[3..][3..] == input[6..];
    assert r2 == [input[3..6]] + r1;
  }
}
