/** The fixed-space latency histogram: 65 power-of-two buckets against the exact order statistics. */
module Histograms {
  import opened Words
  import opened Trades
  import opened OrderStatistics

  const BUCKETS: nat := 65

  /** The number of significant bits. */
  function BitWidth(n: nat): nat {
    if n == 0 then 0 else 1 + BitWidth(n / 2)
  }

  function BucketOf(value: u64): (bucket: nat)
    ensures bucket < BUCKETS
  {
    if value == 0 then 0
    else if BitWidth(value - 1) + 1 < BUCKETS - 1 then BitWidth(value - 1) + 1
    else BUCKETS - 1
  }

  /** The value `Quantile` reports for a bucket. */
  function Representative(bucket: nat): u64
    requires bucket < BUCKETS
  {
    Power2Fits(bucket);
    if bucket == 0 then 0 else Power2(bucket - 1)
  }

  lemma Power2Fits(bucket: nat)
    requires bucket < BUCKETS
    ensures bucket > 0 ==> 0 < Power2(bucket - 1) <= 0x8000_0000_0000_0000
  {
    Power2Word();
    if bucket > 0 {
      Power2Monotone(bucket - 1, 63);
    }
  }

  lemma {:induction false} Power2Monotone(j: nat, k: nat)
    requires j <= k
    ensures 0 < Power2(j) <= Power2(k)
  {
    if k > 0 && j < k {
      Power2Monotone(j, k - 1);
    } else if k > 0 {
      Power2Monotone(j - 1, k - 1);
    }
  }

  /** A number has `k` significant bits iff it lies between the neighbouring powers of two. */
  lemma {:induction false} BitWidthRange(n: nat, k: nat)
    ensures BitWidth(n) <= k <==> n < Power2(k)
  {
    if n == 0 {
      Power2Monotone(0, k);
    } else if k > 0 {
      BitWidthRange(n / 2, k - 1);
    }
  }

  /** Bucket 1 holds only one; bucket k holds (2^(k-2), 2^(k-1)]; the last bucket holds everything above 2^62. */
  lemma BucketRange(value: u64, bucket: nat)
    requires 1 <= bucket < BUCKETS
    ensures BucketOf(value) <= bucket <==> bucket == BUCKETS - 1 || value <= Power2(bucket - 1)
  {
    Power2Monotone(0, bucket - 1);
    if value > 0 {
      BitWidthRange(value - 1, bucket - 1);
    }
  }

  lemma BucketMonotone(u: u64, v: u64)
    requires u <= v
    ensures BucketOf(u) <= BucketOf(v)
  {
    var bucket := BucketOf(v);
    if bucket > 0 {
      BucketRange(u, bucket);
      BucketRange(v, bucket);
    }
  }

  // ----- what the buckets count

  function CountIn(s: seq<u64>, bucket: nat): nat {
    if s == [] then 0 else CountIn(s[..|s| - 1], bucket) + if BucketOf(s[|s| - 1]) == bucket then 1 else 0
  }

  /** How many values fall into the first `buckets` buckets. */
  function CountFirst(s: seq<u64>, buckets: nat): nat {
    if buckets == 0 then 0 else CountFirst(s, buckets - 1) + CountIn(s, buckets - 1)
  }

  lemma {:induction false} CountFirstStep(s: seq<u64>, buckets: nat)
    ensures s != [] ==>
              CountFirst(s, buckets) ==
              CountFirst(s[..|s| - 1], buckets) + if BucketOf(s[|s| - 1]) < buckets then 1 else 0
    ensures s == [] ==> CountFirst(s, buckets) == 0
  {
    if buckets > 0 {
      CountFirstStep(s, buckets - 1);
    }
  }

  lemma {:induction false} CountFirstBounds(s: seq<u64>, buckets: nat)
    ensures CountFirst(s, buckets) <= |s|
    ensures buckets >= BUCKETS ==> CountFirst(s, buckets) == |s|
  {
    CountFirstStep(s, buckets);
    if s != [] {
      CountFirstBounds(s[..|s| - 1], buckets);
    }
  }

  /**
   * Buckets respect the order: those up to that of `r` hold every value up to `r`, those before hold only smaller
   * ones.
   */
  lemma {:induction false} BucketsBracket(s: seq<u64>, r: u64, buckets: nat)
    ensures buckets > BucketOf(r) ==> CountUpTo(s, r) <= CountFirst(s, buckets)
    ensures buckets <= BucketOf(r) ==> CountFirst(s, buckets) <= CountUpTo(s, r - 1)
  {
    CountFirstStep(s, buckets);
    if s != [] {
      BucketsBracket(s[..|s| - 1], r, buckets);
      var v := s[|s| - 1];
      if v <= r {
        BucketMonotone(v, r);
      } else {
        BucketMonotone(r, v);
      }
    }
  }

  // ----- quantiles

  /** The first bucket by which the target rank is reached. */
  ghost predicate IsTargetBucket(s: seq<u64>, target: int, bucket: nat) {
    && bucket < BUCKETS
    && CountFirst(s, bucket) < target <= CountFirst(s, bucket + 1)
  }

  /** The target bucket is the bucket of the target rank. */
  lemma TargetBucketOfRank(s: seq<u64>, target: int, bucket: nat, r: u64)
    requires IsTargetBucket(s, target, bucket) && IsRank(s, target, r)
    ensures bucket == BucketOf(r)
  {
    BucketsBracket(s, r, bucket);
    BucketsBracket(s, r, bucket + 1);
  }

  /** The factor-of-two bound, in all three ranges of the exact value. */
  lemma RepresentativeBounds(r: u64)
    ensures var q := Representative(BucketOf(r));
            && (q == 0 <==> r == 0)
            && (1 <= r <= 0x8000_0000_0000_0000 ==> r <= q < 2 * r)
            && (r > 0x8000_0000_0000_0000 ==> r < 2 * q && q < r)
  {
    var bucket := BucketOf(r);
    Power2Word();
    if r > 0 {
      BucketRange(r, bucket);
      Power2Fits(bucket);
      if bucket > 1 {
        BucketRange(r, bucket - 1);
      }
    }
  }

  /**
   * What is reported for each bucket: zero for the first, and its upper end 2^(k-1) for bucket k, 2^63 for the last.
   */
  lemma RepresentativeIs(bucket: nat)
    requires bucket < BUCKETS
    ensures bucket == 0 ==> Representative(bucket) == 0
    ensures bucket > 0 ==> Representative(bucket) == Power2(bucket - 1)
    ensures BUCKETS == 65 && Representative(64) == 0x8000_0000_0000_0000 && Representative(1) == 1
    ensures bucket > 1 ==> Representative(bucket) == 2 * Representative(bucket - 1)
  {
    Power2Word();
  }

  function Minimum(s: seq<u64>): u64 {
    if s == [] then UINT64_MAX
    else if s[|s| - 1] < Minimum(s[..|s| - 1]) then s[|s| - 1]
    else Minimum(s[..|s| - 1])
  }

  function Maximum(s: seq<u64>): u64 {
    if s == [] then 0
    else if s[|s| - 1] > Maximum(s[..|s| - 1]) then s[|s| - 1]
    else Maximum(s[..|s| - 1])
  }

  lemma {:induction false} ExtremesAreExtreme(s: seq<u64>)
    requires s != []
    ensures Minimum(s) in s && Maximum(s) in s
    ensures forall v :: v in s ==> Minimum(s) <= v <= Maximum(s)
  {
    var init := s[..|s| - 1];
    if init != [] {
      ExtremesAreExtreme(init);
    }
    assert s == init + [s[|s| - 1]];
  }

  lemma ExtremesSnoc(s: seq<u64>, v: u64)
    ensures Minimum(s + [v]) == if v < Minimum(s) then v else Minimum(s)
    ensures Maximum(s + [v]) == if v > Maximum(s) then v else Maximum(s)
  {
    assert (s + [v])[..|s|] == s;
  }

  lemma CountInSnoc(s: seq<u64>, v: u64, bucket: nat)
    ensures CountIn(s + [v], bucket) == CountIn(s, bucket) + if BucketOf(v) == bucket then 1 else 0
  {
    assert (s + [v])[..|s|] == s;
  }

  datatype LatencySummary = LatencySummary(samples: u64, minimumNs: u64, p50Ns: u64, p95Ns: u64, p99Ns: u64,
                                           maximumNs: u64)

  /** `summary` is what the histogram reports after `observed`, when the rank arithmetic does not wrap. */
  ghost predicate Summarizes(summary: LatencySummary, observed: seq<u64>) {
    && summary.samples == |observed|
    && summary.minimumNs == Minimum(observed) && summary.maximumNs == Maximum(observed)
    && IsQuantile(observed, 50, summary.p50Ns)
    && IsQuantile(observed, 95, summary.p95Ns)
    && IsQuantile(observed, 99, summary.p99Ns)
  }

  ghost predicate IsQuantile(observed: seq<u64>, percentile: nat, q: u64) {
    exists bucket :: IsTargetBucket(observed, TargetRank(|observed|, percentile), bucket) && q == Representative(bucket)
  }

  class LatencyHistogram {
    const buckets: array<u64>
    var samples: u64
    var minimum: u64
    var maximum: u64
    ghost var observed: seq<u64>

    ghost predicate Valid()
      reads this, buckets
    {
      && buckets.Length == BUCKETS
      && (forall i :: 0 <= i < BUCKETS ==> buckets[i] == Wrap(CountIn(observed, i)))
      && samples == Wrap(|observed|)
      && minimum == Minimum(observed)
      && maximum == Maximum(observed)
    }

    constructor ()
      ensures Valid() && fresh(buckets)
      ensures observed == []
    {
      buckets := new u64[BUCKETS](_ => 0);
      samples, minimum, maximum := 0, UINT64_MAX, 0;
      observed := [];
    }

    method Observe(value: u64)
      requires Valid()
      modifies this, buckets
      ensures Valid() && observed == old(observed) + [value]
    {
      hide CountIn, Minimum, Maximum, BucketOf, Wrap;
      var bucket := BucketOf(value);
      buckets[bucket] := Plus(buckets[bucket], 1);
      samples := Plus(samples, 1);
      minimum := if minimum < value then minimum else value;
      maximum := if maximum < value then value else maximum;
      forall i | 0 <= i < BUCKETS
        ensures buckets[i] == Wrap(CountIn(observed + [value], i))
      {
        CountInSnoc(observed, value, i);
        PlusOne(CountIn(observed, i));
      }
      PlusOne(|observed|);
      ExtremesSnoc(observed, value);
      observed := observed + [value];
    }

    /** Never falls through to the maximum and never reaches a bucket above 64, as long as ranks do not wrap. */
    method Quantile(percentile: nat) returns (q: u64)
      requires Valid()
      ensures observed != [] && 1 <= percentile <= 100 && RankFits(|observed|, percentile) ==>
                IsQuantile(observed, percentile, q)
    {
      hide CountIn, CountFirst, TargetRank, RankFits, Minimum, Maximum, Power2, Plus;
      NoBucket(observed);
      var target := TargetRank(samples, percentile);
      var cumulative: u64 := 0;
      ghost var regular := observed != [] && 1 <= percentile <= 100 && RankFits(|observed|, percentile);
      if regular {
        SamplesFit(|observed|, percentile);
        TargetInRange(|observed|, percentile);
      }
      for index := 0 to BUCKETS
        invariant regular ==> cumulative == CountFirst(observed, index) < target
      {
        if regular {
          BucketFits(observed, index);
        }
        cumulative := Plus(cumulative, buckets[index]);
        if cumulative >= target {
          if index == 0 {
            assert regular ==> IsTargetBucket(observed, target, 0);
            return 0;
          }
          if index > 64 {
            return UINT64_MAX;
          }
          Power2Fits(index);
          assert regular ==> IsTargetBucket(observed, target, index) && Power2(index - 1) == Representative(index);
          return Power2(index - 1);
        }
      }
      CountFirstBounds(observed, BUCKETS);
      return maximum;
    }

    method Summary() returns (summary: LatencySummary)
      requires Valid()
      ensures observed == [] ==> summary == LatencySummary(0, 0, 0, 0, 0, 0)
      ensures observed != [] && RankFits(|observed|, 99) ==> Summarizes(summary, observed)
      ensures summary.samples == Wrap(|observed|)
    {
      if samples == 0 {
        return LatencySummary(0, 0, 0, 0, 0, 0);
      }
      if RankFits(|observed|, 99) {
        RankFitsBelow(|observed|, 50);
        RankFitsBelow(|observed|, 95);
        assert samples == |observed|;
      }
      hide IsQuantile, Minimum, Maximum, CountIn;
      var p50 := Quantile(50);
      var p95 := Quantile(95);
      var p99 := Quantile(99);
      return LatencySummary(samples, minimum, p50, p95, p99, maximum);
    }
  }

  lemma NoBucket(s: seq<u64>)
    ensures CountFirst(s, 0) == 0
  {
  }

  lemma BucketFits(s: seq<u64>, bucket: nat)
    requires |s| < TWO64 && bucket < BUCKETS
    ensures Wrap(CountIn(s, bucket)) == CountIn(s, bucket)
    ensures Plus(CountFirst(s, bucket), CountIn(s, bucket)) == CountFirst(s, bucket + 1)
  {
    CountFirstBounds(s, bucket + 1);
  }

  lemma RankFitsBelow(samples: nat, percentile: nat)
    requires percentile <= 99 && RankFits(samples, 99)
    ensures RankFits(samples, percentile) && samples < TWO64
  {
    assert samples * percentile <= samples * 99;
  }

  lemma SamplesFit(samples: nat, percentile: nat)
    requires percentile >= 1 && RankFits(samples, percentile)
    ensures samples < TWO64
  {
    assert samples * percentile >= samples;
  }

  // ----- the main results

  /** Every reported quantile is within a factor of two of the exact nearest-rank value of the sorted samples. */
  lemma QuantileWithinFactorTwo(observed: seq<u64>, sorted: seq<u64>, percentile: nat, q: u64)
    requires observed != [] && IsSorted(sorted) && IsPermutation(observed, sorted)
    requires 1 <= percentile <= 100 && RankFits(|observed|, percentile)
    requires IsQuantile(observed, percentile, q)
    ensures var r := NearestRank(sorted, percentile);
            && (q == 0 <==> r == 0)
            && (1 <= r <= 0x8000_0000_0000_0000 ==> r <= q < 2 * r)
            && (r > 0x8000_0000_0000_0000 ==> r < 2 * q && q < r)
  {
    var target := TargetRank(|observed|, percentile);
    var r := NearestRank(sorted, percentile);
    NearestRankIsRank(observed, sorted, percentile);
    var bucket :| IsTargetBucket(observed, target, bucket) && q == Representative(bucket);
    TargetBucketOfRank(observed, target, bucket, r);
    RepresentativeBounds(r);
  }

  /** `q` is `r` rounded up to a power of two, or 2^63 above that. */
  ghost predicate RoundedUp(r: u64, q: u64) {
    && (r == 0 ==> q == 0)
    && (1 <= r <= 0x8000_0000_0000_0000 ==> r <= q < 2 * r && IsPowerOfTwo(q))
    && (r > 0x8000_0000_0000_0000 ==> q == 0x8000_0000_0000_0000)
  }

  lemma RepresentativeRoundsUp(r: u64)
    ensures RoundedUp(r, Representative(BucketOf(r)))
  {
    RepresentativeBounds(r);
    RepresentativeIs(BucketOf(r));
    Power2Word();
    if r > 0x8000_0000_0000_0000 {
      BucketRange(r, 63);
      Power2Monotone(62, 63);
    } else if r > 0 {
      assert IsPowerOfTwo(Power2(BucketOf(r) - 1));
    }
  }

  lemma QuantileRoundsUp(observed: seq<u64>, sorted: seq<u64>, percentile: nat, q: u64)
    requires observed != [] && IsSorted(sorted) && IsPermutation(observed, sorted)
    requires 1 <= percentile <= 100 && RankFits(|observed|, percentile)
    requires IsQuantile(observed, percentile, q)
    ensures RankIndex(|observed|, percentile) < |sorted| && RoundedUp(sorted[RankIndex(|observed|, percentile)], q)
  {
    hide CountFirst, IsRank, RoundedUp, BucketOf, Representative;
    var target := TargetRank(|observed|, percentile);
    assert |multiset(observed)| == |multiset(sorted)|;
    TargetInRange(|observed|, percentile);
    var r := NearestRank(sorted, percentile);
    NearestRankIsRank(observed, sorted, percentile);
    var bucket :| IsTargetBucket(observed, target, bucket) && q == Representative(bucket);
    TargetBucketOfRank(observed, target, bucket, r);
    RepresentativeRoundsUp(r);
  }

  /** The position of the percentile among the sorted samples: as many of a hundred, rounded up, counting from one. */
  function RankIndex(samples: nat, percentile: nat): nat
    requires samples * percentile > 0
  {
    (samples * percentile + 99) / 100 - 1
  }

  /** What a summary says about the samples in sorted order, figure by figure. */
  lemma SummaryExactly(observed: seq<u64>, sorted: seq<u64>, summary: LatencySummary)
    requires observed != [] && IsSorted(sorted) && IsPermutation(observed, sorted) && RankFits(|observed|, 99)
    requires Summarizes(summary, observed)
    ensures |sorted| == |observed| == summary.samples
    ensures summary.minimumNs == sorted[0] && summary.maximumNs == sorted[|sorted| - 1]
    ensures var n := |sorted|;
            && RankIndex(n, 50) < n && RoundedUp(sorted[RankIndex(n, 50)], summary.p50Ns)
            && RankIndex(n, 95) < n && RoundedUp(sorted[RankIndex(n, 95)], summary.p95Ns)
            && RankIndex(n, 99) < n && RoundedUp(sorted[RankIndex(n, 99)], summary.p99Ns)
  {
    hide IsQuantile, RoundedUp, Minimum, Maximum;
    assert |multiset(observed)| == |multiset(sorted)|;
    RankFitsBelow(|observed|, 50);
    RankFitsBelow(|observed|, 95);
    QuantileRoundsUp(observed, sorted, 50, summary.p50Ns);
    QuantileRoundsUp(observed, sorted, 95, summary.p95Ns);
    QuantileRoundsUp(observed, sorted, 99, summary.p99Ns);
    ExtremesAreExtreme(observed);
    forall v
      ensures v in observed <==> v in sorted
    {
      assert v in observed <==> v in multiset(observed);
      assert v in sorted <==> v in multiset(sorted);
    }
    assert sorted[0] in sorted && sorted[|sorted| - 1] in sorted;
  }

  /** Quantiles never decrease with the percentile. */
  lemma QuantilesMonotone(observed: seq<u64>, a: nat, b: nat, p: u64, q: u64)
    requires observed != [] && 1 <= a <= b <= 100 && RankFits(|observed|, b)
    requires IsQuantile(observed, a, p) && IsQuantile(observed, b, q)
    ensures p <= q
  {
    var n := |observed|;
    TargetMonotone(n, a, b);
    var i :| IsTargetBucket(observed, TargetRank(n, a), i) && p == Representative(i);
    var j :| IsTargetBucket(observed, TargetRank(n, b), j) && q == Representative(j);
    TargetBucketsOrdered(observed, TargetRank(n, a), TargetRank(n, b), i, j);
    RepresentativeMonotone(i, j);
  }

  lemma TargetBucketsOrdered(s: seq<u64>, a: int, b: int, i: nat, j: nat)
    requires a <= b && IsTargetBucket(s, a, i) && IsTargetBucket(s, b, j)
    ensures i <= j
  {
    if j < i {
      CountFirstMonotone(s, j + 1, i);
    }
  }

  lemma RepresentativeMonotone(i: nat, j: nat)
    requires i <= j < BUCKETS
    ensures Representative(i) <= Representative(j)
  {
    if i > 0 {
      Power2Monotone(i - 1, j - 1);
    }
  }

  lemma TargetMonotone(samples: nat, a: nat, b: nat)
    requires a <= b && RankFits(samples, b)
    ensures TargetRank(samples, a) <= TargetRank(samples, b)
  {
    hide TargetRank, RankFits;
    ProductMonotone(samples, a, b);
    RankOfProduct(samples, a, samples * a);
    RankOfProduct(samples, b, samples * b);
  }

  lemma ProductMonotone(n: nat, a: nat, b: nat)
    requires a <= b
    ensures 0 <= n * a <= n * b
  {
    assert n * b == n * a + n * (b - a);
  }

  lemma RankOfProduct(samples: nat, percentile: nat, product: int)
    requires product == samples * percentile && product >= 0
    ensures product + 99 < TWO64 ==> TargetRank(samples, percentile) == (product + 99) / 100
    ensures RankFits(samples, percentile) <==> product + 99 < TWO64
  {
  }

  lemma {:induction false} CountFirstMonotone(s: seq<u64>, j: nat, k: nat)
    requires j <= k
    ensures CountFirst(s, j) <= CountFirst(s, k)
  {
    if j < k {
      CountFirstMonotone(s, j, k - 1);
    }
  }

  /**
   * Exactly when a reported quantile exceeds the maximum: the ranked value shares the bucket of the maximum, and the
   * maximum is not the top of that bucket.
   */
  lemma QuantileExceedsMaximumExactly(observed: seq<u64>, percentile: nat, q: u64, r: u64)
    requires observed != [] && IsQuantile(observed, percentile, q)
    requires IsRank(observed, TargetRank(|observed|, percentile), r)
    ensures var m := Maximum(observed);
            q > m <==> BucketOf(r) == BucketOf(m) && Representative(BucketOf(m)) > m
  {
    hide TargetRank, IsRank, CountFirst, Maximum, BucketOf, Representative;
    var target, m := TargetRank(|observed|, percentile), Maximum(observed);
    var bucket :| IsTargetBucket(observed, target, bucket) && q == Representative(bucket);
    TargetBucketOfRank(observed, target, bucket, r);
    RankedAtMostMaximum(observed, target, r);
    if BucketOf(r) != BucketOf(m) {
      LowerBucketBelow(r, m);
    }
  }

  lemma RankedAtMostMaximum(observed: seq<u64>, target: int, r: u64)
    requires observed != [] && IsRank(observed, target, r)
    ensures r <= Maximum(observed)
  {
    ExtremesAreExtreme(observed);
  }

  /** A value in a lower bucket is reported as less than any value of the higher bucket. */
  lemma LowerBucketBelow(r: u64, m: u64)
    requires r <= m && BucketOf(r) != BucketOf(m)
    ensures Representative(BucketOf(r)) < m
  {
    BucketMonotone(r, m);
    var bucket := BucketOf(r);
    if bucket > 0 {
      BucketRange(m, bucket);
    }
  }

  ghost predicate IsPowerOfTwo(m: nat) {
    exists k: nat :: Power2(k) == m
  }

  /** The maximum is below the top of its bucket iff it is neither zero nor a power of two, and below 2^63. */
  lemma BelowBucketTopExactly(m: u64)
    ensures Representative(BucketOf(m)) > m <==> m != 0 && !IsPowerOfTwo(m) && m < 0x8000_0000_0000_0000
  {
    var bucket := BucketOf(m);
    RepresentativeBounds(m);
    Power2Word();
    if m != 0 {
      BucketRange(m, bucket);
      if k: nat :| Power2(k) == m {
        PowerIsTop(k, m);
      }
    }
  }

  lemma PowerIsTop(k: nat, m: u64)
    requires Power2(k) == m && m < TWO64
    ensures Representative(BucketOf(m)) == m
  {
    Power2Word();
    if k >= 64 {
      Power2Monotone(64, k);
    } else {
      BucketRange(m, k + 1);
      if k > 0 {
        BucketRange(m, k);
        Power2Monotone(0, k - 1);
      } else {
        assert Power2(0) == 1;
      }
    }
  }

  /** A quantile can exceed the maximum: the single sample 3 is reported as 4. */
  lemma QuantileCanExceedMaximum()
    ensures IsQuantile([3], 99, 4) && Maximum([3]) == 3
  {
    BucketOfThree();
    hide BucketOf, BitWidth;
    assert CountIn([3], 0) == CountIn([3], 1) == CountIn([3], 2) == 0 && CountIn([3], 3) == 1;
    hide CountIn;
    assert CountFirst([3], 3) == 0 && CountFirst([3], 4) == 1;
    hide CountFirst;
    assert IsTargetBucket([3], TargetRank(1, 99), 3);
  }

  lemma BucketOfThree()
    ensures BucketOf(3) == 3 && Representative(3) == 4
  {
    assert BitWidth(2) == 1 + BitWidth(1) == 2;
    assert Power2(2) == 4;
  }
}
