/** The benchmark's order statistics in 64-bit unsigned arithmetic. */
module Statistics {
  import opened Bytes

  const WORD: nat := 0x1_0000_0000_0000_0000

  type u64 = n: nat | n < WORD

  predicate Sorted(s: seq<u64>) {
    forall i, j :: 0 <= i < j < |s| ==> s[i] <= s[j]
  }

  /** compare_u64. */
  function Compare(a: u64, b: u64): int {
    (if a > b then 1 else 0) - (if a < b then 1 else 0)
  }

  // ----- the rank

  function CeilDiv(a: nat, b: nat): nat
    requires b > 0
  {
    (a + (b - 1)) / b
  }

  /** max(1, ceil(count * num / den)). */
  function Rank(count: nat, num: nat, den: nat): nat
    requires den > 0
  {
    var r := CeilDiv(count * num, den);
    if r == 0 then 1 else r
  }

  lemma DivOfMultiple(q: nat, r: nat, d: nat)
    requires d > 0
    ensures (q * d + r) / d == q + r / d
  {
    var k, m := r / d, r % d;
    assert r == d * k + m;
    assert q * d + r == d * (q + k) + m;
    DivUnique(q * d + r, d, q + k, m);
  }

  lemma DivUnique(n: nat, d: nat, q: nat, r: nat)
    requires d > 0 && n == d * q + r && r < d
    ensures n / d == q
  {
    var q', r' := n / d, n % d;
    assert n == d * q' + r';
    Apart(d, q, q', r, r');
    Apart(d, q', q, r', r);
  }

  lemma Apart(d: nat, q: nat, p: nat, r: nat, s: nat)
    requires d * q + r == d * p + s && r < d
    ensures p <= q
  {
    if p > q {
      assert d * p == d * q + d * (p - q);
      AtLeastOne(d, p - q);
    }
  }

  lemma AtLeastOne(d: nat, k: nat)
    requires k >= 1
    ensures d * k >= d
  {
    assert d * k == d + d * (k - 1);
  }

  /** Splitting the count into quotient and remainder gives the same ceiling. */
  lemma SplitDivision(count: nat, num: nat, den: nat)
    requires den > 0
    ensures CeilDiv(count * num, den) == count / den * num + CeilDiv(count % den * num, den)
  {
    var q, r := count / den, count % den;
    assert count == q * den + r;
    assert count * num == (q * num) * den + r * num;
    DivOfMultiple(q * num, r * num + (den - 1), den);
  }

  lemma CeilDivBounds(a: nat, b: nat, m: nat)
    requires b > 0 && a <= b * m
    ensures CeilDiv(a, b) <= m
  {
    var n := a + (b - 1);
    assert n == b * (n / b) + n % b;
    assert b * (m + 1) == b * m + b;
    Cancel(b, n / b, m + 1);
  }

  lemma Cancel(b: nat, q: nat, k: nat)
    requires b * q < b * k
    ensures q < k
  {
    if q >= k {
      MulMonotone(k, q, b);
    }
  }

  /** The rank is an index, for every percentile up to 100%. */
  lemma RankInRange(count: nat, num: nat, den: nat)
    requires 0 < count && 0 < num <= den
    ensures 1 <= Rank(count, num, den) <= count
  {
    MulMonotone(num, den, count);
    CeilDivBounds(count * num, den, count);
  }

  lemma MulMonotone(a: nat, b: nat, c: nat)
    requires a <= b
    ensures a * c <= b * c && c * a <= c * b
  {
    assert b * c == a * c + (b - a) * c;
  }

  /** The intermediate values of the computation fit a word. */
  lemma RankFits(count: nat, num: nat, den: nat, q: nat, r: nat)
    requires count == den * q + r && r < den
    requires 0 < num <= den
    ensures q * num <= count
    ensures r * num + den - 1 < den * (num + 1)
  {
    MulMonotone(num, den, q);
    MulMonotone(r, den, num);
    assert den * (num + 1) == den * num + den;
  }

  /** The two-part computation gives the rank. */
  lemma RankInTwoParts(count: nat, num: nat, den: nat, q: nat, r: nat)
    requires den > 0 && q == count / den && r == count % den
    ensures var sum := q * num + (if r != 0 then (r * num + den - 1) / den else 0);
            Rank(count, num, den) == if sum == 0 then 1 else sum
  {
    SplitDivision(count, num, den);
    if r == 0 {
      DivUnique(den - 1, den, 0, den - 1);
    }
  }

  // The operators of nearest_rank, so that its steps can be named.

  function Times(a: nat, b: nat): nat { a * b }

  function Over(a: nat, b: nat): nat
    requires b > 0
  {
    a / b
  }

  function Rest(a: nat, b: nat): nat
    requires b > 0
  {
    a % b
  }

  lemma RankSteps(count: u64, num: nat, den: nat)
    requires 0 < count && 0 < num <= den && den * (num + 1) < WORD
    ensures Over(count, den) <= count && Rest(count, den) < den
    ensures Times(Over(count, den), num) <= count
    ensures Times(Rest(count, den), num) + den - 1 < WORD
    ensures var sum := Times(Over(count, den), num)
                       + (if Rest(count, den) != 0 then Over(Times(Rest(count, den), num) + den - 1, den) else 0);
            Rank(count, num, den) == (if sum == 0 then 1 else sum) <= count
  {
    var q, r := count / den, count % den;
    assert count == den * q + r;
    MulMonotone(1, den, q);
    RankInRange(count, num, den);
    RankInTwoParts(count, num, den, q, r);
    RankFits(count, num, den, q, r);
  }

  /** The arithmetic of nearest_rank: every intermediate value fits a word. */
  method ComputeRank(count: u64, num: nat, den: nat) returns (rank: u64)
    requires 0 < count && 0 < num <= den && den * (num + 1) < WORD
    ensures rank == Rank(count, num, den)
  {
    hide Rank, Times, Over, Rest;
    RankSteps(count, num, den);
    var q: u64, r: u64 := Over(count, den), Rest(count, den);
    rank := Times(q, num);
    if r != 0 {
      var sum: u64 := Times(r, num) + den - 1;
      var part := Over(sum, den);
      rank := rank + part;
    }
    if rank == 0 {
      rank := 1;
    }
  }

  /** The rank is the least one, at least 1, that covers num/den of the count. */
  lemma RankIsCeiling(count: nat, num: nat, den: nat)
    requires den > 0
    ensures var r := Rank(count, num, den);
            r >= 1 && Times(r, den) >= Times(count, num) && (r > 1 ==> Times(r - 1, den) < Times(count, num))
  {
    var a, r := count * num, CeilDiv(count * num, den);
    var rest := (a + (den - 1)) % den;
    assert a + (den - 1) == den * r + rest;
    if r > 0 {
      assert den * r == den * (r - 1) + den;
    }
    assert r * den == den * r && (r > 0 ==> (r - 1) * den == den * (r - 1));
  }

  /** nearest_rank. */
  method NearestRank(sorted: seq<u64>, num: nat, den: nat) returns (value: u64)
    requires 0 < |sorted| < WORD && 0 < num <= den && den * (num + 1) < WORD
    ensures 1 <= Rank(|sorted|, num, den) <= |sorted|
    ensures value == sorted[Rank(|sorted|, num, den) - 1]
  {
    hide Rank;
    var rank := ComputeRank(|sorted|, num, den);
    RankInRange(|sorted|, num, den);
    return sorted[rank - 1];
  }

  // ----- what the rank means

  /** How many samples are below a bound. */
  function CountBelow(s: seq<u64>, bound: nat): nat {
    if s == [] then 0 else CountBelow(s[..|s| - 1], bound) + (if s[|s| - 1] < bound then 1 else 0)
  }

  function CountAtMost(s: seq<u64>, v: nat): nat { CountBelow(s, v + 1) }

  lemma {:induction false} CountConcat(a: seq<u64>, b: seq<u64>, bound: nat)
    ensures CountBelow(a + b, bound) == CountBelow(a, bound) + CountBelow(b, bound)
  {
    if b == [] {
      assert a + b == a;
    } else {
      assert (a + b)[..|a + b| - 1] == a + b[..|b| - 1];
      CountConcat(a, b[..|b| - 1], bound);
    }
  }

  lemma {:induction false} CountBounds(s: seq<u64>, bound: nat)
    ensures CountBelow(s, bound) <= |s|
    ensures (forall i :: 0 <= i < |s| ==> s[i] < bound) ==> CountBelow(s, bound) == |s|
    ensures (forall i :: 0 <= i < |s| ==> s[i] >= bound) ==> CountBelow(s, bound) == 0
  {
    if s != [] {
      CountBounds(s[..|s| - 1], bound);
    }
  }

  lemma {:induction false} CountAtLeast(s: seq<u64>, k: nat, bound: nat)
    requires k <= |s| && forall i :: 0 <= i < k ==> s[i] < bound
    ensures CountBelow(s, bound) >= k
  {
    if k < |s| {
      CountAtLeast(s[..|s| - 1], k, bound);
    } else if k > 0 {
      CountAtLeast(s[..|s| - 1], k - 1, bound);
    }
  }

  lemma {:induction false} CountNoMore(s: seq<u64>, k: nat, bound: nat)
    requires k <= |s| && forall i :: k <= i < |s| ==> s[i] >= bound
    ensures CountBelow(s, bound) <= k
  {
    if k < |s| {
      CountNoMore(s[..|s| - 1], k, bound);
    } else {
      CountBounds(s, bound);
    }
  }

  /** In sorted samples at least `rank` of them are at most the one at that
      rank, and fewer are strictly below it. */
  lemma RankMeaning(s: seq<u64>, rank: nat)
    requires Sorted(s) && 1 <= rank <= |s|
    ensures CountAtMost(s, s[rank - 1]) >= rank
    ensures CountBelow(s, s[rank - 1]) < rank
  {
    var v: nat := s[rank - 1];
    CountAtLeast(s, rank, v + 1);
    CountNoMore(s, rank - 1, v);
  }

  /** Taking one sample out. */
  lemma CountWithout(s: seq<u64>, i: nat, bound: nat)
    requires i < |s|
    ensures CountBelow(s, bound) == CountBelow(s[..i] + s[i + 1..], bound) + (if s[i] < bound then 1 else 0)
  {
    hide CountBelow;
    CountConcat(s[..i], s[i + 1..], bound);
    CountConcat(s[..i], [s[i]], bound);
    CountConcat(s[..i] + [s[i]], s[i + 1..], bound);
    CountOne(s[i], bound);
    assert s == s[..i] + [s[i]] + s[i + 1..];
  }

  lemma CountOne(x: u64, bound: nat)
    ensures CountBelow([x], bound) == if x < bound then 1 else 0
  {
    assert CountBelow([x][..0], bound) == 0;
  }

  lemma MultisetWithout(s: seq<u64>, i: nat)
    requires i < |s|
    ensures multiset(s[..i] + s[i + 1..]) == multiset(s) - multiset{s[i]}
  {
    assert s == s[..i] + [s[i]] + s[i + 1..];
  }

  /** Counting does not depend on the order of the samples. */
  lemma {:induction false} CountOfPermutation(a: seq<u64>, b: seq<u64>, bound: nat)
    requires multiset(a) == multiset(b)
    ensures CountBelow(a, bound) == CountBelow(b, bound) && |a| == |b|
  {
    assert |multiset(a)| == |a| && |multiset(b)| == |b|;
    if a != [] {
      var last := |a| - 1;
      assert a[last] in multiset(b);
      var i :| 0 <= i < |b| && b[i] == a[last];
      assert a[..last] + a[last + 1..] == a[..last];
      MultisetWithout(a, last);
      MultisetWithout(b, i);
      CountOfPermutation(a[..last], b[..i] + b[i + 1..], bound);
      CountWithout(b, i, bound);
    }
  }

  // ----- the median

  function Mean(a: nat, b: nat): nat { (a + b) / 2 }

  /** floor((a + b) / 2) without the sum. */
  lemma HalvesMakeTheMean(a: nat, b: nat)
    ensures a / 2 + b / 2 + (a % 2 + b % 2) / 2 == Mean(a, b)
  {
  }

  /** The middle sample, or the mean of the two in the middle. */
  function MedianOf(sorted: seq<u64>): nat
    requires sorted != []
  {
    var n := |sorted|;
    if n % 2 == 1 then sorted[n / 2] else Mean(sorted[n / 2 - 1], sorted[n / 2])
  }

  /** No more than half of the samples are below the median, and at least half
      are not above it. */
  lemma MedianMeaning(s: seq<u64>)
    requires Sorted(s) && s != []
    ensures 2 * CountBelow(s, MedianOf(s)) <= |s| <= 2 * CountAtMost(s, MedianOf(s))
  {
    var n, m := |s|, MedianOf(s);
    CountAtLeast(s, (n + 1) / 2, m + 1);
    CountNoMore(s, n / 2, m);
  }

  /** The median formula of run_benchmark. */
  method Median(sorted: seq<u64>) returns (median: u64)
    requires sorted != []
    ensures median == MedianOf(sorted)
    ensures |sorted| % 2 == 1 ==> median == sorted[|sorted| / 2]
    ensures |sorted| % 2 == 0 ==> median == (sorted[|sorted| / 2 - 1] as int + sorted[|sorted| / 2] as int) / 2
  {
    var n := |sorted|;
    if n % 2 != 0 {
      return sorted[n / 2];
    }
    var a, b := sorted[n / 2 - 1], sorted[n / 2];
    var halves: u64 := a / 2 + b / 2;
    var carry: u64 := (a % 2 + b % 2) / 2;
    HalvesMakeTheMean(a, b);
    return halves + carry;
  }

  // ----- the benchmark run

  /** One timed call: two clock readings and the verifier's answer. */
  datatype Timing = Timing(start: u64, stop: u64, verified: bool)

  const CLOCK_FAILED: u64 := WORD - 1

  predicate Good(t: Timing) {
    t.start != CLOCK_FAILED && t.stop != CLOCK_FAILED && t.start <= t.stop && t.verified
  }

  /** No element compares greater than a later one. */
  predicate InOrder(s: seq<u64>) {
    forall i, j :: 0 <= i < j < |s| ==> Compare(s[i], s[j]) <= 0
  }

  /** qsort with compare_u64: an ordered permutation. */
  ghost predicate Sorts(sort: seq<u64> -> seq<u64>) {
    forall s: seq<u64> :: InOrder(sort(s)) && multiset(sort(s)) == multiset(s)
  }

  datatype Summary = Summary(meanMs: real, median: u64, p95: u64, p99: u64, min: u64, max: u64)

  function Sum(s: seq<u64>): nat {
    if s == [] then 0 else Sum(s[..|s| - 1]) + s[|s| - 1]
  }

  lemma {:induction false} SumBounds(s: seq<u64>, low: nat, high: nat)
    requires forall i :: 0 <= i < |s| ==> low <= s[i] <= high
    ensures low * |s| <= Sum(s) <= high * |s|
  {
    if s != [] {
      SumBounds(s[..|s| - 1], low, high);
      assert low * |s| == low * (|s| - 1) + low && high * |s| == high * (|s| - 1) + high;
    }
  }

  /** ns_to_ms, without rounding. */
  function NsToMs(ns: real): real { ns / 1000000.0 }

  /** The mean lies between the smallest and the largest sample. */
  lemma MeanIsBetween(s: seq<u64>, low: u64, high: u64)
    requires s != [] && CountBelow(s, low) == 0 && CountAtMost(s, high) == |s|
    ensures NsToMs(low as real) <= NsToMs(Sum(s) as real / |s| as real) <= NsToMs(high as real)
  {
    hide Sum, CountBelow;
    var top: nat := high;
    AllCounted(s, low, top + 1);
    SumBounds(s, low, top);
    QuotientBounds(Sum(s), low, top, |s|);
  }

  lemma QuotientBounds(sum: nat, low: nat, high: nat, n: nat)
    requires n > 0 && low * n <= sum <= high * n
    ensures low as real <= sum as real / n as real <= high as real
  {
    ProductAsReal(low, n);
    ProductAsReal(high, n);
    Between(low as real, high as real, sum as real, n as real);
  }

  lemma {:induction false} ProductAsReal(a: nat, b: nat)
    ensures (a * b) as real == a as real * b as real
  {
    if b > 0 {
      ProductAsReal(a, b - 1);
      assert a * b == a * (b - 1) + a;
    }
  }

  lemma Between(low: real, high: real, sum: real, n: real)
    requires n > 0.0 && low * n <= sum <= high * n
    ensures low <= sum / n <= high
  {
    var q := sum / n;
    assert q * n == sum;
  }

  /** No sample below `low` and all below `bound`. */
  lemma {:induction false} AllCounted(s: seq<u64>, low: nat, bound: nat)
    requires CountBelow(s, low) == 0 && CountBelow(s, bound) == |s|
    ensures forall i :: 0 <= i < |s| ==> low <= s[i] < bound
  {
    if s != [] {
      CountBounds(s[..|s| - 1], bound);
      AllCounted(s[..|s| - 1], low, bound);
    }
  }

  /** The loop over the timed calls: the durations and their sum. */
  method Measure(timings: seq<Timing>) returns (samples: Option<seq<u64>>, total: nat)
    ensures samples.Some? <==> forall t <- timings :: Good(t)
    ensures samples.Some? <==>
              forall t <- timings ::
                t.verified && t.start != 0xffff_ffff_ffff_ffff && t.stop != 0xffff_ffff_ffff_ffff && t.start <= t.stop
    ensures samples.Some? ==> IsMeasured(samples.value, timings) && total == Sum(samples.value)
  {
    var buffer := new u64[|timings|];
    total := 0;
    for i := 0 to |timings|
      invariant forall k :: 0 <= k < i ==> Good(timings[k]) && buffer[k] == timings[k].stop - timings[k].start
      invariant total == Sum(buffer[..i])
    {
      if !Good(timings[i]) {
        assert timings[i] in timings;
        return None, 0;
      }
      buffer[i] := timings[i].stop - timings[i].start;
      assert buffer[..i + 1][..i] == buffer[..i];
      var duration: nat := buffer[i];
      total := total + duration;
    }
    assert buffer[..] == buffer[..|timings|];
    samples := Some(buffer[..]);
  }

  ghost predicate IsMeasured(samples: seq<u64>, timings: seq<Timing>) {
    |samples| == |timings|
    && forall i :: 0 <= i < |samples| ==> timings[i].start <= timings[i].stop
                                          && samples[i] == timings[i].stop - timings[i].start
  }

  /** What a summary says about the samples, in whatever order they came. */
  ghost predicate Describes(s: Summary, sort: seq<u64> -> seq<u64>, samples: seq<u64>)
    requires samples != [] && |sort(samples)| == |samples|
  {
    && s.meanMs == NsToMs(Sum(samples) as real / |samples| as real)
    && NsToMs(s.min as real) <= s.meanMs <= NsToMs(s.max as real)
    && s.median == MedianOf(sort(samples))
    && 2 * CountBelow(samples, s.median) <= |samples| <= 2 * CountAtMost(samples, s.median)
    && CountAtMost(samples, s.p95) >= Rank(|samples|, 95, 100) > CountBelow(samples, s.p95)
    && CountAtMost(samples, s.p99) >= Rank(|samples|, 99, 100) > CountBelow(samples, s.p99)
    && CountBelow(samples, s.min) == 0 && CountAtMost(samples, s.max) == |samples|
    && s.min in samples && s.max in samples
  }

  /** The part of run_benchmark after the loops. */
  method Summarize(sort: seq<u64> -> seq<u64>, samples: seq<u64>, total: nat) returns (r: Summary)
    requires Sorts(sort) && 0 < |samples| < WORD && total == Sum(samples)
    ensures |sort(samples)| == |samples| && Describes(r, sort, samples)
    ensures CountBelow(samples, r.min) == 0 && r.min in samples && CountAtMost(samples, r.max) == |samples| && r.max in samples
    ensures CountAtMost(samples, r.p95) >= Rank(|samples|, 95, 100) > CountBelow(samples, r.p95)
    ensures CountAtMost(samples, r.p99) >= Rank(|samples|, 99, 100) > CountBelow(samples, r.p99)
    ensures r.median == MedianOf(sort(samples)) && r.meanMs == Sum(samples) as real / |samples| as real / 1000000.0
  {
    hide Sum, CountBelow, Rank, MedianOf;
    var sorted := sort(samples);
    CountOfPermutation(samples, sorted, 0);
    var median := Median(sorted);
    MiddleOfSamples(samples, sorted);
    var p95 := Percentile(samples, sorted, 95);
    var p99 := Percentile(samples, sorted, 99);
    Extremes(samples, sorted);
    var low, high := sorted[0], sorted[|sorted| - 1];
    MeanIsBetween(samples, low, high);
    var meanMs := NsToMs(total as real / |samples| as real);
    r := Summary(meanMs, median, p95, p99, low, high);
  }

  /** run_benchmark: no result unless every warm-up call verified and every
      timing is good; then the summary of the measured durations. */
  method RunBenchmark(sort: seq<u64> -> seq<u64>, warmup: seq<bool>, timings: seq<Timing>)
    returns (r: Option<Summary>)
    requires Sorts(sort) && |timings| < WORD
    ensures r.Some? <==> timings != [] && (forall w <- warmup :: w) && forall t <- timings :: Good(t)
    ensures forall samples: seq<u64> :: r.Some? && IsMeasured(samples, timings) ==>
              |sort(samples)| == |samples| > 0 && Describes(r.value, sort, samples)
  {
    if timings == [] {
      return None;
    }
    for i := 0 to |warmup|
      invariant forall k :: 0 <= k < i ==> warmup[k]
    {
      if !warmup[i] {
        assert warmup[i] in warmup;
        return None;
      }
    }
    var samples, total := Measure(timings);
    if samples.None? {
      return None;
    }
    var summary := Summarize(sort, samples.value, total);
    forall other: seq<u64> | IsMeasured(other, timings)
      ensures other == samples.value
    {
    }
    return Some(summary);
  }

  lemma MiddleOfSamples(samples: seq<u64>, sorted: seq<u64>)
    requires Sorted(sorted) && multiset(samples) == multiset(sorted) && sorted != []
    ensures |samples| == |sorted|
    ensures 2 * CountBelow(samples, MedianOf(sorted)) <= |samples| <= 2 * CountAtMost(samples, MedianOf(sorted))
  {
    MedianMeaning(sorted);
    CountOfPermutation(samples, sorted, MedianOf(sorted));
    CountOfPermutation(samples, sorted, MedianOf(sorted) + 1);
  }

  method Percentile(ghost samples: seq<u64>, sorted: seq<u64>, percent: nat) returns (value: u64)
    requires Sorted(sorted) && multiset(samples) == multiset(sorted) && |samples| == |sorted|
    requires 0 < |sorted| < WORD && 0 < percent <= 100
    ensures CountAtMost(samples, value) >= Rank(|samples|, percent, 100) > CountBelow(samples, value)
  {
    value := NearestRank(sorted, percent, 100);
    RankMeaning(sorted, Rank(|sorted|, percent, 100));
    CountOfPermutation(samples, sorted, value);
    var bound: nat := value;
    CountOfPermutation(samples, sorted, bound + 1);
  }

  lemma Extremes(samples: seq<u64>, sorted: seq<u64>)
    requires Sorted(sorted) && multiset(samples) == multiset(sorted) && sorted != []
    ensures CountBelow(samples, sorted[0]) == 0 && CountAtMost(samples, sorted[|sorted| - 1]) == |samples|
    ensures sorted[0] in samples && sorted[|sorted| - 1] in samples
  {
    var last: nat := sorted[|sorted| - 1];
    CountBounds(sorted, sorted[0]);
    CountBounds(sorted, last + 1);
    CountOfPermutation(samples, sorted, sorted[0]);
    CountOfPermutation(samples, sorted, last + 1);
    assert sorted[0] in multiset(samples) && sorted[|sorted| - 1] in multiset(samples);
  }
}
