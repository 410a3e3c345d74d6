/**
 The rolling window of request outcomes: a ring buffer with a histogram and
 running totals kept up to date on insert and eviction.
 */
module OutcomeWindow {
  import opened Histogram
  import opened Durations
  import opened Percentile
  import opened Counting

  datatype Sample = Sample(latency: int, bucket: nat, timedOut: bool, isError: bool)

  function TimeoutsIn(w: seq<Sample>): nat {
    if w == [] then 0 else (if w[0].timedOut then 1 else 0) + TimeoutsIn(w[1..])
  }

  function ErrorsIn(w: seq<Sample>): nat {
    if w == [] then 0 else (if w[0].isError then 1 else 0) + ErrorsIn(w[1..])
  }

  function LatencySum(w: seq<Sample>): int {
    if w == [] then 0 else w[0].latency + LatencySum(w[1..])
  }

  function InBucket(w: seq<Sample>, b: int): nat {
    if w == [] then 0 else (if w[0].bucket == b then 1 else 0) + InBucket(w[1..], b)
  }

  function Latencies(w: seq<Sample>): (ls: seq<int>)
    ensures |ls| == |w|
  {
    if w == [] then [] else [w[0].latency] + Latencies(w[1..])
  }

  lemma {:induction false} TotalsSnoc(w: seq<Sample>, x: Sample)
    ensures TimeoutsIn([]) == ErrorsIn([]) == LatencySum([]) == 0
    ensures TimeoutsIn(w + [x]) == TimeoutsIn(w) + (if x.timedOut then 1 else 0)
    ensures ErrorsIn(w + [x]) == ErrorsIn(w) + (if x.isError then 1 else 0)
    ensures LatencySum(w + [x]) == LatencySum(w) + x.latency
  {
    if w == [] {
      assert [] + [x] == [x];
    } else {
      TotalsSnoc(w[1..], x);
      assert (w + [x])[1..] == w[1..] + [x];
    }
  }

  lemma {:induction false} TotalsByCounting(w: seq<Sample>)
    ensures TimeoutsIn(w) == HowMany(w, (x: Sample) => x.timedOut)
    ensures ErrorsIn(w) == HowMany(w, (x: Sample) => x.isError)
    ensures forall b :: InBucket(w, b) == HowMany(w, InBucketNumber(b))
  {
    if w != [] {
      TotalsByCounting(w[1..]);
    }
  }

  ghost function InBucketNumber(b: int): Sample -> bool { (x: Sample) => x.bucket == b }

  lemma {:induction false} InBucketSnoc(w: seq<Sample>, x: Sample, b: int)
    ensures InBucket(w + [x], b) == InBucket(w, b) + (if x.bucket == b then 1 else 0)
  {
    if w == [] {
      assert [] + [x] == [x];
    } else {
      InBucketSnoc(w[1..], x, b);
      assert (w + [x])[1..] == w[1..] + [x];
    }
  }

  /** Each sample sits in the bucket of its latency. */
  ghost predicate Bucketed(f: real, w: seq<Sample>) {
    forall i :: 0 <= i < |w| ==> w[i].bucket == BucketFor(f, w[i].latency)
  }

  lemma {:induction false} InBucketCounts(f: real, w: seq<Sample>, b: int)
    requires Bucketed(f, w)
    ensures InBucket(w, b) == CountIn(f, Latencies(w), b)
  {
    if w != [] {
      InBucketCounts(f, w[1..], b);
    }
  }

  /** One more sample in a window of the given size, the oldest leaving a full one. */
  function Slide<T>(w: seq<T>, x: T, size: nat): seq<T>
    requires size > 0
  {
    (if |w| == size then w[1..] else w) + [x]
  }

  lemma SlideBucketed(f: real, w: seq<Sample>, x: Sample, size: nat)
    requires size > 0 && Bucketed(f, w) && x.bucket == BucketFor(f, x.latency)
    ensures Bucketed(f, Slide(w, x, size))
  {
  }

  function SlideAll<T>(w: seq<T>, xs: seq<T>, size: nat): seq<T>
    requires size > 0
    decreases |xs|
  {
    if xs == [] then w else SlideAll(Slide(w, xs[0], size), xs[1..], size)
  }

  function LastOf<T>(xs: seq<T>, n: nat): (r: seq<T>)
    ensures |r| == if |xs| < n then |xs| else n
    ensures r == xs[|xs| - |r|..]
  {
    if |xs| <= n then xs else xs[|xs| - n..]
  }

  /** After any run of recordings the window holds exactly the most recent samples, oldest first. */
  lemma {:induction false} WindowIsLastSamples<T>(before: seq<T>, xs: seq<T>, size: nat)
    requires size > 0
    ensures SlideAll(LastOf(before, size), xs, size) == LastOf(before + xs, size)
    decreases |xs|
  {
    if xs == [] {
      assert before + xs == before;
    } else {
      assert Slide(LastOf(before, size), xs[0], size) == LastOf(before + [xs[0]], size);
      WindowIsLastSamples(before + [xs[0]], xs[1..], size);
      assert before + [xs[0]] + xs[1..] == before + xs;
    }
  }

  /** Go's integer division. */
  function TruncDiv(a: int, b: nat): (q: int)
    requires b > 0
    ensures if a >= 0 then 0 <= a - q * b < b else 0 <= q * b - a < b
  {
    if a >= 0 then a / b else -((-a) / b)
  }

  lemma WrapNext(pos: nat, size: nat)
    requires pos < size
    ensures (pos + 1) % size == if pos + 1 == size then 0 else pos + 1
  {
  }

  class Window {
    const factor: real  // histFactor, a package constant of the program
    const size: nat
    const ring: array<Sample>
    const buckets: array<int>
    var pos: nat
    var filled: nat
    var total: int
    var timeouts: int
    var errors: int
    var sumLatency: int

    ghost predicate Shape()
      reads this
    {
      && 0 < size == ring.Length && buckets.Length == BUCKETS
      && filled <= size && pos < size && (filled < size ==> pos == filled)
    }

    /** The samples now in the window, oldest first. */
    ghost function Samples(): (w: seq<Sample>)
      requires Shape()
      reads this, ring
      ensures |w| == filled
    {
      if filled < size then ring[..filled] else ring[pos..] + ring[..pos]
    }

    /** The running totals and the histogram are those of w. */
    ghost predicate Tallied(w: seq<Sample>)
      requires buckets.Length == BUCKETS
      reads `total, `timeouts, `errors, `sumLatency, buckets
    {
      && total == |w|
      && timeouts == TimeoutsIn(w) && errors == ErrorsIn(w) && sumLatency == LatencySum(w)
      && forall b :: 0 <= b < BUCKETS ==> buckets[b] == InBucket(w, b)
    }

    ghost predicate Valid()
      reads this, ring, buckets
    {
      Shape() && Bucketed(factor, Samples()) && Tallied(Samples())
    }

    constructor (factor: real, size: int)
      ensures Valid() && fresh(ring) && fresh(buckets) && Samples() == []
      ensures this.factor == factor && this.size == if size <= 0 then 100 else size
    {
      this.factor := factor;
      var n: nat := if size <= 0 then 100 else size;
      this.size := n;
      ring := new Sample[n](_ => Sample(0, 0, false, false));
      buckets := new int[BUCKETS](_ => 0);
      pos, filled, total, timeouts, errors, sumLatency := 0, 0, 0, 0, 0, 0;
    }

    /** Take the oldest sample's contribution back out. */
    method Untally(x: Sample, ghost w: seq<Sample>)
      requires buckets.Length == BUCKETS && x.bucket < BUCKETS
      requires w != [] && w[0] == x && Tallied(w)
      modifies buckets, `total, `timeouts, `errors, `sumLatency
      ensures Tallied(w[1..])
    {
      buckets[x.bucket] := buckets[x.bucket] - 1;
      total := total - 1;
      sumLatency := sumLatency - x.latency;
      if x.timedOut {
        timeouts := timeouts - 1;
      }
      if x.isError {
        errors := errors - 1;
      }
    }

    /** Put a new sample's contribution in. */
    method Tally(x: Sample, ghost w: seq<Sample>)
      requires buckets.Length == BUCKETS && x.bucket < BUCKETS && Tallied(w)
      modifies buckets, `total, `timeouts, `errors, `sumLatency
      ensures Tallied(w + [x])
    {
      buckets[x.bucket] := buckets[x.bucket] + 1;
      total := total + 1;
      sumLatency := sumLatency + x.latency;
      if x.timedOut {
        timeouts := timeouts + 1;
      }
      if x.isError {
        errors := errors + 1;
      }
      TotalsSnoc(w, x);
      forall b | 0 <= b < BUCKETS ensures buckets[b] == InBucket(w + [x], b) {
        InBucketSnoc(w, x, b);
      }
    }

    /** Write a sample over the oldest slot (or the next free one) and advance. */
    method Store(x: Sample)
      requires Shape()
      modifies ring, `pos, `filled
      ensures Shape() && Samples() == Slide(old(Samples()), x, size)
    {
      ghost var was := Samples();
      if filled != size {
        filled := filled + 1;
      }
      ring[pos] := x;
      WrapNext(pos, size);
      pos := (pos + 1) % size;
      assert Samples() == (if |was| == size then was[1..] else was) + [x];
    }

    method Record(latency: int, timedOut: bool, isError: bool)
      requires Valid()
      modifies this, ring, buckets
      ensures Valid()
      ensures Samples() == Slide(old(Samples()), Sample(latency, BucketFor(factor, latency), timedOut, isError), size)
    {
      ghost var was := Samples();
      var x := Sample(latency, BucketFor(factor, latency), timedOut, isError);
      SlideBucketed(factor, was, x, size);
      assert filled == size ==> ring[pos] == was[0] && ring[pos].bucket < BUCKETS;
      hide Tallied, Bucketed, BucketFor;
      if filled == size {
        Untally(ring[pos], was);
      }
      Tally(x, if |was| == size then was[1..] else was);
      Store(x);
    }

    /** The mean of the samples in the window, 0 if there are none. */
    method MeanLatency() returns (mean: int)
      requires Valid()
      ensures mean == if Samples() == [] then 0 else TruncDiv(LatencySum(Samples()), |Samples()|)
    {
      if total == 0 {
        return 0;
      }
      return TruncDiv(sumLatency, total);
    }

    method TimeoutRate() returns (rate: real)
      requires Valid()
      ensures rate == RateOf(TimeoutsIn(Samples()), |Samples()|)
    {
      return if total == 0 then 0.0 else timeouts as real / total as real;
    }

    method ErrorRate() returns (rate: real)
      requires Valid()
      ensures rate == RateOf(ErrorsIn(Samples()), |Samples()|)
    {
      return if total == 0 then 0.0 else errors as real / total as real;
    }

    /** For 0 < p <= 1 the value reported is that of the bucket holding the nearest-rank percentile. */
    method PercentileOf(p: real) returns (d: int)
      requires Valid()
      ensures d == HistogramPercentile(factor, Latencies(Samples()), p)
      ensures Reports(factor, Samples(), p, d)
    {
      HistogramReports(factor, Samples(), p);
      hide RankFor, BucketUpperBound, BucketFor, ReportedAtRank, SortAsc, Reports;
      if total == 0 {
        return 0;
      }
      ghost var ls := Latencies(Samples());
      var target := RankFor(p, total);
      var cum := 0;
      CountUpToEnds(factor, ls);
      for i := 0 to BUCKETS
        invariant cum == CountUpTo(factor, ls, i - 1)
        invariant i > 0 ==> cum < target
      {
        InBucketCounts(factor, Samples(), i);
        CountUpToNext(factor, ls, i);
        cum := cum + buckets[i];
        if cum >= target {
          FirstBucketReported(factor, ls, target, i);
          return BucketUpperBound(factor, i);
        }
      }
      LastBucketReported(factor, ls, target);
      return BucketUpperBound(factor, BUCKETS - 1);
    }
  }

  /** r is the share that count has in total. */
  ghost predicate IsShare(r: real, count: nat, total: nat) {
    r * total as real == count as real
  }

  function RateOf(count: nat, total: nat): (r: real)
    ensures total > 0 ==> IsShare(r, count, total)
    ensures total == 0 ==> r == 0.0
  {
    if total == 0 then 0.0 else count as real / total as real
  }

  /** What PercentileOf reports, in terms of the sorted latencies. */
  function HistogramPercentile(f: real, latencies: seq<int>, p: real): int {
    if latencies == [] then 0 else ReportedAtRank(f, latencies, RankFor(p, |latencies|))
  }

  function ReportedAtRank(f: real, latencies: seq<int>, rank: int): int
    requires latencies != []
  {
    if rank < 1 then BucketUpperBound(f, 0)
    else if rank > |latencies| then BucketUpperBound(f, BUCKETS - 1)
    else BucketUpperBound(f, BucketFor(f, SortAsc(latencies)[rank - 1]))
  }

  lemma FirstBucketReported(f: real, latencies: seq<int>, rank: int, b: nat)
    requires latencies != []
    requires CountUpTo(f, latencies, b) >= rank && (b > 0 ==> CountUpTo(f, latencies, b - 1) < rank)
    ensures ReportedAtRank(f, latencies, rank) == BucketUpperBound(f, b)
  {
    hide BucketUpperBound, BucketFor;
    CountUpToMost(f, latencies, b);
    CountUpToEnds(f, latencies);
    if rank >= 1 {
      FirstBucketReaching(f, latencies, rank, b);
    }
  }

  lemma LastBucketReported(f: real, latencies: seq<int>, rank: int)
    requires latencies != [] && rank > |latencies|
    ensures ReportedAtRank(f, latencies, rank) == BucketUpperBound(f, BUCKETS - 1)
  {
  }

  // ---------- the reported percentile by counting ----------

  ghost function UpToBucket(b: int): Sample -> bool { (x: Sample) => x.bucket <= b }

  /** The value of a bucket up to which at least the p-fraction of the samples lie, and below which fewer do. */
  ghost predicate IsBucketPercentile(f: real, w: seq<Sample>, p: real, d: int) {
    exists b: nat :: b < BUCKETS && d == BucketUpperBound(f, b) && BucketHoldsRank(w, p, b)
  }

  ghost predicate BucketHoldsRank(w: seq<Sample>, p: real, b: int) {
    Reached(p, |w|, HowMany(w, UpToBucket(b)), HowMany(w, UpToBucket(b - 1)))
  }

  /** 0 without samples, else for 0 < p <= 1 the value of that bucket. */
  ghost predicate Reports(f: real, w: seq<Sample>, p: real, d: int) {
    && (w == [] ==> d == 0)
    && (w != [] && 0.0 < p <= 1.0 ==> IsBucketPercentile(f, w, p, d))
  }

  lemma HistogramReports(f: real, w: seq<Sample>, p: real)
    requires Bucketed(f, w)
    ensures Reports(f, w, p, HistogramPercentile(f, Latencies(w), p))
  {
    hide RankFor, BucketUpperBound, BucketFor, Bucketed, SortAsc, ReportedAtRank;
    if w != [] && 0.0 < p <= 1.0 {
      HistogramPercentileIs(f, w, p);
    }
  }

  lemma {:induction false} UpToBucketCounts(f: real, w: seq<Sample>, b: int)
    requires Bucketed(f, w)
    ensures HowMany(w, UpToBucket(b)) == CountUpTo(f, Latencies(w), b)
  {
    if w != [] {
      UpToBucketCounts(f, w[1..], b);
    }
  }

  lemma HistogramPercentileIs(f: real, w: seq<Sample>, p: real)
    requires w != [] && Bucketed(f, w) && 0.0 < p <= 1.0
    ensures IsBucketPercentile(f, w, p, HistogramPercentile(f, Latencies(w), p))
  {
    hide RankFor, BucketUpperBound, BucketFor, Bucketed, Reached, HowMany, CountUpTo, SortAsc;
    var ls := Latencies(w);
    var rank, sorted := RankFor(p, |ls|), SortAsc(ls);
    RankInRange(p, |ls|);
    var b: int := BucketFor(f, sorted[rank - 1]);
    SortAscending(ls);
    RankByCount(f, sorted, rank, b);
    RankByCount(f, sorted, rank, b - 1);
    CountUpToSorted(f, ls, b);
    CountUpToSorted(f, ls, b - 1);
    UpToBucketCounts(f, w, b);
    UpToBucketCounts(f, w, b - 1);
    RankReaches(p, |w|, HowMany(w, UpToBucket(b)), HowMany(w, UpToBucket(b - 1)));
    assert BucketHoldsRank(w, p, b);
  }

  lemma NearestRankAt(sorted: seq<int>, p: real)
    requires 1 <= RankFor(p, |sorted|) <= |sorted|
    ensures NearestRank(sorted, 100.0 * p) == sorted[RankFor(p, |sorted|) - 1]
  {
    hide RankFor;
    assert 100.0 * p / 100.0 == p;
  }

  /** The adjustment loop's percentile is the load-test harness's nearest-rank
      percentile seen through the histogram: the lower edge of its bucket. */
  lemma HistogramAgreesWithNearestRank(f: real, latencies: seq<int>, p: real)
    requires IsFactor(f) && latencies != [] && 0.0 < p <= 1.0
    ensures var exact := NearestRank(SortAsc(latencies), 100.0 * p);
            var reported := HistogramPercentile(f, latencies, p);
            && exact in latencies && reported == BucketUpperBound(f, BucketFor(f, exact))
            && (reported <= exact <==> exact >= MILLISECOND)
            && (MILLISECOND <= exact < 60000 * MILLISECOND ==> exact as real < f * (reported as real + 1.0))
  {
    hide RankFor, NearestRank, BucketUpperBound, BucketFor;
    RankInRange(p, |latencies|);
    NearestRankAt(SortAsc(latencies), p);
    var exact := NearestRank(SortAsc(latencies), 100.0 * p);
    assert exact in multiset(SortAsc(latencies));
    ReportedIsLowerEdge(f, exact);
  }
}
