/**
 The latency histogram: 256 exponential buckets from 1 ms to 60 s, over exact
 reals. Latencies are integer nanoseconds; bucket i starts at f^i milliseconds.
 */
module Histogram {
  import opened Powers
  import opened Durations

  const BUCKETS := 256

  /** The growth factor that spans 1 ms to 60000 ms in 255 steps. */
  ghost predicate IsFactor(f: real) {
    f > 1.0 && Pow(f, BUCKETS - 1) == 60000.0
  }

  function Ms(d: int): real { d as real / 1000000.0 }

  /** The greatest i <= n with f^i <= x, or 0. */
  function FloorLog(f: real, x: real, n: nat): (i: nat)
    ensures i <= n
    ensures i > 0 ==> Pow(f, i) <= x
    ensures forall j :: i < j <= n ==> Pow(f, j) > x
  {
    if n == 0 || Pow(f, n) <= x then n else FloorLog(f, x, n - 1)
  }

  function BucketFor(f: real, d: int): (i: nat)
    ensures i < BUCKETS
  {
    if Ms(d) <= 1.0 then 0
    else if Ms(d) >= 60000.0 then BUCKETS - 1
    else FloorLog(f, Ms(d), BUCKETS - 1)
  }

  /** The value reported for bucket i, in whole nanoseconds. */
  function BucketUpperBound(f: real, i: nat): (d: int)
    ensures d as real <= Pow(f, i) * 1000000.0 < d as real + 1.0
  {
    (Pow(f, i) * 1000000.0).Floor
  }

  lemma BucketMonotone(f: real, d: int, d': int)
    requires d <= d'
    ensures BucketFor(f, d) <= BucketFor(f, d')
  {
    var i := BucketFor(f, d);
    if 1.0 < Ms(d) && Ms(d') < 60000.0 {
      assert i > 0 ==> Pow(f, i) <= Ms(d');
    }
  }

  /** The first bucket takes everything up to its lower edge as well, the last one everything from 60 s. */
  lemma BucketEnds(f: real, d: int)
    ensures d <= MILLISECOND ==> BucketFor(f, d) == 0
    ensures d >= 60 * SECOND ==> BucketFor(f, d) == BUCKETS - 1 == 255
  {
  }

  /** Bucket i holds exactly the latencies from f^i up to, but not including, f^(i+1) milliseconds. */
  lemma BucketEdges(f: real, d: int)
    requires IsFactor(f) && MILLISECOND <= d < 60000 * MILLISECOND
    ensures var i := BucketFor(f, d);
            i < BUCKETS - 1 && Pow(f, i) <= Ms(d) < Pow(f, i + 1)
  {
    var i := BucketFor(f, d);
    assert Pow(f, 0) == 1.0 && Pow(f, 1) == f;
    assert i > 0 ==> Pow(f, i) <= Ms(d);
  }

  lemma FloorScaled(x: real, d: int)
    requires x <= Ms(d)
    ensures (x * 1000000.0).Floor <= d
  {
    var y := x * 1000000.0;
    assert y <= d as real;
    assert y.Floor as real <= y;
  }

  lemma BelowNextEdge(f: real, p: real, d: int)
    requires f > 1.0 && p > 0.0 && Ms(d) < f * p
    ensures d as real < f * ((p * 1000000.0).Floor as real + 1.0)
  {
    var low := p * 1000000.0;
    var up := low.Floor as real + 1.0;
    MulMonoReal(f, low, up);
    assert f * low == (f * p) * 1000000.0;
    assert d as real == Ms(d) * 1000000.0;
  }

  /** Despite its name the reported value is a lower edge: it is at most the true
      latency exactly from 1 ms on, and below 60 s less than one factor under it. */
  lemma ReportedIsLowerEdge(f: real, d: int)
    requires IsFactor(f)
    ensures var reported := BucketUpperBound(f, BucketFor(f, d));
            && (reported <= d <==> d >= MILLISECOND)
            && (MILLISECOND <= d < 60000 * MILLISECOND ==> d as real < f * (reported as real + 1.0))
  {
    var i := BucketFor(f, d);
    if d < MILLISECOND {
      assert Pow(f, 0) == 1.0;
    } else if d < 60000 * MILLISECOND {
      BucketEdges(f, d);
      FloorScaled(Pow(f, i), d);
      PowPositive(f, i);
      BelowNextEdge(f, Pow(f, i), d);
    } else {
      FloorScaled(60000.0, d);
    }
  }
}
