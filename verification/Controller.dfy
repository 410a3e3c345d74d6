/**
 The capacity controller object. Each method is one critical section; the
 Signal calls it makes afterwards are returned as a count, since they happen
 outside the lock.
 */
module Controller {
  import opened Wrappers
  import opened LimitPolicy
  import opened Histogram
  import opened Durations
  import W = OutcomeWindow
  import S = Semaphore

  datatype Kind = Fixed | Adaptive

  /** The rates and percentile an adjustment reads from the window. */
  function ReadingOf(f: real, samples: seq<W.Sample>): Reading {
    Reading(W.RateOf(W.TimeoutsIn(samples), |samples|),
            W.RateOf(W.ErrorsIn(samples), |samples|),
            W.HistogramPercentile(f, W.Latencies(samples), 0.95))
  }

  /** The two fractions of the window, and the value of the bucket that 95 in 100 of its samples reach. */
  lemma ReadingExactly(f: real, samples: seq<W.Sample>)
    requires samples != [] && W.Bucketed(f, samples)
    ensures var r := ReadingOf(f, samples);
            && W.IsShare(r.timeoutRate, W.TimeoutsIn(samples), |samples|)
            && W.IsShare(r.errorRate, W.ErrorsIn(samples), |samples|)
            && W.IsBucketPercentile(f, samples, 0.95, r.p95)
  {
    hide W.HistogramPercentile, W.IsBucketPercentile, W.RateOf, W.IsShare, W.Bucketed;
    W.HistogramPercentileIs(f, samples, 0.95);
  }

  class Controller {
    const kind: Kind
    const cfg: AdaptiveConfig
    const window: W.Window
    var limit: int
    var inFlight: int
    var clocks: Clocks

    ghost predicate Valid()
      reads this, window, window.ring, window.buckets
    {
      window.Valid()
    }

    ghost function Gate(): S.Gate
      reads this
    {
      S.Gate(limit, inFlight)
    }

    constructor NewFixed(factor: real, limit: int)
      ensures Valid() && fresh(window) && fresh(window.ring) && fresh(window.buckets)
      ensures kind == Fixed && Gate() == S.Gate(limit, 0) && window.Samples() == [] && window.size == 100
    {
      kind := Fixed;
      cfg := AdaptiveConfig(0, 0, 0, 0.0, 0.0);
      window := new W.Window(factor, 100);
      this.limit, inFlight, clocks := limit, 0, Clocks(None, None, None);
    }

    constructor NewAdaptive(factor: real, cfg: AdaptiveConfig, initial: int, windowSize: int)
      ensures Valid() && fresh(window) && fresh(window.ring) && fresh(window.buckets)
      ensures kind == Adaptive && this.cfg == cfg && Gate() == S.Gate(initial, 0) && window.Samples() == []
      ensures clocks == Clocks(None, None, None)
    {
      kind := Adaptive;
      this.cfg := cfg;
      window := new W.Window(factor, windowSize);
      limit, inFlight, clocks := initial, 0, Clocks(None, None, None);
    }

    /** One evaluation of Acquire's wait condition; without capacity the caller sleeps and comes back. */
    method TryAcquire(cost: nat) returns (acquired: bool)
      requires Valid()
      modifies `inFlight
      ensures Valid() && (acquired <==> old(Gate()).Fits(cost))
      ensures Gate() == if acquired then old(Gate()).Take(cost) else old(Gate())
    {
      if inFlight + cost > limit {
        return false;
      }
      inFlight := inFlight + cost;
      return true;
    }

    method Release(cost: nat, latency: int, statusCode: int, timedOut: bool) returns (signals: nat)
      requires Valid()
      modifies `inFlight, window, window.ring, window.buckets
      ensures Valid() && Gate() == old(Gate()).Give(cost) && signals == cost
      ensures var x := W.Sample(latency, BucketFor(window.factor, latency), timedOut, statusCode >= 500);
              window.Samples() == W.Slide(old(window.Samples()), x, window.size)
    {
      inFlight := inFlight - cost;
      window.Record(latency, timedOut, statusCode >= 500);
      signals := cost;
    }

    method ReleaseUnused(cost: nat) returns (signals: nat)
      requires Valid()
      modifies `inFlight
      ensures Valid() && Gate() == old(Gate()).Give(cost) && signals == cost
    {
      inFlight := inFlight - cost;
      signals := cost;
    }

    method MeanLatency() returns (mean: int)
      requires Valid()
      ensures mean == if window.Samples() == [] then 0
                      else W.TruncDiv(W.LatencySum(window.Samples()), |window.Samples()|)
    {
      mean := window.MeanLatency();
    }

    method ReadWindow() returns (r: Reading)
      requires Valid()
      ensures r == ReadingOf(window.factor, window.Samples())
    {
      var timeoutRate := window.TimeoutRate();
      var errorRate := window.ErrorRate();
      var p95 := window.PercentileOf(0.95);
      r := Reading(timeoutRate, errorRate, p95);
    }

    /** The priority chain, the clamp and the store of the new limit. */
    method React(r: Reading, now: int) returns (signals: nat)
      modifies `limit, `clocks
      ensures Tuning(limit, clocks) == Adjust(cfg, old(Tuning(limit, clocks)), r, now)
      ensures FollowsTable(cfg, old(Tuning(limit, clocks)), r, now, Tuning(limit, clocks))
      ensures signals == S.SignalsFor(old(limit), limit)
    {
      hide Shrink, Grow, ClampInt, Elapsed;
      var target := cfg.targetP95;
      var oldLimit, newLimit := limit, limit;
      if r.timeoutRate > cfg.timeoutThreshold && Elapsed(clocks.timeout, now, 60 * SECOND) {
        newLimit := Shrink(oldLimit, TIMEOUT_PCT);
        clocks := clocks.(timeout := Some(now));
      } else if r.errorRate > cfg.errorThreshold && Elapsed(clocks.error, now, 30 * SECOND) {
        newLimit := Shrink(oldLimit, ERROR_PCT);
        clocks := clocks.(error := Some(now));
      } else if target > 0 && r.p95 > 2 * target && Elapsed(clocks.p95, now, 30 * SECOND) {
        newLimit := Shrink(oldLimit, HARD_P95_PCT);
        clocks := clocks.(p95 := Some(now));
      } else if target > 0 && r.p95 > target && Elapsed(clocks.p95, now, 30 * SECOND) {
        newLimit := Shrink(oldLimit, SOFT_P95_PCT);
        clocks := clocks.(p95 := Some(now));
      } else if target > 0 && r.p95 < target / 2 {
        newLimit := Grow(oldLimit, GROW_PCT);
      }
      limit := ClampInt(newLimit, cfg.minConcurrency, cfg.maxConcurrency);
      signals := if limit > oldLimit then limit - oldLimit else 0;
      hide FollowsTable;
      AdjustExactly(cfg, old(Tuning(limit, clocks)), r, now, Tuning(limit, clocks));
    }

    /** One tick of the adjustment loop: nothing on an empty window. */
    method AdjustAt(now: int) returns (signals: nat)
      requires Valid()
      modifies `limit, `clocks
      ensures Valid()
      ensures window.Samples() == [] ==> limit == old(limit) && clocks == old(clocks)
      ensures window.Samples() != [] ==>
                Tuning(limit, clocks) ==
                Adjust(cfg, old(Tuning(limit, clocks)), ReadingOf(window.factor, window.Samples()), now)
      ensures window.Samples() != [] ==>
                FollowsTable(cfg, old(Tuning(limit, clocks)), ReadingOf(window.factor, window.Samples()), now, Tuning(limit, clocks))
      ensures signals == S.SignalsFor(old(limit), limit)
    {
      hide Adjust, FollowsTable;
      if window.total == 0 {
        return 0;
      }
      var r := ReadWindow();
      signals := React(r, now);
    }
  }

  // ---------- dispatch ----------

  /** What the next handler returned: nothing, a handler error with a status, or any other error. */
  datatype NextResult = NoError | HandlerError(statusCode: int) | OtherError

  /** A backend's own 504 response is an error but no timeout; a failure without a status is an error. */
  function ClassifyOutcome(recordedStatus: int, err: NextResult): (r: (int, bool))
    ensures r.1 <==> err == HandlerError(504)
    ensures r.0 >= 500 <==> err == OtherError || err == HandlerError(0)
                            || (if err.HandlerError? then err.statusCode else recordedStatus) >= 500
  {
    match err
    case NoError => (recordedStatus, false)
    case HandlerError(code) => if code != 0 then (code, code == 504) else (500, false)
    case OtherError => (500, false)
  }

  /** The sample one dispatched request leaves in the window. */
  function SampleOf(f: real, recordedStatus: int, err: NextResult, latency: int): (x: W.Sample)
    ensures x.latency == latency && x.bucket == BucketFor(f, latency)
    ensures x.timedOut <==> err == HandlerError(504)
    ensures x.isError <==> match err
                           case NoError => recordedStatus >= 500
                           case HandlerError(code) => code == 0 || code >= 500
                           case OtherError => true
  {
    var (status, timedOut) := ClassifyOutcome(recordedStatus, err);
    W.Sample(latency, BucketFor(f, latency), timedOut, status >= 500)
  }

  /** The handler's dispatch of a granted request, given what next did: one unit
      released, one outcome recorded, on every path on which next returns. */
  method Dispatch(c: Controller, recordedStatus: int, err: NextResult, latency: int) returns (signals: nat)
    requires c.Valid()
    modifies c`inFlight, c.window, c.window.ring, c.window.buckets
    ensures c.Valid() && c.Gate() == old(c.Gate()).Give(1) && signals == 1
    ensures c.window.Samples() ==
            W.Slide(old(c.window.Samples()), SampleOf(c.window.factor, recordedStatus, err, latency), c.window.size)
  {
    var (status, timedOut) := ClassifyOutcome(recordedStatus, err);
    signals := c.Release(1, latency, status, timedOut);
  }

  lemma {:induction false} TimeoutsAmongErrors(w: seq<W.Sample>)
    requires forall i :: 0 <= i < |w| ==> (w[i].timedOut ==> w[i].isError)
    ensures W.TimeoutsIn(w) <= W.ErrorsIn(w)
  {
    if w != [] {
      TimeoutsAmongErrors(w[1..]);
    }
  }

  /** Whatever the handlers returned, the adjustment loop never reads a timeout rate above the error rate. */
  lemma TimeoutRateAtMostErrorRate(f: real, outcomes: seq<(int, NextResult, int)>)
    ensures var samples := seq(|outcomes|, i requires 0 <= i < |outcomes| =>
                                 SampleOf(f, outcomes[i].0, outcomes[i].1, outcomes[i].2));
            ReadingOf(f, samples).timeoutRate <= ReadingOf(f, samples).errorRate
  {
    var samples := seq(|outcomes|, i requires 0 <= i < |outcomes| =>
                         SampleOf(f, outcomes[i].0, outcomes[i].1, outcomes[i].2));
    TimeoutsAmongErrors(samples);
    RateMonotone(W.TimeoutsIn(samples), W.ErrorsIn(samples), |samples|);
  }

  lemma RateMonotone(a: nat, b: nat, total: nat)
    requires a <= b
    ensures W.RateOf(a, total) <= W.RateOf(b, total)
  {
    if total > 0 {
      var x, y := a as real / total as real, b as real / total as real;
      assert x * total as real == a as real && y * total as real == b as real;
    }
  }
}
