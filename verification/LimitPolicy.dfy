/**
 The adaptive controller's adjustment rule: a priority chain of degradation
 signals with three cooldown clocks, integer rounding and a clamp.
 Durations and times are integer nanoseconds; multipliers are exact percentages.
 */
module LimitPolicy {
  import opened Wrappers
  import opened Powers
  import opened Durations
  import opened Counting

  const TIMEOUT_PCT := 60
  const ERROR_PCT := 75
  const HARD_P95_PCT := 70
  const SOFT_P95_PCT := 85
  const GROW_PCT := 105

  /** limit * pct / 100 rounded to the nearest integer, halves away from zero. */
  function RoundPct(limit: int, pct: nat): (r: int)
    ensures limit >= 0 ==> -50 < 100 * r - limit * pct <= 50
    ensures limit < 0 ==> -50 <= 100 * r - limit * pct < 50
  {
    if limit >= 0 then (limit * pct + 50) / 100 else -((-limit * pct + 50) / 100)
  }

  function Shrink(limit: int, pct: nat): (r: int)
    ensures r >= 1
    ensures limit >= 1 && pct <= 100 ==> r <= limit
  {
    var n := RoundPct(limit, pct);
    if n < 1 then 1 else n
  }

  function Grow(limit: int, pct: nat): (r: int)
    ensures r > limit
  {
    var n := RoundPct(limit, pct);
    if n <= limit then limit + 1 else n
  }

  function ClampInt(v: int, min: int, max: int): int {
    if v < min then min else if v > max then max else v
  }

  datatype AdaptiveConfig = AdaptiveConfig(minConcurrency: int, maxConcurrency: int, targetP95: int,
                                           timeoutThreshold: real, errorThreshold: real)

  /** When each cooldown last started; never, for the zero time. */
  datatype Clocks = Clocks(timeout: Option<int>, error: Option<int>, p95: Option<int>)

  datatype Reading = Reading(timeoutRate: real, errorRate: real, p95: int)

  datatype Branch = TimeoutShrink | ErrorShrink | HardP95Shrink | SoftP95Shrink | Growth | Hold

  predicate Elapsed(last: Option<int>, now: int, cooldown: int) {
    last.None? || now - last.value >= cooldown
  }

  /** The first branch whose signal is present and whose cooldown is over. */
  function Choose(cfg: AdaptiveConfig, c: Clocks, r: Reading, now: int): Branch {
    if r.timeoutRate > cfg.timeoutThreshold && Elapsed(c.timeout, now, 60 * SECOND) then TimeoutShrink
    else if r.errorRate > cfg.errorThreshold && Elapsed(c.error, now, 30 * SECOND) then ErrorShrink
    else if cfg.targetP95 > 0 && r.p95 > 2 * cfg.targetP95 && Elapsed(c.p95, now, 30 * SECOND) then HardP95Shrink
    else if cfg.targetP95 > 0 && r.p95 > cfg.targetP95 && Elapsed(c.p95, now, 30 * SECOND) then SoftP95Shrink
    else if cfg.targetP95 > 0 && r.p95 < cfg.targetP95 / 2 then Growth
    else Hold
  }

  function Proposed(b: Branch, limit: int): int {
    match b
    case TimeoutShrink => Shrink(limit, TIMEOUT_PCT)
    case ErrorShrink => Shrink(limit, ERROR_PCT)
    case HardP95Shrink => Shrink(limit, HARD_P95_PCT)
    case SoftP95Shrink => Shrink(limit, SOFT_P95_PCT)
    case Growth => Grow(limit, GROW_PCT)
    case Hold => limit
  }

  function Stamp(b: Branch, c: Clocks, now: int): Clocks {
    match b
    case TimeoutShrink => c.(timeout := Some(now))
    case ErrorShrink => c.(error := Some(now))
    case HardP95Shrink => c.(p95 := Some(now))
    case SoftP95Shrink => c.(p95 := Some(now))
    case _ => c
  }

  datatype Tuning = Tuning(limit: int, clocks: Clocks)

  /** One adjustment on a non-empty window. */
  function Adjust(cfg: AdaptiveConfig, t: Tuning, r: Reading, now: int): Tuning {
    var b := Choose(cfg, t.clocks, r, now);
    Tuning(ClampInt(Proposed(b, t.limit), cfg.minConcurrency, cfg.maxConcurrency), Stamp(b, t.clocks, now))
  }

  // ---------- the rule as a table ----------

  /** n is limit * pct / 100 to the nearest integer, a half going away from zero. */
  ghost predicate Nearest(n: int, limit: int, pct: nat) {
    if limit >= 0 then -50 < 100 * n - limit * pct <= 50 else -50 <= 100 * n - limit * pct < 50
  }

  ghost predicate Clamped(cfg: AdaptiveConfig, v: int, l: int) {
    && (v < cfg.minConcurrency ==> l == cfg.minConcurrency)
    && (cfg.minConcurrency <= v && cfg.maxConcurrency < v ==> l == cfg.maxConcurrency)
    && (cfg.minConcurrency <= v <= cfg.maxConcurrency ==> l == v)
  }

  ghost predicate Shrunk(cfg: AdaptiveConfig, limit: int, pct: nat, l: int) {
    exists n :: Nearest(n, limit, pct) && Clamped(cfg, if n < 1 then 1 else n, l)
  }

  ghost predicate Grown(cfg: AdaptiveConfig, limit: int, pct: nat, l: int) {
    exists n :: Nearest(n, limit, pct) && Clamped(cfg, if n < limit + 1 then limit + 1 else n, l)
  }

  /** Which signals are up and not cooling down. */
  ghost predicate TimeoutDue(cfg: AdaptiveConfig, c: Clocks, r: Reading, now: int) {
    r.timeoutRate > cfg.timeoutThreshold && (c.timeout != None ==> now >= c.timeout.value + 60 * SECOND)
  }

  ghost predicate ErrorDue(cfg: AdaptiveConfig, c: Clocks, r: Reading, now: int) {
    r.errorRate > cfg.errorThreshold && (c.error != None ==> now >= c.error.value + 30 * SECOND)
  }

  ghost predicate LatencyDue(cfg: AdaptiveConfig, c: Clocks, r: Reading, now: int, times: nat) {
    cfg.targetP95 > 0 && r.p95 > times * cfg.targetP95 && (c.p95 != None ==> now >= c.p95.value + 30 * SECOND)
  }

  ghost predicate LatencyLow(cfg: AdaptiveConfig, r: Reading) {
    cfg.targetP95 > 0 && r.p95 < cfg.targetP95 / 2
  }

  /** From the most severe signal down: which multiplier, which clock. */
  ghost predicate FollowsTable(cfg: AdaptiveConfig, t: Tuning, r: Reading, now: int, t': Tuning) {
    var c := t.clocks;
    if TimeoutDue(cfg, c, r, now) then
      Shrunk(cfg, t.limit, 60, t'.limit) && t'.clocks == Clocks(Some(now), c.error, c.p95)
    else if ErrorDue(cfg, c, r, now) then
      Shrunk(cfg, t.limit, 75, t'.limit) && t'.clocks == Clocks(c.timeout, Some(now), c.p95)
    else if LatencyDue(cfg, c, r, now, 2) then
      Shrunk(cfg, t.limit, 70, t'.limit) && t'.clocks == Clocks(c.timeout, c.error, Some(now))
    else if LatencyDue(cfg, c, r, now, 1) then
      Shrunk(cfg, t.limit, 85, t'.limit) && t'.clocks == Clocks(c.timeout, c.error, Some(now))
    else if LatencyLow(cfg, r) then
      Grown(cfg, t.limit, 105, t'.limit) && t'.clocks == c
    else
      Clamped(cfg, t.limit, t'.limit) && t'.clocks == c
  }

  lemma NearestUnique(n: int, m: int, limit: int, pct: nat)
    requires Nearest(n, limit, pct) && Nearest(m, limit, pct)
    ensures n == m
  {
  }

  lemma ShrunkExactly(cfg: AdaptiveConfig, limit: int, pct: nat, l: int)
    ensures Shrunk(cfg, limit, pct, l) <==> l == ClampInt(Shrink(limit, pct), cfg.minConcurrency, cfg.maxConcurrency)
  {
    assert Nearest(RoundPct(limit, pct), limit, pct);
    hide Nearest, RoundPct;
    forall n | Nearest(n, limit, pct) ensures n == RoundPct(limit, pct) {
      NearestUnique(n, RoundPct(limit, pct), limit, pct);
    }
  }

  lemma GrownExactly(cfg: AdaptiveConfig, limit: int, pct: nat, l: int)
    ensures Grown(cfg, limit, pct, l) <==> l == ClampInt(Grow(limit, pct), cfg.minConcurrency, cfg.maxConcurrency)
  {
    assert Nearest(RoundPct(limit, pct), limit, pct);
    hide Nearest, RoundPct;
    forall n | Nearest(n, limit, pct) ensures n == RoundPct(limit, pct) {
      NearestUnique(n, RoundPct(limit, pct), limit, pct);
    }
  }

  /** For every configuration, limit, clock state, reading and time: an adjustment is the one outcome in the table. */
  lemma AdjustExactly(cfg: AdaptiveConfig, t: Tuning, r: Reading, now: int, t': Tuning)
    ensures Adjust(cfg, t, r, now) == t' <==> FollowsTable(cfg, t, r, now, t')
  {
    hide Shrunk, Grown, ClampInt, Shrink, Grow;
    ShrunkExactly(cfg, t.limit, 60, t'.limit);
    ShrunkExactly(cfg, t.limit, 75, t'.limit);
    ShrunkExactly(cfg, t.limit, 70, t'.limit);
    ShrunkExactly(cfg, t.limit, 85, t'.limit);
    GrownExactly(cfg, t.limit, 105, t'.limit);
    ClampedExactly(cfg, t.limit, t'.limit);
  }

  lemma ClampedExactly(cfg: AdaptiveConfig, v: int, l: int)
    ensures Clamped(cfg, v, l) <==> l == ClampInt(v, cfg.minConcurrency, cfg.maxConcurrency)
  {
  }

  // ---------- runs ----------

  datatype Tick = Tick(reading: Reading, now: int)

  function Run(cfg: AdaptiveConfig, t: Tuning, ticks: seq<Tick>): Tuning
    decreases |ticks|
  {
    if ticks == [] then t else Run(cfg, Adjust(cfg, t, ticks[0].reading, ticks[0].now), ticks[1..])
  }

  // ---------- cooldowns ----------

  datatype Timer = TimeoutTimer | ErrorTimer | P95Timer

  function Cooldown(timer: Timer): (length: nat)
    ensures timer == TimeoutTimer ==> length == 60_000_000_000
    ensures timer == ErrorTimer || timer == P95Timer ==> length == 30_000_000_000
  {
    if timer.TimeoutTimer? then 60 * SECOND else 30 * SECOND
  }

  function Clock(c: Clocks, timer: Timer): Option<int> {
    match timer
    case TimeoutTimer => c.timeout
    case ErrorTimer => c.error
    case P95Timer => c.p95
  }

  predicate Fires(b: Branch, timer: Timer) {
    match timer
    case TimeoutTimer => b == TimeoutShrink
    case ErrorTimer => b == ErrorShrink
    case P95Timer => b == HardP95Shrink || b == SoftP95Shrink
  }

  /** The times at which a run takes a branch of this timer. */
  function FiredTimes(cfg: AdaptiveConfig, t: Tuning, ticks: seq<Tick>, timer: Timer): seq<int>
    decreases |ticks|
  {
    if ticks == [] then []
    else
      var k := ticks[0];
      (if Fires(Choose(cfg, t.clocks, k.reading, k.now), timer) then [k.now] else [])
      + FiredTimes(cfg, Adjust(cfg, t, k.reading, k.now), ticks[1..], timer)
  }

  ghost predicate Spaced(ts: seq<int>, gap: int) {
    forall i :: 0 < i < |ts| ==> ts[i] - ts[i - 1] >= gap
  }

  function CountWithin(ts: seq<int>, lo: int, hi: int): nat {
    if ts == [] then 0 else (if lo <= ts[0] <= hi then 1 else 0) + CountWithin(ts[1..], lo, hi)
  }

  ghost function Between(lo: int, hi: int): int -> bool { x => lo <= x && x <= hi }

  lemma {:induction false} CountWithinCounts(ts: seq<int>, lo: int, hi: int)
    ensures CountWithin(ts, lo, hi) == HowMany(ts, Between(lo, hi))
  {
    if ts != [] {
      CountWithinCounts(ts[1..], lo, hi);
    }
  }

  lemma {:induction false} FiredSpaced(cfg: AdaptiveConfig, t: Tuning, ticks: seq<Tick>, timer: Timer)
    ensures var ts := FiredTimes(cfg, t, ticks, timer);
            && Spaced(ts, Cooldown(timer))
            && (ts != [] && Clock(t.clocks, timer).Some? ==> ts[0] - Clock(t.clocks, timer).value >= Cooldown(timer))
    decreases |ticks|
  {
    if ticks != [] {
      var k := ticks[0];
      FiredSpaced(cfg, Adjust(cfg, t, k.reading, k.now), ticks[1..], timer);
    }
  }

  /** The last of those times is what the run leaves on the clock; without any the clock stays. */
  lemma {:induction false} ClockIsLastFired(cfg: AdaptiveConfig, t: Tuning, ticks: seq<Tick>, timer: Timer)
    ensures var ts := FiredTimes(cfg, t, ticks, timer);
            Clock(Run(cfg, t, ticks).clocks, timer) == if ts == [] then Clock(t.clocks, timer) else Some(ts[|ts| - 1])
    decreases |ticks|
  {
    if ticks != [] {
      var k := ticks[0];
      ClockIsLastFired(cfg, Adjust(cfg, t, k.reading, k.now), ticks[1..], timer);
    }
  }

  lemma {:induction false} SpacedCount(ts: seq<int>, gap: nat, base: int, lo: int, hi: int)
    requires gap > 0 && Spaced(ts, gap) && (ts != [] ==> ts[0] >= base)
    ensures var c := CountWithin(ts, lo, hi);
            c == 0 || gap * (c - 1) <= hi - (if base > lo then base else lo)
  {
    if ts != [] {
      var rest := ts[1..];
      SpacedCount(rest, gap, ts[0] + gap, lo, hi);
      var c := CountWithin(rest, lo, hi);
      assert c > 0 ==> gap * (c - 1) + gap == gap * c;
    }
  }

  lemma QuotientAtLeast(a: nat, b: nat, q: nat)
    requires b > 0
    ensures b * q <= a ==> q <= a / b
  {
    var m := a / b;
    assert a < m * b + b;
    if q >= m + 1 {
      MulMono(m + 1, q, b);
    }
  }

  lemma SpacedCountBound(ts: seq<int>, gap: nat, start: int, length: nat)
    requires gap > 0 && Spaced(ts, gap)
    ensures CountWithin(ts, start, start + length) <= length / gap + 1
  {
    SpacedCount(ts, gap, if ts == [] then start else ts[0], start, start + length);
    var c := CountWithin(ts, start, start + length);
    QuotientAtLeast(length, gap, if c > 0 then c - 1 else 0);
  }

  /** In any interval of a given length each cooldown starts at most length / cooldown + 1 times, over any run. */
  lemma CooldownBoundsShrinks(cfg: AdaptiveConfig, t: Tuning, ticks: seq<Tick>, timer: Timer, start: int, length: nat)
    ensures Spaced(FiredTimes(cfg, t, ticks, timer), Cooldown(timer))
    ensures HowMany(FiredTimes(cfg, t, ticks, timer), Between(start, start + length)) <= length / Cooldown(timer) + 1
  {
    CountWithinCounts(FiredTimes(cfg, t, ticks, timer), start, start + length);
    FiredSpaced(cfg, t, ticks, timer);
    SpacedCountBound(FiredTimes(cfg, t, ticks, timer), Cooldown(timer), start, length);
  }

  // ---------- the limit's envelope ----------

  /** The clamp confines every value exactly when min <= max; otherwise its result is one of the two bounds. */
  lemma ClampConfinesExactly(min: int, max: int)
    ensures (forall v :: min <= ClampInt(v, min, max) <= max) <==> min <= max
    ensures min > max ==> forall v :: ClampInt(v, min, max) == if v < min then min else max
  {
    assert min <= ClampInt(min, min, max) <= max ==> min <= max;
  }

  /** One adjustment, from any limit, ends inside [min, max]; from inside it the
      shrink branches never raise the limit and growth raises it short of max. */
  lemma AdjustEnvelope(cfg: AdaptiveConfig, t: Tuning, r: Reading, now: int)
    requires 1 <= cfg.minConcurrency <= cfg.maxConcurrency
    ensures var l := Adjust(cfg, t, r, now).limit;
            && cfg.minConcurrency <= l <= cfg.maxConcurrency
            && (cfg.minConcurrency <= t.limit <= cfg.maxConcurrency ==>
                  match Choose(cfg, t.clocks, r, now)
                  case Growth => if t.limit == cfg.maxConcurrency then l == t.limit else l > t.limit
                  case Hold => l == t.limit
                  case _ => l <= t.limit)
  {
  }

  lemma {:induction false} RunEnvelope(cfg: AdaptiveConfig, t: Tuning, ticks: seq<Tick>)
    requires 1 <= cfg.minConcurrency <= cfg.maxConcurrency && ticks != []
    ensures cfg.minConcurrency <= Run(cfg, t, ticks).limit <= cfg.maxConcurrency
    decreases |ticks|
  {
    var t' := Adjust(cfg, t, ticks[0].reading, ticks[0].now);
    AdjustEnvelope(cfg, t, ticks[0].reading, ticks[0].now);
    if ticks[1..] != [] {
      RunEnvelope(cfg, t', ticks[1..]);
    }
  }

  /** With positive bounds the limit stays positive even when min > max. */
  lemma {:induction false} RunPositive(cfg: AdaptiveConfig, t: Tuning, ticks: seq<Tick>)
    requires cfg.minConcurrency >= 1 && cfg.maxConcurrency >= 1 && t.limit >= 1
    ensures Run(cfg, t, ticks).limit >= 1
    decreases |ticks|
  {
    if ticks != [] {
      RunPositive(cfg, Adjust(cfg, t, ticks[0].reading, ticks[0].now), ticks[1..]);
    }
  }

  /** When one adjustment raises the limit, for any bounds and any positive limit: growth short of max (or still
      short of min) does, and so does every other branch, shrinking included, from below min. */
  lemma RaisesExactly(cfg: AdaptiveConfig, t: Tuning, r: Reading, now: int)
    requires t.limit >= 1
    ensures Adjust(cfg, t, r, now).limit > t.limit <==>
            if Choose(cfg, t.clocks, r, now) == Growth
            then t.limit < cfg.maxConcurrency || Grow(t.limit, GROW_PCT) < cfg.minConcurrency
            else t.limit < cfg.minConcurrency
  {
  }

  /** Every degradation signal present is in its cooldown, or absent, and latency is low: growth is chosen. */
  predicate GrowthGuards(cfg: AdaptiveConfig, c: Clocks, r: Reading, now: int) {
    && (r.timeoutRate > cfg.timeoutThreshold ==> !Elapsed(c.timeout, now, 60 * SECOND))
    && (r.errorRate > cfg.errorThreshold ==> !Elapsed(c.error, now, 30 * SECOND))
    && cfg.targetP95 > 0 && r.p95 < cfg.targetP95 / 2
  }

  /** That the limit does not rise while timeouts are over their threshold fails exactly when growth is let
      through, or the limit lies below min; the second form is for bounds in order. */
  lemma RisesDespiteTimeouts(cfg: AdaptiveConfig, t: Tuning, r: Reading, now: int)
    requires t.limit >= 1 && r.timeoutRate > cfg.timeoutThreshold
    ensures Adjust(cfg, t, r, now).limit > t.limit <==>
            if GrowthGuards(cfg, t.clocks, r, now)
            then t.limit < cfg.maxConcurrency || Grow(t.limit, GROW_PCT) < cfg.minConcurrency
            else t.limit < cfg.minConcurrency
    ensures cfg.minConcurrency <= cfg.maxConcurrency ==>
              (Adjust(cfg, t, r, now).limit > t.limit <==>
               t.limit < cfg.minConcurrency
               || (t.limit < cfg.maxConcurrency && GrowthGuards(cfg, t.clocks, r, now)))
  {
    RaisesExactly(cfg, t, r, now);
    assert Choose(cfg, t.clocks, r, now) == Growth <==> GrowthGuards(cfg, t.clocks, r, now);
  }

  /** Three ways to rise under a full timeout rate: crossed bounds, a start below min, a running cooldown. */
  lemma RisesUnderTimeouts(target: nat, now: int)
    requires target >= 2
    ensures var never, r := Clocks(None, None, None), Reading(1.0, 0.0, 0);
            var crossed := AdaptiveConfig(10, 5, target, 0.1, 0.1);
            var ordered := AdaptiveConfig(5, 10, target, 0.1, 0.1);
            && Choose(crossed, never, r, now) == TimeoutShrink && Adjust(crossed, Tuning(5, never), r, now).limit == 10
            && Choose(ordered, never, r, now) == TimeoutShrink && Adjust(ordered, Tuning(1, never), r, now).limit == 5
            && Adjust(ordered, Tuning(6, Clocks(Some(now), None, None)), r, now).limit == 7
  {
  }

  // ---------- convergence ----------

  predicate AlwaysGrows(cfg: AdaptiveConfig, t: Tuning, ticks: seq<Tick>)
    decreases |ticks|
  {
    ticks == [] || (Choose(cfg, t.clocks, ticks[0].reading, ticks[0].now) == Growth
                    && AlwaysGrows(cfg, Adjust(cfg, t, ticks[0].reading, ticks[0].now), ticks[1..]))
  }

  lemma {:induction false} GrowthReachesMax(cfg: AdaptiveConfig, t: Tuning, ticks: seq<Tick>)
    requires 1 <= cfg.minConcurrency <= t.limit <= cfg.maxConcurrency
    requires AlwaysGrows(cfg, t, ticks) && |ticks| >= cfg.maxConcurrency - t.limit
    ensures Run(cfg, t, ticks).limit == cfg.maxConcurrency
    decreases |ticks|
  {
    if ticks != [] {
      AdjustEnvelope(cfg, t, ticks[0].reading, ticks[0].now);
      GrowthReachesMax(cfg, Adjust(cfg, t, ticks[0].reading, ticks[0].now), ticks[1..]);
    }
  }

  /** Where repeated rounding stops making progress. */
  function StallPoint(pct: nat): nat {
    if pct == SOFT_P95_PCT then 3 else if pct == ERROR_PCT then 2 else 1
  }

  predicate IsShrinkPct(pct: nat) {
    pct == TIMEOUT_PCT || pct == ERROR_PCT || pct == HARD_P95_PCT || pct == SOFT_P95_PCT
  }

  function ShrinkTimes(limit: int, pct: nat, k: nat): int
    decreases k
  {
    if k == 0 then limit else ShrinkTimes(Shrink(limit, pct), pct, k - 1)
  }

  lemma ShrinkStallsExactly(limit: int, pct: nat)
    requires limit >= 1 && IsShrinkPct(pct)
    ensures Shrink(limit, pct) == limit <==> limit <= StallPoint(pct)
    ensures limit > StallPoint(pct) ==> StallPoint(pct) <= Shrink(limit, pct) < limit
  {
  }

  /** Repeated shrinking falls strictly to its stall point and stays there. */
  lemma {:induction false} ShrinkConverges(limit: int, pct: nat, k: nat)
    requires limit >= 1 && IsShrinkPct(pct) && k >= limit - StallPoint(pct)
    ensures ShrinkTimes(limit, pct, k) == if limit <= StallPoint(pct) then limit else StallPoint(pct)
    decreases k
  {
    ShrinkStallsExactly(limit, pct);
    if k > 0 {
      ShrinkConverges(Shrink(limit, pct), pct, k - 1);
    }
  }
}
