/**
 The scoring state against the log of its events: what one source's entry is
 after any run, told from the log alone.
 */
module ScoringLog {
  import opened Wrappers
  import opened Scoring
  import opened Durations
  import Ewma

  ghost predicate IsRun(env: Env, states: seq<Dims>, log: seq<Event>)
    requires env.tickInterval > 0
  {
    && |states| == |log| + 1
    && states[0].Keys == env.cfg.dimensions.Keys
    && (forall dim, key :: Lookup(states[0], dim, key) == None)
    && forall i :: 0 <= i < |log| ==> StepsTo(env, states[i], log[i], states[i + 1])
  }

  /** One entry's history: its value after a log of events, starting from nothing. */
  function Replay(env: Env, dim: string, key: string, log: seq<Event>): Option<Stats>
    requires dim in env.cfg.dimensions && env.tickInterval > 0
  {
    if log == [] then None
    else EntryStep(env, dim, key, Replay(env, dim, key, log[..|log| - 1]), log[|log| - 1])
  }

  /** After any run every entry is the replay of the log, so every state reached is determined entry by entry. */
  lemma {:induction false} StateIsReplay(env: Env, states: seq<Dims>, log: seq<Event>, dim: string, key: string)
    requires env.tickInterval > 0 && IsRun(env, states, log) && dim in env.cfg.dimensions
    ensures Lookup(states[|log|], dim, key) == Replay(env, dim, key, log)
    decreases |log|
  {
    if log != [] {
      var n := |log| - 1;
      StateIsReplay(env, states[..|log|], log[..n], dim, key);
      assert StepsTo(env, states[n], log[n], states[n + 1]);
    }
  }

  // ---------- other sources do not matter ----------

  /** A request of this source, a tick, or a sweep. */
  predicate Concerns(dim: string, key: string, e: Event) {
    e.Track? ==> DimensionKey(dim, e.c) == Some(key)
  }

  function Only(dim: string, key: string, log: seq<Event>): seq<Event> {
    if log == [] then []
    else
      var front := Only(dim, key, log[..|log| - 1]);
      if Concerns(dim, key, log[|log| - 1]) then front + [log[|log| - 1]] else front
  }

  lemma {:induction false} OthersDoNotMatter(env: Env, dim: string, key: string, log: seq<Event>)
    requires dim in env.cfg.dimensions && env.tickInterval > 0
    ensures Replay(env, dim, key, log) == Replay(env, dim, key, Only(dim, key, log))
  {
    if log != [] {
      var front := log[..|log| - 1];
      OthersDoNotMatter(env, dim, key, front);
      var kept := Only(dim, key, front);
      assert (kept + [log[|log| - 1]])[..|kept|] == kept;
    }
  }

  // ---------- the current lifetime ----------

  predicate Own(dim: string, key: string, e: Event) {
    e.Track? && DimensionKey(dim, e.c) == Some(key)
  }

  /** The events since the current entry was created, its creating request first; empty without an entry. */
  function Lifetime(env: Env, dim: string, key: string, log: seq<Event>): seq<Event>
    requires dim in env.cfg.dimensions && env.tickInterval > 0
  {
    if log == [] || Replay(env, dim, key, log).None? then []
    else Lifetime(env, dim, key, log[..|log| - 1]) + [log[|log| - 1]]
  }

  /** Own requests counted per completed tick, and since the last one. */
  datatype Tally = Tally(perTick: seq<nat>, open: nat)

  function TallyOf(dim: string, key: string, events: seq<Event>): Tally {
    if events == [] then Tally([], 0)
    else
      var t := TallyOf(dim, key, events[..|events| - 1]);
      var e := events[|events| - 1];
      if Own(dim, key, e) then t.(open := t.open + 1)
      else if e.Tick? then Tally(t.perTick + [t.open], 0)
      else t
  }

  function OwnRequests(dim: string, key: string, events: seq<Event>): nat {
    if events == [] then 0
    else OwnRequests(dim, key, events[..|events| - 1]) + (if Own(dim, key, events[|events| - 1]) then 1 else 0)
  }

  function Sum(ns: seq<nat>): nat {
    if ns == [] then 0 else Sum(ns[..|ns| - 1]) + ns[|ns| - 1]
  }

  function Rates(env: Env, ns: seq<nat>): seq<real>
    requires env.tickInterval > 0
  {
    seq(|ns|, i requires 0 <= i < |ns| => ns[i] as real / Seconds(env.tickInterval))
  }

  lemma {:induction false} NothingLost(dim: string, key: string, events: seq<Event>)
    ensures var t := TallyOf(dim, key, events);
            Sum(t.perTick) + t.open == OwnRequests(dim, key, events)
  {
    if events != [] {
      var t := TallyOf(dim, key, events[..|events| - 1]);
      NothingLost(dim, key, events[..|events| - 1]);
      assert (t.perTick + [t.open])[..|t.perTick|] == t.perTick;
    }
  }

  lemma RatesSnoc(env: Env, ns: seq<nat>, n: nat)
    requires env.tickInterval > 0
    ensures Rates(env, ns + [n]) == Rates(env, ns) + [n as real / Seconds(env.tickInterval)]
  {
  }

  lemma FoldSnoc(alpha: real, rates: seq<real>, r: real)
    ensures Ewma.Fold(alpha, rates + [r]) == Ewma.Next(alpha, r, Ewma.Fold(alpha, rates))
  {
    assert (rates + [r])[..|rates|] == rates;
  }

  /** The pending count and the average of an entry are those of its own requests since its creation. */
  ghost predicate ToldBy(env: Env, dim: string, key: string, x: Stats, life: seq<Event>)
    requires dim in env.cfg.dimensions && env.tickInterval > 0
  {
    var t := TallyOf(dim, key, life);
    && x.pending == t.open
    && x.ewma == Ewma.Fold(env.cfg.dimensions[dim].alpha, Rates(env, t.perTick))
  }

  lemma ToldByNext(env: Env, dim: string, key: string, x: Stats, life: seq<Event>, e: Event)
    requires dim in env.cfg.dimensions && env.tickInterval > 0
    requires ToldBy(env, dim, key, x, life) && EntryStep(env, dim, key, Some(x), e).Some?
    ensures ToldBy(env, dim, key, EntryStep(env, dim, key, Some(x), e).value, life + [e])
  {
    var t := TallyOf(dim, key, life);
    assert (life + [e])[..|life|] == life;
    RatesSnoc(env, t.perTick, t.open);
    FoldSnoc(env.cfg.dimensions[dim].alpha, Rates(env, t.perTick), t.open as real / Seconds(env.tickInterval));
  }

  lemma ToldByFirst(env: Env, dim: string, key: string, e: Event)
    requires dim in env.cfg.dimensions && env.tickInterval > 0 && Own(dim, key, e)
    ensures ToldBy(env, dim, key, Counted(None, e.now), [e])
  {
    assert [e][..0] == [];
    assert TallyOf(dim, key, [e]) == Tally([], 1);
  }

  lemma {:induction false} EntryToldByLifetime(env: Env, dim: string, key: string, log: seq<Event>)
    requires dim in env.cfg.dimensions && env.tickInterval > 0
    ensures var entry, life := Replay(env, dim, key, log), Lifetime(env, dim, key, log);
            && (entry.None? ==> life == [])
            && (entry.Some? ==> life != [] && Own(dim, key, life[0]) && ToldBy(env, dim, key, entry.value, life))
  {
    if log != [] && Replay(env, dim, key, log).Some? {
      var front, e := log[..|log| - 1], log[|log| - 1];
      EntryToldByLifetime(env, dim, key, front);
      var before := Replay(env, dim, key, front);
      if before.Some? {
        ToldByNext(env, dim, key, before.value, Lifetime(env, dim, key, front), e);
      } else {
        assert Lifetime(env, dim, key, log) == [e];
        ToldByFirst(env, dim, key, e);
      }
    }
  }

  /** After any run: an entry's average is the average over its own per-tick counts since it was
      created, and requests averaged in plus requests pending are all the requests it made since. */
  lemma EntryAfterRun(env: Env, states: seq<Dims>, log: seq<Event>, dim: string, key: string)
    requires env.tickInterval > 0 && IsRun(env, states, log) && dim in env.cfg.dimensions
    requires Lookup(states[|log|], dim, key).Some?
    ensures var x := Lookup(states[|log|], dim, key).value;
            var life := Lifetime(env, dim, key, log);
            var t := TallyOf(dim, key, life);
            && life != [] && Own(dim, key, life[0])
            && x.ewma == Ewma.WeightedSum(env.cfg.dimensions[dim].alpha, Rates(env, t.perTick))
            && Sum(t.perTick) + x.pending == OwnRequests(dim, key, life)
  {
    StateIsReplay(env, states, log, dim, key);
    EntryToldByLifetime(env, dim, key, log);
    var life := Lifetime(env, dim, key, log);
    NothingLost(dim, key, life);
    Ewma.FoldIsWeightedSum(env.cfg.dimensions[dim].alpha, Rates(env, TallyOf(dim, key, life).perTick));
  }

  // ---------- when an entry exists ----------

  /** The index of the source's latest own request, -1 if it made none. */
  function LastOwn(dim: string, key: string, log: seq<Event>): (i: int)
    ensures -1 <= i < |log|
    ensures i >= 0 ==> Own(dim, key, log[i])
    ensures forall j :: i < j < |log| ==> !Own(dim, key, log[j])
  {
    if log == [] then -1
    else if Own(dim, key, log[|log| - 1]) then |log| - 1
    else LastOwn(dim, key, log[..|log| - 1])
  }

  predicate SweptAfter(e: Event, seen: int, idleTTL: int) { e.Gc? && e.now - seen > idleTTL }

  /** The source has made a request and no sweep since its latest one came more than the TTL after it. */
  ghost predicate Alive(env: Env, dim: string, key: string, log: seq<Event>) {
    var i := LastOwn(dim, key, log);
    i >= 0 && forall j :: i < j < |log| ==> !SweptAfter(log[j], log[i].now, env.idleTTL)
  }

  lemma AliveNext(env: Env, dim: string, key: string, front: seq<Event>, e: Event)
    ensures Own(dim, key, e) ==> Alive(env, dim, key, front + [e]) && LastOwn(dim, key, front + [e]) == |front|
    ensures !Own(dim, key, e) ==>
              var i := LastOwn(dim, key, front);
              && LastOwn(dim, key, front + [e]) == i
              && (Alive(env, dim, key, front + [e]) <==>
                  Alive(env, dim, key, front) && !SweptAfter(e, front[i].now, env.idleTTL))
  {
    var log := front + [e];
    assert log[..|log| - 1] == front;
    if !Own(dim, key, e) {
      assert log[|front|] == e;
    }
  }

  lemma {:induction false} ReplayAlive(env: Env, dim: string, key: string, log: seq<Event>)
    requires dim in env.cfg.dimensions && env.tickInterval > 0
    ensures var entry := Replay(env, dim, key, log);
            && (entry.Some? <==> Alive(env, dim, key, log))
            && (entry.Some? ==> entry.value.lastSeen == log[LastOwn(dim, key, log)].now)
  {
    if log != [] {
      hide Alive, LastOwn;
      var front, e := log[..|log| - 1], log[|log| - 1];
      assert log == front + [e];
      ReplayAlive(env, dim, key, front);
      AliveNext(env, dim, key, front, e);
    }
  }

  /** After any run a source has an entry exactly when it has made a request and no sweep since its latest one
      came more than the TTL after it; the entry's last-seen time is that request's. */
  lemma EntryExistsExactly(env: Env, states: seq<Dims>, log: seq<Event>, dim: string, key: string)
    requires env.tickInterval > 0 && IsRun(env, states, log) && dim in env.cfg.dimensions
    ensures var entry, i := Lookup(states[|log|], dim, key), LastOwn(dim, key, log);
            && (entry.Some? <==>
                i >= 0 && forall j :: i < j < |log| ==> !(log[j].Gc? && log[j].now - log[i].now > env.idleTTL))
            && (entry.Some? ==> entry.value.lastSeen == log[i].now)
  {
    StateIsReplay(env, states, log, dim, key);
    ReplayAlive(env, dim, key, log);
    var i := LastOwn(dim, key, log);
    assert Alive(env, dim, key, log) <==> i >= 0 && forall j :: i < j < |log| ==> !SweptAfter(log[j], log[i].now, env.idleTTL);
  }

  /** An event of a run deletes an entry exactly if it is a sweep more than the TTL after the source's latest request. */
  lemma DeletedExactlyWhenIdle(env: Env, states: seq<Dims>, log: seq<Event>, n: nat, dim: string, key: string)
    requires env.tickInterval > 0 && IsRun(env, states, log) && n < |log|
    requires Lookup(states[n], dim, key).Some?
    ensures var i := LastOwn(dim, key, log[..n]);
            && i >= 0
            && (Lookup(states[n + 1], dim, key).None? <==> log[n].Gc? && log[n].now - log[i].now > env.idleTTL)
  {
    RunStep(env, states, log, n, dim, key);
    RunPrefix(env, states, log, n);
    hide IsRun, Lookup;
    EntryExistsExactly(env, states[..n + 1], log[..n], dim, key);
  }

  lemma RunStep(env: Env, states: seq<Dims>, log: seq<Event>, n: nat, dim: string, key: string)
    requires env.tickInterval > 0 && IsRun(env, states, log) && n < |log|
    requires Lookup(states[n], dim, key).Some?
    ensures dim in env.cfg.dimensions
    ensures Lookup(states[n + 1], dim, key) == EntryStep(env, dim, key, Lookup(states[n], dim, key), log[n])
  {
    assert StepsTo(env, states[n], log[n], states[n + 1]);
  }

  lemma RunPrefix(env: Env, states: seq<Dims>, log: seq<Event>, n: nat)
    requires env.tickInterval > 0 && IsRun(env, states, log) && n <= |log|
    ensures IsRun(env, states[..n + 1], log[..n])
  {
  }

  // ---------- thresholds ----------

  /** For the parameters of Ewma.NeverOverExactly, a source whose every completed tick since its entry was created
      stayed at or under a threshold is never above it, whatever else happened. */
  lemma QuietSourceNeverOverThreshold(env: Env, states: seq<Dims>, log: seq<Event>, dim: string, key: string, theta: real)
    requires env.tickInterval > 0 && IsRun(env, states, log) && dim in env.cfg.dimensions
    requires Ewma.QuietParameters(env.cfg.dimensions[dim].alpha, theta)
    requires Lookup(states[|log|], dim, key).Some?
    requires Ewma.Within(Rates(env, TallyOf(dim, key, Lifetime(env, dim, key, log)).perTick), theta)
    ensures Lookup(states[|log|], dim, key).value.ewma <= theta
    ensures 0.0 <= env.cfg.dimensions[dim].alpha ==> 0.0 <= Lookup(states[|log|], dim, key).value.ewma
  {
    StateIsReplay(env, states, log, dim, key);
    EntryToldByLifetime(env, dim, key, log);
    Ewma.QuietFold(env.cfg.dimensions[dim].alpha, Rates(env, TallyOf(dim, key, Lifetime(env, dim, key, log)).perTick), theta);
  }

  /** With enough completed ticks since its creation at a rate above a threshold, a source is over it. */
  lemma BusySourceOverThreshold(env: Env, states: seq<Dims>, log: seq<Event>, dim: string, key: string, rate: real, theta: real)
    requires env.tickInterval > 0 && IsRun(env, states, log) && dim in env.cfg.dimensions
    requires var alpha := env.cfg.dimensions[dim].alpha;
             var rates := Rates(env, TallyOf(dim, key, Lifetime(env, dim, key, log)).perTick);
             && 0.0 <= alpha <= 1.0 && 0.0 <= theta < rate && Ewma.AtLeast(rates, rate)
             && |rates| as real * alpha * (rate - theta) > theta
    ensures Lookup(states[|log|], dim, key).Some? && Lookup(states[|log|], dim, key).value.ewma > theta
  {
    var rates := Rates(env, TallyOf(dim, key, Lifetime(env, dim, key, log)).perTick);
    Ewma.RateAtLeastExceeds(env.cfg.dimensions[dim].alpha, rates, rate, theta);
    hide IsRun, Lookup, Lifetime;
    StateIsReplay(env, states, log, dim, key);
    EntryToldByLifetime(env, dim, key, log);
  }
}
