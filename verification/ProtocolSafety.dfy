/**
 What every reachable state of the admission protocol satisfies, and what holds
 over stretches of a run.
 */
module ProtocolSafety {
  import opened TicketOrder
  import opened QueueSpec
  import opened AdmissionProtocol
  import S = Semaphore
  import L = LimitPolicy

  lemma ReachableInv(cfg: QueueConfig, limit: int, evs: seq<Event>)
    requires limit >= 1 && Legal(Init(cfg, limit), evs)
    ensures Inv(Exec(Init(cfg, limit), evs)) && Exec(Init(cfg, limit), evs).cfg == cfg
  {
    InitInv(cfg, limit);
    InvRun(Init(cfg, limit), evs);
  }

  /** Capacity in use is what granted, unreleased requests hold, plus what panicked ones never give back, plus the
      dispatcher's own unit. */
  lemma UnitConservation(cfg: QueueConfig, limit: int, evs: seq<Event>)
    requires limit >= 1 && Legal(Init(cfg, limit), evs)
    ensures var s := Exec(Init(cfg, limit), evs);
            && s.gate.inFlight == |s.running| + s.lost + Units(s.pc) && Units(s.pc) <= 1
            && s.running <= (set t | t in s.granted)
  {
    ReachableInv(cfg, limit, evs);
  }

  lemma QueueNeverExceedsMaxSize(cfg: QueueConfig, limit: int, evs: seq<Event>)
    requires limit >= 1 && Legal(Init(cfg, limit), evs) && cfg.maxSize > 0
    ensures |Exec(Init(cfg, limit), evs).q.queue| <= cfg.maxSize
  {
    ReachableInv(cfg, limit, evs);
  }

  // ---------- the limit bounds what runs ----------

  predicate LimitsAtMost(evs: seq<Event>, peak: int) {
    forall i :: 0 <= i < |evs| && evs[i].SetLimit? ==> evs[i].limit <= peak
  }

  lemma {:induction false} InFlightUnderPeak(s: Sys, evs: seq<Event>, peak: int)
    requires Legal(s, evs) && LimitsAtMost(evs, peak)
    requires s.gate.inFlight <= peak && s.gate.limit <= peak
    ensures Exec(s, evs).gate.inFlight <= peak && Exec(s, evs).gate.limit <= peak
    decreases |evs|
  {
    if evs != [] {
      forall i | 0 <= i < |evs[1..]| && evs[1..][i].SetLimit? ensures evs[1..][i].limit <= peak {
        assert evs[i + 1].SetLimit?;
      }
      InFlightUnderPeak(Apply(s, evs[0]), evs[1..], peak);
    }
  }

  /** Never more requests running, or lost, than the largest limit there has been; a limit that never moves is never
      exceeded. */
  lemma RunningUnderPeakLimit(cfg: QueueConfig, initial: int, max: int, evs: seq<Event>)
    requires initial >= 1 && Legal(Init(cfg, initial), evs) && LimitsAtMost(evs, max)
    ensures |Exec(Init(cfg, initial), evs).running| + Exec(Init(cfg, initial), evs).lost <= if max > initial then max else initial
  {
    ReachableInv(cfg, initial, evs);
    InFlightUnderPeak(Init(cfg, initial), evs, if max > initial then max else initial);
  }

  /** Every change of the limit is an adjustment, whatever was read at whatever time. */
  ghost predicate Adjusted(acfg: L.AdaptiveConfig, evs: seq<Event>) {
    forall i :: 0 <= i < |evs| && evs[i].SetLimit? ==> IsAdjustment(acfg, evs[i].limit)
  }

  ghost predicate IsAdjustment(acfg: L.AdaptiveConfig, limit: int) {
    exists t, r, now :: L.Adjust(acfg, t, r, now).limit == limit
  }

  function Larger(a: int, b: int): int { if a > b then a else b }

  /** An adaptive controller never runs more requests than the larger of its bounds, or than it started with; with
      the bounds in order that is max. */
  lemma RunningUnderAdaptiveMax(cfg: QueueConfig, acfg: L.AdaptiveConfig, initial: int, evs: seq<Event>)
    requires initial >= 1 && Legal(Init(cfg, initial), evs) && Adjusted(acfg, evs)
    ensures var peak := Larger(acfg.minConcurrency, acfg.maxConcurrency);
            |Exec(Init(cfg, initial), evs).running| + Exec(Init(cfg, initial), evs).lost <= Larger(initial, peak)
    ensures acfg.minConcurrency <= acfg.maxConcurrency ==>
              |Exec(Init(cfg, initial), evs).running| + Exec(Init(cfg, initial), evs).lost <= Larger(initial, acfg.maxConcurrency)
  {
    var peak := Larger(acfg.minConcurrency, acfg.maxConcurrency);
    forall i | 0 <= i < |evs| && evs[i].SetLimit? ensures evs[i].limit <= peak {
      assert IsAdjustment(acfg, evs[i].limit);
      var t, r, now :| L.Adjust(acfg, t, r, now).limit == evs[i].limit;
      assert L.Adjust(acfg, t, r, now).limit <= peak;
    }
    RunningUnderPeakLimit(cfg, initial, peak, evs);
  }

  // ---------- where a request is ----------

  /** Every accepted request is in exactly one place: queued, popped and about to be granted, or granted once;
      nothing else is granted, and only granted requests run. */
  lemma AcceptedInOnePlace(cfg: QueueConfig, limit: int, evs: seq<Event>, t: Key)
    requires limit >= 1 && Legal(Init(cfg, limit), evs)
    ensures var s := Exec(Init(cfg, limit), evs);
            && multiset(s.q.queue)[t] + One(s.pc == Granting(t)) + multiset(s.granted)[t] == One(t in s.accepted)
            && (t in s.running ==> t in s.granted)
  {
    ReachableInv(cfg, limit, evs);
    var s := Exec(Init(cfg, limit), evs);
    AcceptedOnce(s, t);
    assert t in s.accepted <==> t in multiset(s.accepted);
    assert Count(s.accepted, t) == Count(s.q.queue, t) + One(s.pc == Granting(t)) + Count(s.granted, t);
  }

  // ---------- work conservation ----------

  /** Steps the system takes by itself, without a new request, a returning handler or an adjustment. */
  predicate Internal(e: Event) {
    e.TryAcquire? || e.Signal? || e.TryPop? || e.Grant? || e.Leave?
  }

  ghost predicate Idle(s: Sys) {
    forall e :: Internal(e) ==> !Enabled(s, e)
  }

  lemma IdleMeans(s: Sys)
    requires Inv(s) && Idle(s)
    ensures s.owed == 0
    ensures s.pc.ParkedForCapacity? || s.pc.ParkedForTicket? || s.pc.Left?
    ensures s.pc.ParkedForCapacity? ==> |s.running| + s.lost >= s.gate.limit
    ensures s.pc.ParkedForTicket? ==> s.q.queue == []
  {
    assert !Enabled(s, TryAcquire) && !Enabled(s, Signal) && !Enabled(s, TryPop) && !Enabled(s, Grant) && !Enabled(s, Leave);
    if s.pc.ParkedForCapacity? {
      assert DISPATCHER in View(s).parked;
      assert S.Covered(View(s), 1) == 1;
    }
  }

  /** While the dispatch loop is alive, requests wait only when the limit is used up, by running requests or by the
      units of panicked ones. */
  lemma WorkConservation(cfg: QueueConfig, limit: int, evs: seq<Event>)
    requires limit >= 1 && Legal(Init(cfg, limit), evs)
    ensures var s := Exec(Init(cfg, limit), evs);
            Idle(s) && s.q.queue != [] && !s.pc.Left? ==> |s.running| + s.lost >= s.gate.limit
  {
    ReachableInv(cfg, limit, evs);
    var s := Exec(Init(cfg, limit), evs);
    if Idle(s) {
      IdleMeans(s);
    }
  }

  lemma ExecCons(s: Sys, e: Event, rest: seq<Event>)
    requires Enabled(s, e) && Legal(Apply(s, e), rest)
    ensures Legal(s, [e] + rest) && Exec(s, [e] + rest) == Exec(Apply(s, e), rest)
  {
    assert ([e] + rest)[1..] == rest;
  }

  lemma ExecOne(s: Sys, e: Event)
    requires Enabled(s, e)
    ensures Legal(s, [e]) && Exec(s, [e]) == Apply(s, e)
  {
    ExecCons(s, e, []);
    assert [e] + [] == [e];
  }

  /** The loop's exit is the one exception: Enqueue does not look at the stop flag. */
  lemma QueuedAfterExitIsStranded(limit: int) returns (evs: seq<Event>)
    requires limit >= 1
    ensures Legal(Init(QueueConfig(0, 0), limit), evs)
    ensures var s := Exec(Init(QueueConfig(0, 0), limit), evs);
            Idle(s) && s.pc.Left? && s.q.queue != [] && |s.running| < s.gate.limit
  {
    var s0 := Init(QueueConfig(0, 0), limit);
    var e := Enqueue(0.0, limit, 0);
    var s1 := Apply(s0, TryAcquire);
    var s2 := Apply(s1, Stop);
    var s3 := Apply(s2, TryPop);
    var s4 := Apply(s3, Leave);
    var s5 := Apply(s4, Signal);
    var s6 := Apply(s5, e);
    ExecCons(s5, e, []);
    ExecCons(s4, Signal, [e] + []);
    ExecCons(s3, Leave, [Signal] + ([e] + []));
    ExecCons(s2, TryPop, [Leave] + ([Signal] + ([e] + [])));
    ExecCons(s1, Stop, [TryPop] + ([Leave] + ([Signal] + ([e] + []))));
    ExecCons(s0, TryAcquire, [Stop] + ([TryPop] + ([Leave] + ([Signal] + ([e] + [])))));
    evs := [TryAcquire] + ([Stop] + ([TryPop] + ([Leave] + ([Signal] + ([e] + [])))));
    assert Exec(s6, []) == s6;
    assert Insert([], Key(0.0, 1)) == [Key(0.0, 1)];
  }

  // ---------- the held unit against a shrinking limit ----------

  /** Every state a step of this stretch starts from has the limit used up. */
  predicate Saturated(s: Sys, evs: seq<Event>)
    requires Legal(s, evs)
    decreases |evs|
  {
    evs != [] ==> s.gate.inFlight >= s.gate.limit && Saturated(Apply(s, evs[0]), evs[1..])
  }

  function Grants(evs: seq<Event>): nat
    decreases |evs|
  {
    if evs == [] then 0 else (if evs[0].Grant? then 1 else 0) + Grants(evs[1..])
  }

  /** While the limit is used up, at most one ticket is granted, and only if the
      dispatcher came in holding a unit; capacity in use never rises. */
  lemma {:induction false} OvershootAtMostHeldUnit(s: Sys, evs: seq<Event>)
    requires Legal(s, evs) && Saturated(s, evs)
    ensures Grants(evs) + Units(Exec(s, evs).pc) <= Units(s.pc)
    ensures Exec(s, evs).gate.inFlight <= s.gate.inFlight
    decreases |evs|
  {
    if evs != [] {
      OvershootAtMostHeldUnit(Apply(s, evs[0]), evs[1..]);
    }
  }

  /** The dispatch loop has seen the queue empty after Stop. */
  predicate Over(pc: Pc) { pc.Leaving? || pc.Left? }

  lemma {:induction false} NothingGrantedOnceOver(s: Sys, evs: seq<Event>)
    requires Over(s.pc) && Legal(s, evs)
    ensures Exec(s, evs).granted == s.granted && Grants(evs) == 0
    decreases |evs|
  {
    if evs != [] {
      NothingGrantedOnceOver(Apply(s, evs[0]), evs[1..]);
    }
  }

  lemma Runs(s: Sys)
    requires Inv(s) && s.pc.Granting?
    ensures |Apply(s, Grant).running| == |s.running| + 1
  {
    PoppedNotRunning(s);
    NewRunner(s);
  }

  lemma {:induction false} ExecAppend(s: Sys, first: seq<Event>, rest: seq<Event>)
    requires Legal(s, first) && Legal(Exec(s, first), rest)
    ensures Legal(s, first + rest) && Exec(s, first + rest) == Exec(Exec(s, first), rest)
    decreases |first|
  {
    if first == [] {
      assert first + rest == rest;
    } else {
      ExecAppend(Apply(s, first[0]), first[1..], rest);
      assert (first + rest)[1..] == first[1..] + rest;
    }
  }

  /** One step that leaves the gate alone, before a stretch of such steps. */
  lemma PrependFree(s: Sys, e: Event, rest: seq<Event>)
    requires Enabled(s, e) && Apply(s, e).gate == s.gate && !e.Grant?
    requires Legal(Apply(s, e), rest)
    requires s.gate.inFlight >= s.gate.limit ==> Saturated(Apply(s, e), rest)
    ensures Legal(s, [e] + rest) && Exec(s, [e] + rest) == Exec(Apply(s, e), rest)
    ensures Grants([e] + rest) == Grants(rest)
    ensures s.gate.inFlight >= s.gate.limit ==> Saturated(s, [e] + rest)
  {
    ExecCons(s, e, rest);
    assert ([e] + rest)[1..] == rest;
  }

  /** A stretch that ends in one grant, in which the gate does not change. */
  ghost predicate OneMoreRuns(s: Sys, evs: seq<Event>) {
    && Legal(s, evs) && Grants(evs) == 1 && evs != [] && evs[|evs| - 1] == Grant
    && Exec(s, evs).gate == s.gate && |Exec(s, evs).running| == |s.running| + 1
    && (s.gate.inFlight >= s.gate.limit ==> Saturated(s, evs))
  }

  lemma GrantNext(s: Sys) returns (evs: seq<Event>)
    requires Inv(s) && s.pc.Granting?
    ensures OneMoreRuns(s, evs)
  {
    Runs(s);
    ExecOne(s, Grant);
    evs := [Grant];
    assert Grants([]) == 0 && evs[1..] == [];
  }

  lemma PopNext(s: Sys) returns (evs: seq<Event>)
    requires Inv(s) && (s.pc.AtPop? || s.pc.WokenForTicket?) && s.q.queue != []
    ensures OneMoreRuns(s, evs)
  {
    hide Inv, Legal, Exec, Saturated, Grants;
    InvStep(s, TryPop);
    var rest := GrantNext(Apply(s, TryPop));
    PrependFree(s, TryPop, rest);
    evs := [TryPop] + rest;
  }

  /** An empty queue accepts whoever comes, and wakes the dispatcher if it sleeps. */
  lemma ArrivalNext(s: Sys) returns (evs: seq<Event>)
    requires Inv(s) && Units(s.pc) == 1 && !s.pc.Leaving? && !s.pc.Granting? && s.q.queue == []
    ensures OneMoreRuns(s, evs)
  {
    hide Inv, Legal, Exec, Saturated, Grants;
    var e := Enqueue(0.0, 0, 0);
    AdmissionDownwardClosed(s.cfg, 0, 0, 0, 0);
    InvStep(s, e);
    var rest := PopNext(Apply(s, e));
    PrependFree(s, e, rest);
    evs := [e] + rest;
  }

  lemma HeldUnitGrants(s: Sys) returns (evs: seq<Event>)
    requires Inv(s) && Units(s.pc) == 1 && !s.pc.Leaving?
    ensures OneMoreRuns(s, evs)
  {
    if s.pc.Granting? {
      evs := GrantNext(s);
    } else if s.q.queue == [] {
      evs := ArrivalNext(s);
    } else {
      evs := PopNext(s);
    }
  }

  ghost predicate CanGrantSaturated(s: Sys) {
    exists evs :: Legal(s, evs) && Saturated(s, evs) && Grants(evs) > 0
  }

  /** With the limit used up, a request can be granted without capacity falling below it exactly when the
      dispatcher came in holding a unit that it is not about to give back. */
  lemma GrantableWhileSaturatedExactly(s: Sys)
    requires Inv(s) && s.gate.inFlight >= s.gate.limit
    ensures CanGrantSaturated(s) <==> Units(s.pc) == 1 && !s.pc.Leaving?
  {
    if Units(s.pc) == 1 && !s.pc.Leaving? {
      var evs := HeldUnitGrants(s);
      assert Legal(s, evs) && Saturated(s, evs) && Grants(evs) > 0;
    }
    forall evs | Legal(s, evs) && Saturated(s, evs) && Grants(evs) > 0
      ensures Units(s.pc) == 1 && !s.pc.Leaving?
    {
      OvershootAtMostHeldUnit(s, evs);
      if Over(s.pc) {
        NothingGrantedOnceOver(s, evs);
      }
    }
  }

  /** Wherever a change of the limit finds the dispatcher holding a unit it is not about to give back, one more
      request can still be granted before any capacity is returned or reserved. */
  lemma HeldUnitOutlivesShrink(s: Sys, limit: int) returns (evs: seq<Event>)
    requires Inv(s) && Units(s.pc) == 1 && !s.pc.Leaving? && limit >= 1
    ensures Legal(s, evs) && evs != [] && evs[0] == SetLimit(limit) && evs[|evs| - 1] == Grant && Grants(evs) == 1
    ensures var f := Exec(s, evs);
            f.gate == S.Gate(limit, s.gate.inFlight) && |f.running| == |s.running| + 1
  {
    hide Inv, Legal, Exec, Saturated;
    InvStep(s, SetLimit(limit));
    var rest := HeldUnitGrants(Apply(s, SetLimit(limit)));
    ExecCons(s, SetLimit(limit), rest);
    evs := [SetLimit(limit)] + rest;
    assert evs[1..] == rest;
  }

  /** A run under a limit of 2 to where one request runs, another is queued and the dispatcher holds a unit. */
  lemma HeldUnitReached() returns (evs: seq<Event>)
    ensures Legal(Init(QueueConfig(0, 0), 2), evs)
    ensures var s := Exec(Init(QueueConfig(0, 0), 2), evs);
            s.pc.AtPop? && s.q.queue != [] && |s.running| == 1
  {
    hide Legal, Exec;
    var a := Enqueue(1.0, 0, 0);
    var s0 := Init(QueueConfig(0, 0), 2);
    var s1 := Apply(s0, TryAcquire);
    var s2 := Apply(s1, a);
    var s3 := Apply(s2, TryPop);
    var s4 := Apply(s3, Grant);
    var s5 := Apply(s4, TryAcquire);
    ExecOne(s5, a);
    ExecCons(s4, TryAcquire, [a]);
    ExecCons(s3, Grant, [TryAcquire] + [a]);
    ExecCons(s2, TryPop, [Grant] + ([TryAcquire] + [a]));
    ExecCons(s1, a, [TryPop] + ([Grant] + ([TryAcquire] + [a])));
    ExecCons(s0, TryAcquire, [a] + ([TryPop] + ([Grant] + ([TryAcquire] + [a]))));
    evs := [TryAcquire] + ([a] + ([TryPop] + ([Grant] + ([TryAcquire] + [a]))));
  }

  /** The bound is reached: a unit reserved before a shrink admits a request although the limit is already used up. */
  lemma LookaheadGrantsAboveLimit() returns (evs: seq<Event>)
    ensures Legal(Init(QueueConfig(0, 0), 2), evs) && evs != [] && evs[|evs| - 1] == Grant
    ensures var s := Exec(Init(QueueConfig(0, 0), 2), evs);
            s.gate.limit == 1 && |s.running| == 2
  {
    hide Legal, Exec, Inv;
    var s0 := Init(QueueConfig(0, 0), 2);
    var first := HeldUnitReached();
    ReachableInv(s0.cfg, 2, first);
    var rest := HeldUnitOutlivesShrink(Exec(s0, first), 1);
    ExecAppend(s0, first, rest);
    evs := first + rest;
  }
}
