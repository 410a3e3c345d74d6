/**
 Draining: with no further arrivals and no limit changes, and every running
 request eventually returning, each schedule is bounded by a decreasing measure
 and ends only when there is nothing left to do.
 */
module ProtocolLiveness {
  import opened TicketOrder
  import opened QueueSpec
  import opened AdmissionProtocol
  import opened ProtocolSafety

  /** The system's own steps and the return of a running request. */
  predicate Drain(e: Event) { Internal(e) || e.Release? }

  predicate AllDrain(evs: seq<Event>) {
    forall i :: 0 <= i < |evs| ==> Drain(evs[i])
  }

  function Rank(pc: Pc): nat {
    match pc
    case Acquiring => 6
    case ParkedForCapacity => 4
    case WokenForCapacity => 5
    case AtPop => 4
    case ParkedForTicket => 3
    case WokenForTicket => 4
    case Granting(_) => 10
    case Leaving => 3
    case Left => 0
  }

  function Measure(s: Sys): int {
    7 * |s.q.queue| + 3 * |s.running| + 2 * s.owed + Rank(s.pc)
  }

  lemma MeasureDrops(s: Sys, e: Event)
    requires Accounted(s) && Enabled(s, e) && Drain(e)
    ensures Measure(Apply(s, e)) < Measure(s)
  {
    if e.Grant? {
      PoppedNotRunning(s);
      NewRunner(s);
    } else if e.Release? {
      assert |s.running - {e.t}| == |s.running| - 1;
    }
  }

  /** No schedule of draining steps is longer than the measure. */
  lemma {:induction false} DrainBounded(s: Sys, evs: seq<Event>)
    requires Inv(s) && Legal(s, evs) && AllDrain(evs)
    ensures |evs| + Measure(Exec(s, evs)) <= Measure(s)
    decreases |evs|
  {
    if evs != [] {
      MeasureDrops(s, evs[0]);
      InvStep(s, evs[0]);
      assert forall i :: 0 <= i < |evs[1..]| ==> evs[1..][i] == evs[i + 1];
      DrainBounded(Apply(s, evs[0]), evs[1..]);
    }
  }

  ghost predicate Stuck(s: Sys) {
    forall e :: Drain(e) ==> !Enabled(s, e)
  }

  /** A limit above what panics have lost rules out every dead end but the two proper ones. */
  lemma StuckMeans(s: Sys)
    requires Inv(s) && Stuck(s)
    ensures s.running == {} && s.owed == 0 && s.gate.inFlight == s.lost + Units(s.pc)
    ensures s.pc.Left? || (s.pc.ParkedForTicket? && s.q.queue == [] && !s.q.stopped)
            || (s.pc.ParkedForCapacity? && s.lost >= s.gate.limit)
  {
    assert Idle(s);
    IdleMeans(s);
    if s.running != {} {
      var t :| t in s.running;
      assert Enabled(s, Release(t));
    }
  }

  lemma {:induction false} DrainEmptiesQueue(s: Sys, evs: seq<Event>)
    requires Legal(s, evs) && AllDrain(evs)
    requires Over(s.pc) ==> s.q.queue == []
    ensures Over(Exec(s, evs).pc) ==> Exec(s, evs).q.queue == []
    ensures Exec(s, evs).accepted == s.accepted && Exec(s, evs).q.stopped == s.q.stopped
    ensures Exec(s, evs).lost == s.lost && Exec(s, evs).gate.limit == s.gate.limit
    decreases |evs|
  {
    if evs != [] {
      assert Drain(evs[0]);
      assert forall i :: 0 <= i < |evs[1..]| ==> evs[1..][i] == evs[i + 1];
      DrainEmptiesQueue(Apply(s, evs[0]), evs[1..]);
    }
  }

  /** At a stuck state reached by draining, everything accepted has been granted exactly once. */
  lemma DrainGrantsAll(s: Sys, evs: seq<Event>)
    requires Inv(s) && s.lost < s.gate.limit && (Over(s.pc) ==> s.q.queue == [])
    requires Legal(s, evs) && AllDrain(evs) && Stuck(Exec(s, evs))
    ensures var f := Exec(s, evs);
            && f.q.queue == [] && f.running == {} && f.gate.inFlight == s.lost + Units(f.pc)
            && (forall k :: multiset(f.granted)[k] == if k in s.accepted then 1 else 0)
  {
    var f := Exec(s, evs);
    InvRun(s, evs);
    DrainEmptiesQueue(s, evs);
    StuckMeans(f);
    forall k ensures multiset(f.granted)[k] == if k in s.accepted then 1 else 0 {
      AcceptedOnce(f, k);
      assert Count(f.accepted, k) == Count(f.granted, k);
    }
  }

  /** After Stop, unless the loop has left queued requests behind: every schedule ends, within the measure. If panics
      have lost less than the limit it ends with the loop gone, the queue empty, each accepted ticket granted exactly
      once and no capacity in use but what was lost; otherwise it may also end with the loop waiting for capacity. */
  lemma StopDrains(cfg: QueueConfig, limit: int, before: seq<Event>, after: seq<Event>)
    requires limit >= 1 && Legal(Init(cfg, limit), before)
    requires var s := Exec(Init(cfg, limit), before);
             s.q.stopped && (Over(s.pc) ==> s.q.queue == []) && Legal(s, after) && AllDrain(after)
    ensures var s := Exec(Init(cfg, limit), before);
            var f := Exec(s, after);
            && |after| <= Measure(s)
            && (Stuck(f) ==> f.pc.Left? || (f.pc.ParkedForCapacity? && s.lost >= s.gate.limit))
            && (Stuck(f) && s.lost < s.gate.limit ==>
                  f.pc.Left? && f.q.queue == [] && f.running == {} && f.gate.inFlight == s.lost
                  && forall k :: multiset(f.granted)[k] == if k in s.accepted then 1 else 0)
  {
    var s := Exec(Init(cfg, limit), before);
    var f := Exec(s, after);
    ReachableInv(cfg, limit, before);
    DrainBounded(s, after);
    if Stuck(f) {
      DrainEmptiesQueue(s, after);
      InvRun(s, after);
      StuckMeans(f);
      if s.lost < s.gate.limit {
        DrainGrantsAll(s, after);
      }
    }
  }

  lemma {:induction false} DrainSchedule(s: Sys) returns (evs: seq<Event>)
    requires Inv(s)
    ensures Legal(s, evs) && AllDrain(evs) && Stuck(Exec(s, evs))
    decreases Measure(s)
  {
    if Stuck(s) {
      evs := [];
    } else {
      var e :| Drain(e) && Enabled(s, e);
      InvStep(s, e);
      MeasureDrops(s, e);
      var rest := DrainSchedule(Apply(s, e));
      ExecCons(s, e, rest);
      evs := [e] + rest;
    }
  }

  // ---------- which queued tickets can still be granted ----------

  ghost predicate CanBeGranted(s: Sys, t: Key) {
    exists evs :: Legal(s, evs) && t in Exec(s, evs).granted
  }

  predicate KeepsLimit(evs: seq<Event>) {
    forall i :: 0 <= i < |evs| ==> !evs[i].SetLimit?
  }

  ghost predicate CanBeGrantedAtThisLimit(s: Sys, t: Key) {
    exists evs :: Legal(s, evs) && KeepsLimit(evs) && t in Exec(s, evs).granted
  }

  lemma QueuedNotGranted(s: Sys, t: Key)
    requires Accounted(s) && t in s.q.queue
    ensures t in s.accepted && t !in s.granted && s.pc != Granting(t)
  {
    AcceptedOnce(s, t);
    assert t in multiset(s.q.queue);
    assert Count(s.accepted, t) == 1 && Count(s.granted, t) == 0;
    assert t in multiset(s.accepted);
    assert t !in multiset(s.granted);
  }

  lemma GrantedByDraining(s: Sys, t: Key)
    requires Inv(s) && t in s.q.queue && !Over(s.pc) && s.lost < s.gate.limit
    ensures CanBeGrantedAtThisLimit(s, t)
  {
    QueuedNotGranted(s, t);
    var evs := DrainSchedule(s);
    DrainGrantsAll(s, evs);
    assert t in multiset(Exec(s, evs).granted);
    assert KeepsLimit(evs);
  }

  /** The dispatcher stands at the head of the queue with a unit in hand. */
  predicate NextToPop(s: Sys, t: Key) {
    (s.pc.AtPop? || s.pc.WokenForTicket?) && s.q.queue != [] && s.q.queue[0] == t
  }

  lemma HeadGranted(s: Sys, t: Key)
    requires NextToPop(s, t)
    ensures CanBeGrantedAtThisLimit(s, t)
  {
    var s1 := Apply(s, TryPop);
    ExecOne(s1, Grant);
    ExecCons(s, TryPop, [Grant]);
    var evs := [TryPop] + [Grant];
    assert KeepsLimit(evs) && t in Exec(s, evs).granted;
  }

  /** t is queued, panics have lost the whole limit, and any unit in hand is for another ticket. */
  ghost predicate Doomed(s: Sys, t: Key) {
    Inv(s) && t in s.q.queue && s.lost >= s.gate.limit && !NextToPop(s, t)
  }

  lemma DoomedStep(s: Sys, e: Event, t: Key)
    requires Doomed(s, t) && Enabled(s, e) && !e.SetLimit?
    ensures Doomed(Apply(s, e), t)
  {
    InvStep(s, e);
    if e.Enqueue? {
      InsertMembers(s.q.queue, NewTicket(s, e));
    }
  }

  lemma {:induction false} DoomedRun(s: Sys, evs: seq<Event>, t: Key)
    requires Doomed(s, t) && Legal(s, evs) && KeepsLimit(evs)
    ensures Doomed(Exec(s, evs), t)
    decreases |evs|
  {
    if evs != [] {
      hide Doomed;
      assert forall i :: 0 <= i < |evs[1..]| ==> evs[1..][i] == evs[i + 1];
      DoomedStep(s, evs[0], t);
      DoomedRun(Apply(s, evs[0]), evs[1..], t);
    }
  }

  /** With the limit left alone a queued ticket can still be granted exactly while the dispatch loop has not decided
      to leave and panics have lost less than the limit, or the dispatcher already holds a unit for it. */
  lemma GrantableAtThisLimitExactly(s: Sys, t: Key)
    requires Inv(s) && t in s.q.queue
    ensures CanBeGrantedAtThisLimit(s, t) <==> (!Over(s.pc) && s.lost < s.gate.limit) || NextToPop(s, t)
  {
    QueuedNotGranted(s, t);
    if !Over(s.pc) && s.lost < s.gate.limit {
      GrantedByDraining(s, t);
    } else if NextToPop(s, t) {
      HeadGranted(s, t);
    } else {
      forall evs | Legal(s, evs) && KeepsLimit(evs) ensures t !in Exec(s, evs).granted {
        if Over(s.pc) {
          NothingGrantedOnceOver(s, evs);
        } else {
          DoomedRun(s, evs, t);
          QueuedNotGranted(Exec(s, evs), t);
        }
      }
    }
  }

  /** A queued ticket can still be granted, the limit being raised if need be, exactly while the dispatch loop has
      not decided to leave. */
  lemma GrantableExactlyBeforeExit(s: Sys, t: Key)
    requires Inv(s) && t in s.q.queue
    ensures CanBeGranted(s, t) <==> !Over(s.pc)
  {
    QueuedNotGranted(s, t);
    if Over(s.pc) {
      forall evs | Legal(s, evs) ensures t !in Exec(s, evs).granted {
        NothingGrantedOnceOver(s, evs);
      }
    } else {
      var raise := SetLimit(s.lost + 1);
      InvStep(s, raise);
      GrantedByDraining(Apply(s, raise), t);
      var evs :| Legal(Apply(s, raise), evs) && t in Exec(Apply(s, raise), evs).granted;
      ExecCons(s, raise, evs);
      assert t in Exec(s, [raise] + evs).granted;
    }
  }

  // ---------- whether Stop can return ----------

  ghost predicate CanLeaveAtThisLimit(s: Sys) {
    exists evs :: Legal(s, evs) && KeepsLimit(evs) && Exec(s, evs).pc.Left?
  }

  /** The dispatcher waits for a ticket with a unit in hand and none is queued. */
  predicate AtEmptyQueue(s: Sys) {
    (s.pc.AtPop? || s.pc.WokenForTicket? || s.pc.ParkedForTicket?) && s.q.queue == []
  }

  /** Panics have lost the whole limit, and the dispatcher needs another unit before it can look at the stop flag. */
  ghost predicate Blocked(s: Sys) {
    Inv(s) && s.lost >= s.gate.limit && !Over(s.pc) && !AtEmptyQueue(s)
  }

  lemma BlockedStep(s: Sys, e: Event)
    requires Blocked(s) && Enabled(s, e) && !e.SetLimit?
    ensures Blocked(Apply(s, e))
  {
    InvStep(s, e);
  }

  lemma {:induction false} BlockedRun(s: Sys, evs: seq<Event>)
    requires Blocked(s) && Legal(s, evs) && KeepsLimit(evs)
    ensures Blocked(Exec(s, evs))
    decreases |evs|
  {
    if evs != [] {
      hide Blocked;
      assert forall i :: 0 <= i < |evs[1..]| ==> evs[1..][i] == evs[i + 1];
      BlockedStep(s, evs[0]);
      BlockedRun(Apply(s, evs[0]), evs[1..]);
    }
  }

  lemma LeavesByDraining(s: Sys)
    requires Inv(s) && s.q.stopped && s.lost < s.gate.limit
    ensures CanLeaveAtThisLimit(s)
  {
    var evs := DrainSchedule(s);
    InvRun(s, evs);
    DrainedLimit(s, evs);
    StuckMeans(Exec(s, evs));
    assert KeepsLimit(evs);
  }

  lemma {:induction false} DrainedLimit(s: Sys, evs: seq<Event>)
    requires Legal(s, evs) && AllDrain(evs)
    ensures var f := Exec(s, evs);
            f.lost == s.lost && f.gate.limit == s.gate.limit && f.q.stopped == s.q.stopped
    decreases |evs|
  {
    if evs != [] {
      assert Drain(evs[0]);
      assert forall i :: 0 <= i < |evs[1..]| ==> evs[1..][i] == evs[i + 1];
      DrainedLimit(Apply(s, evs[0]), evs[1..]);
    }
  }

  lemma LeavesAtEmptyQueue(s: Sys)
    requires Inv(s) && s.q.stopped && AtEmptyQueue(s)
    ensures CanLeaveAtThisLimit(s)
  {
    var s1 := Apply(s, TryPop);
    ExecOne(s1, Leave);
    ExecCons(s, TryPop, [Leave]);
    assert KeepsLimit([TryPop] + [Leave]) && Exec(s, [TryPop] + [Leave]).pc.Left?;
  }

  lemma StopFirst(s: Sys)
    requires !s.q.stopped && CanLeaveAtThisLimit(Apply(s, Stop))
    ensures CanLeaveAtThisLimit(s)
  {
    var evs :| Legal(Apply(s, Stop), evs) && KeepsLimit(evs) && Exec(Apply(s, Stop), evs).pc.Left?;
    ExecCons(s, Stop, evs);
    assert KeepsLimit([Stop] + evs) && Exec(s, [Stop] + evs).pc.Left?;
  }

  lemma LeavesOnceStopped(s: Sys)
    requires Inv(s) && s.q.stopped && !Blocked(s)
    ensures CanLeaveAtThisLimit(s)
  {
    if s.lost < s.gate.limit {
      LeavesByDraining(s);
    } else if AtEmptyQueue(s) {
      LeavesAtEmptyQueue(s);
    } else if s.pc.Leaving? {
      ExecOne(s, Leave);
      assert KeepsLimit([Leave]) && Exec(s, [Leave]).pc.Left?;
    } else {
      assert Exec(s, []) == s && KeepsLimit([]);
    }
  }

  /** With the limit left alone the dispatch loop can still end, and with it Stop return, exactly while panics have
      lost less than the limit, or the loop is ending, or its unit in hand finds the queue empty. */
  lemma EndsAtThisLimitExactly(s: Sys)
    requires Inv(s)
    ensures CanLeaveAtThisLimit(s) <==> s.lost < s.gate.limit || Over(s.pc) || AtEmptyQueue(s)
  {
    if Blocked(s) {
      forall evs | Legal(s, evs) && KeepsLimit(evs) ensures !Exec(s, evs).pc.Left? {
        BlockedRun(s, evs);
      }
    } else if s.q.stopped {
      LeavesOnceStopped(s);
    } else {
      InvStep(s, Stop);
      LeavesOnceStopped(Apply(s, Stop));
      StopFirst(s);
    }
  }
}
