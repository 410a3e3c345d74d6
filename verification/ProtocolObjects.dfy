/**
 The scheduler and controller objects carry out the admission protocol: every
 critical section, run on objects that agree with a protocol state, leaves
 them agreeing with the state after the corresponding event.
 */
module ProtocolObjects {
  import opened TicketOrder
  import opened QueueSpec
  import opened AdmissionProtocol
  import opened TicketHeap
  import L = LimitPolicy
  import Sched = Scheduler
  import Ctl = Controller

  /** Objects that share nothing. */
  ghost predicate Apart(s: Sched.Scheduler, c: Ctl.Controller)
    reads s, s.pq, c
  {
    {c, c.window, c.window.ring, c.window.buckets} !! {s, s.pq} + s.pq.Repr
  }

  ghost predicate Agree(s: Sched.Scheduler, c: Ctl.Controller, sys: Sys)
    reads s, s.pq, s.pq.Repr, c, c.window, c.window.ring, c.window.buckets
  {
    s.Valid() && c.Valid() && Apart(s, c) && s.cfg == sys.cfg && s.State() == sys.q && c.Gate() == sys.gate
  }

  /** Where the dispatch loop stands after a pass of waitPopHead. */
  ghost function PcAfterPop(r: Sched.PopResult): Pc {
    match r
    case Wait => ParkedForTicket
    case Finished => Leaving
    case Popped(t) => Granting(t.key)
  }

  method EnqueueStep(s: Sched.Scheduler, c: Ctl.Controller, score: real, limitRead: int, meanRead: int, ghost sys: Sys)
    returns (t: Ticket?, reason: RejectReason)
    requires Agree(s, c, sys)
    modifies s`seqNo, s.pq.Repr
    ensures var sys' := Apply(sys, Enqueue(score, limitRead, meanRead));
            && Agree(s, c, sys')
            && (reason == RejectNone <==> |sys'.accepted| == |sys.accepted| + 1)
            && (t != null <==> reason == RejectNone)
            && (t != null ==> sys'.accepted == sys.accepted + [t.key])
  {
    hide Heap.Valid, Insert, Decide;
    t, reason := s.Enqueue(score, limitRead, meanRead);
  }

  method StopStep(s: Sched.Scheduler, c: Ctl.Controller, ghost sys: Sys)
    requires Agree(s, c, sys) && Enabled(sys, Stop)
    modifies s`stopped
    ensures Agree(s, c, Apply(sys, Stop))
  {
    s.Stop();
  }

  method AcquireStep(s: Sched.Scheduler, c: Ctl.Controller, ghost sys: Sys) returns (acquired: bool)
    requires Agree(s, c, sys) && Enabled(sys, TryAcquire)
    modifies c`inFlight
    ensures Agree(s, c, Apply(sys, TryAcquire))
    ensures Apply(sys, TryAcquire).pc == if acquired then AtPop else ParkedForCapacity
  {
    acquired := c.TryAcquire(1);
  }

  method PopStep(s: Sched.Scheduler, c: Ctl.Controller, ghost sys: Sys) returns (r: Sched.PopResult)
    requires Agree(s, c, sys) && Enabled(sys, TryPop)
    modifies s.pq.Repr
    ensures Agree(s, c, Apply(sys, TryPop)) && Apply(sys, TryPop).pc == PcAfterPop(r)
  {
    hide Heap.Valid;
    r := s.TryPopHead();
  }

  method LeaveStep(s: Sched.Scheduler, c: Ctl.Controller, ghost sys: Sys) returns (signals: nat)
    requires Agree(s, c, sys) && Enabled(sys, Leave)
    modifies c`inFlight
    ensures Agree(s, c, Apply(sys, Leave)) && Apply(sys, Leave).owed == sys.owed + signals
  {
    signals := c.ReleaseUnused(1);
  }

  /** The next handler has returned from serving t. */
  method ReleaseStep(s: Sched.Scheduler, c: Ctl.Controller, t: Key, status: int, err: Ctl.NextResult, latency: int, ghost sys: Sys)
    returns (signals: nat)
    requires Agree(s, c, sys) && Enabled(sys, Release(t))
    modifies c`inFlight, c.window, c.window.ring, c.window.buckets
    ensures Agree(s, c, Apply(sys, Release(t))) && Apply(sys, Release(t)).owed == sys.owed + signals
  {
    signals := Ctl.Dispatch(c, status, err, latency);
  }

  /** Whatever the window holds, an adjustment is one change of the limit, possibly to itself. */
  method AdjustStep(s: Sched.Scheduler, c: Ctl.Controller, now: int, ghost sys: Sys) returns (signals: nat)
    requires Agree(s, c, sys) && sys.gate.limit >= 1 && c.cfg.minConcurrency >= 1 && c.cfg.maxConcurrency >= 1
    modifies c`limit, c`clocks
    ensures Enabled(sys, SetLimit(c.limit)) && Agree(s, c, Apply(sys, SetLimit(c.limit)))
    ensures Apply(sys, SetLimit(c.limit)).owed == sys.owed + signals
  {
    hide L.Choose, L.Proposed, L.Stamp, L.FollowsTable, Ctl.ReadingOf;
    signals := c.AdjustAt(now);
  }
}
