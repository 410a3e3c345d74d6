/**
 Admission as a concurrent step system: request goroutines that enqueue,
 wait for their grant, run and release; one dispatch goroutine that acquires a
 unit of capacity and only then pops the queue head; the adjustment loop that
 moves the limit; and Stop.  One event is one critical section or one
 delivered Signal, so every interleaving is a sequence of events.
 */
module AdmissionProtocol {
  import opened TicketOrder
  import opened QueueSpec
  import opened Wrappers
  import S = Semaphore

  /** Where the dispatch goroutine stands. */
  datatype Pc =
    | Acquiring            // about to evaluate Acquire's wait condition
    | ParkedForCapacity    // asleep on the controller's condition variable
    | WokenForCapacity     // signalled, about to re-evaluate it
    | AtPop                // holding a unit, about to enter waitPopHead
    | ParkedForTicket      // holding a unit, asleep on the scheduler's condition variable
    | WokenForTicket       // holding a unit, signalled
    | Granting(t: Key)     // popped t, about to close its channel
    | Leaving              // stopped and drained, about to release the unused unit
    | Left                 // the loop has returned

  /** The unit the dispatcher holds on nobody's behalf or on the popped ticket's. */
  function Units(pc: Pc): nat {
    if pc.AtPop? || pc.ParkedForTicket? || pc.WokenForTicket? || pc.Granting? || pc.Leaving? then 1 else 0
  }

  /** accepted and granted are logs: tickets in arrival order and in grant order; lost counts the requests whose
      handler panicked, so that their unit is never given back. */
  datatype Sys = Sys(cfg: QueueConfig, gate: S.Gate, owed: nat, pc: Pc, q: QueueState,
                     running: set<Key>, accepted: seq<Key>, granted: seq<Key>, lost: nat)

  datatype Event =
    | Enqueue(score: real, limitRead: int, meanRead: int)  // the two reads are torn: any values
    | Stop
    | SetLimit(limit: int)
    | TryAcquire
    | Signal
    | TryPop
    | Grant
    | Leave
    | Release(t: Key)  // the request's handler has returned
    | Crash(t: Key)    // it has panicked: nothing is released

  predicate Enabled(s: Sys, e: Event) {
    match e
    case Enqueue(_, _, _) => true
    case Stop => !s.q.stopped
    case SetLimit(limit) => limit >= 1
    case TryAcquire => s.pc.Acquiring? || s.pc.WokenForCapacity?
    case Signal => s.owed > 0
    case TryPop => s.pc.AtPop? || s.pc.WokenForTicket?
    case Grant => s.pc.Granting?
    case Leave => s.pc.Leaving?
    case Release(t) => t in s.running
    case Crash(t) => t in s.running
  }

  /** The scheduler's condition variable has one possible waiter, the dispatcher. */
  function Notify(pc: Pc): Pc {
    if pc.ParkedForTicket? then WokenForTicket else pc
  }

  function NewTicket(s: Sys, e: Event): Key
    requires e.Enqueue?
  {
    Key(e.score, s.q.seqNo + 1)
  }

  predicate Accepts(s: Sys, e: Event) {
    e.Enqueue? && Decide(s.cfg, |s.q.queue|, e.limitRead, e.meanRead) == RejectNone
  }

  function Apply(s: Sys, e: Event): Sys
    requires Enabled(s, e)
  {
    match e
    case Enqueue(score, limitRead, meanRead) =>
      var (q', reason) := EnqueueSpec(s.cfg, s.q, score, limitRead, meanRead);
      if reason == RejectNone
      then s.(q := q', pc := Notify(s.pc), accepted := s.accepted + [NewTicket(s, e)])
      else s
    case Stop => s.(q := s.q.(stopped := true), pc := Notify(s.pc))
    case SetLimit(limit) =>
      s.(gate := s.gate.(limit := limit), owed := s.owed + S.SignalsFor(s.gate.limit, limit))
    case TryAcquire =>
      if s.gate.Fits(1) then s.(gate := s.gate.Take(1), pc := AtPop) else s.(pc := ParkedForCapacity)
    case Signal =>
      s.(owed := s.owed - 1, pc := if s.pc.ParkedForCapacity? then WokenForCapacity else s.pc)
    case TryPop =>
      var (q', found) := PopSpec(s.q);
      s.(q := q', pc := match found
                        case MustWait => ParkedForTicket
                        case Drained => Leaving
                        case Head(t) => Granting(t))
    case Grant => s.(pc := Acquiring, running := s.running + {s.pc.t}, granted := s.granted + [s.pc.t])
    case Leave => s.(gate := s.gate.Give(1), owed := s.owed + 1, pc := Left)
    case Release(t) => s.(gate := s.gate.Give(1), owed := s.owed + 1, running := s.running - {t})
    case Crash(t) => s.(running := s.running - {t}, lost := s.lost + 1)
  }

  predicate Legal(s: Sys, evs: seq<Event>)
    decreases |evs|
  {
    evs == [] || (Enabled(s, evs[0]) && Legal(Apply(s, evs[0]), evs[1..]))
  }

  function Exec(s: Sys, evs: seq<Event>): Sys
    requires Legal(s, evs)
    decreases |evs|
  {
    if evs == [] then s else Exec(Apply(s, evs[0]), evs[1..])
  }

  function Init(cfg: QueueConfig, limit: int): Sys {
    Sys(cfg, S.Gate(limit, 0), 0, Acquiring, QueueState([], 0, false), {}, [], [], 0)
  }

  // ---------- the dispatcher as one caller of the semaphore ----------

  const DISPATCHER: S.Id := 0

  /** n units reserved. */
  function Held(n: nat): map<nat, nat> { map[1 := n] }

  function View(s: Sys): S.Sem {
    S.Sem(s.gate,
          if s.pc.ParkedForCapacity? then map[DISPATCHER := 1] else map[],
          if s.pc.WokenForCapacity? then map[DISPATCHER := 1] else map[],
          Held(|s.running| + s.lost + Units(s.pc)),
          s.owed)
  }

  /** What an event does to the semaphore, if anything. */
  function SemEvent(s: Sys, e: Event): Option<S.Event> {
    match e
    case SetLimit(limit) => Some(S.SetLimit(limit))
    case TryAcquire => Some(if s.pc.Acquiring? then S.Arrive(DISPATCHER, 1) else S.Recheck(DISPATCHER))
    case Signal => Some(if s.pc.ParkedForCapacity? then S.Signal(DISPATCHER) else S.SignalNobody)
    case Leave => Some(S.Release(1))
    case Release(_) => Some(S.Release(1))
    case _ => None
  }

  lemma NewRunner(s: Sys)
    requires s.pc.Granting? && s.pc.t !in s.running
    ensures |s.running + {s.pc.t}| == |s.running| + 1
  {
  }

  lemma AcquireRefines(s: Sys)
    requires s.pc.Acquiring? || s.pc.WokenForCapacity?
    ensures S.TryTake(View(s), DISPATCHER, 1) == View(Apply(s, TryAcquire))
  {
    assert View(s).woken - {DISPATCHER} == map[];
    assert View(s).held[1 := |s.running| + s.lost + 1] == Held(|s.running| + s.lost + 1);
  }

  lemma ReleaseRefines(s: Sys, t: Key)
    requires t in s.running
    ensures S.Enabled(View(s), S.Release(1)) && S.Apply(View(s), S.Release(1)) == View(Apply(s, Release(t)))
  {
    assert |s.running - {t}| == |s.running| - 1;
  }

  lemma SignalRefines(s: Sys)
    requires s.owed > 0
    ensures var se := SemEvent(s, Signal).value;
            S.Enabled(View(s), se) && S.Apply(View(s), se) == View(Apply(s, Signal))
  {
    assert View(s).parked - {DISPATCHER} == map[];
  }

  /** Every event is one event of the semaphore or leaves it alone. */
  lemma StepRefinesSemaphore(s: Sys, e: Event)
    requires Enabled(s, e) && (s.pc.Granting? ==> s.pc.t !in s.running)
    ensures match SemEvent(s, e)
            case Some(se) => S.Enabled(View(s), se) && S.Apply(View(s), se) == View(Apply(s, e))
            case None => View(Apply(s, e)) == View(s)
  {
    match e
    case TryAcquire => AcquireRefines(s);
    case Grant => NewRunner(s);
    case Release(t) => ReleaseRefines(s, t);
    case Signal => SignalRefines(s);
    case Crash(t) => assert |s.running - {t}| == |s.running| - 1;
    case _ =>
  }

  // ---------- the invariant ----------

  ghost function Count(s: seq<Key>, k: Key): nat { multiset(s)[k] }

  function One(yes: bool): nat { if yes then 1 else 0 }

  lemma CountSnoc(s: seq<Key>, x: Key, k: Key)
    ensures Count(s + [x], k) == Count(s, k) + One(k == x)
  {
  }

  lemma CountTail(s: seq<Key>, k: Key)
    requires s != []
    ensures Count(s, k) == One(k == s[0]) + Count(s[1..], k)
  {
    assert s == [s[0]] + s[1..];
  }

  lemma CountInsert(q: seq<Key>, x: Key, k: Key)
    ensures Count(Insert(q, x), k) == Count(q, k) + One(k == x)
  {
  }

  /** Every accepted ticket is queued, popped or granted, once. */
  ghost predicate Accounted(s: Sys) {
    && |s.accepted| == s.q.seqNo
    && (forall i :: 0 <= i < |s.accepted| ==> s.accepted[i].seqNo == i + 1)
    && (forall k :: Count(s.accepted, k) == Count(s.q.queue, k) + One(s.pc == Granting(k)) + Count(s.granted, k))
    && (forall t :: t in s.running ==> t in s.granted)
  }

  ghost predicate Inv(s: Sys) {
    && s.gate.limit >= 1
    && s.gate.inFlight == |s.running| + s.lost + Units(s.pc)
    && QueueInv(s.cfg, s.q)
    && Accounted(s)
    && (s.pc.ParkedForTicket? ==> s.q.queue == [] && !s.q.stopped)
    && (s.pc.Leaving? || s.pc.Left? ==> s.q.stopped)
    && S.WakeInv(View(s), 1)
  }

  lemma InitInv(cfg: QueueConfig, limit: int)
    requires limit >= 1
    ensures Inv(Init(cfg, limit))
  {
  }

  lemma AcceptedOnce(s: Sys, k: Key)
    requires Accounted(s)
    ensures Count(s.accepted, k) <= 1
  {
    assert DistinctSeqs(s.accepted);
    DistinctHas(s.accepted, k);
  }

  lemma PoppedNotRunning(s: Sys)
    requires Accounted(s) && s.pc.Granting?
    ensures s.pc.t !in s.running && s.pc.t !in s.granted
  {
    AcceptedOnce(s, s.pc.t);
    assert Count(s.accepted, s.pc.t) >= 1 + Count(s.granted, s.pc.t);
  }

  lemma AccountedEnqueue(s: Sys, e: Event)
    requires Accounted(s) && e.Enqueue?
    ensures Accounted(Apply(s, e))
  {
    if Accepts(s, e) {
      var t := NewTicket(s, e);
      forall k ensures Count(s.accepted + [t], k) ==
                       Count(Insert(s.q.queue, t), k) + One(s.pc == Granting(k)) + Count(s.granted, k)
      {
        CountSnoc(s.accepted, t, k);
        CountInsert(s.q.queue, t, k);
      }
    }
  }

  lemma AccountedStep(s: Sys, e: Event)
    requires Accounted(s) && Enabled(s, e)
    ensures Accounted(Apply(s, e))
  {
    var s' := Apply(s, e);
    match e
    case Enqueue(_, _, _) => AccountedEnqueue(s, e);
    case TryPop =>
      forall k ensures Count(s'.accepted, k) == Count(s'.q.queue, k) + One(s'.pc == Granting(k)) + Count(s'.granted, k) {
        if s.q.queue != [] {
          CountTail(s.q.queue, k);
        }
      }
    case Grant =>
      forall k ensures Count(s'.accepted, k) == Count(s'.q.queue, k) + One(s'.pc == Granting(k)) + Count(s'.granted, k) {
        CountSnoc(s.granted, s.pc.t, k);
      }
    case _ =>
  }

  lemma WakeInvStep(s: Sys, e: Event)
    requires Accounted(s) && Enabled(s, e) && S.WakeInv(View(s), 1)
    ensures S.WakeInv(View(Apply(s, e)), 1)
  {
    if s.pc.Granting? {
      PoppedNotRunning(s);
    }
    StepRefinesSemaphore(s, e);
    if SemEvent(s, e).Some? {
      S.WakeStep(View(s), SemEvent(s, e).value, 1);
    }
  }

  lemma UnitStep(s: Sys, e: Event)
    requires Accounted(s) && Enabled(s, e) && s.gate.inFlight == |s.running| + s.lost + Units(s.pc)
    ensures Apply(s, e).gate.inFlight == |Apply(s, e).running| + Apply(s, e).lost + Units(Apply(s, e).pc)
  {
    if e.Grant? {
      PoppedNotRunning(s);
      NewRunner(s);
    } else if e.Release? || e.Crash? {
      assert |s.running - {e.t}| == |s.running| - 1;
    }
  }

  lemma InvStep(s: Sys, e: Event)
    requires Inv(s) && Enabled(s, e)
    ensures Inv(Apply(s, e))
  {
    AccountedStep(s, e);
    WakeInvStep(s, e);
    UnitStep(s, e);
    if e.Enqueue? {
      EnqueueKeepsInv(s.cfg, s.q, e.score, e.limitRead, e.meanRead);
    } else if e.TryPop? {
      PopKeepsInv(s.cfg, s.q);
    }
  }

  lemma {:induction false} InvRun(s: Sys, evs: seq<Event>)
    requires Inv(s) && Legal(s, evs)
    ensures Inv(Exec(s, evs)) && Exec(s, evs).cfg == s.cfg
    decreases |evs|
  {
    if evs != [] {
      InvStep(s, evs[0]);
      InvRun(Apply(s, evs[0]), evs[1..]);
    }
  }
}
