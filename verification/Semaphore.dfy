/**
 The controller's bounded-concurrency semaphore as a step system: any number of
 concurrent callers of Acquire, of any cost, against Release, ReleaseUnused and
 changes of the limit.  One event is one critical section, or one delivery of
 a Signal: Release and the adjustment loop signal only after they have left
 their critical section, so their signals are owed and delivered one by one,
 interleaved with everything else.
 */
module Semaphore {

  /** The two counters every critical section reads and writes. */
  datatype Gate = Gate(limit: int, inFlight: int) {
    predicate Fits(cost: nat) { inFlight + cost <= limit }

    function Take(cost: nat): Gate { this.(inFlight := inFlight + cost) }

    function Give(cost: nat): Gate { this.(inFlight := inFlight - cost) }

    function Free(): int { limit - inFlight }
  }

  /** How many signals a change of the limit issues: one per added unit. */
  function SignalsFor(oldLimit: int, newLimit: int): nat {
    if newLimit > oldLimit then newLimit - oldLimit else 0
  }

  type Id = nat

  /**
   parked: callers asleep in Wait, with the cost they want; woken: callers
   signalled but not yet re-checking; held: how many reservations of each cost
   are outstanding; owed: Signal calls still to be made.
   */
  datatype Sem = Sem(gate: Gate, parked: map<Id, nat>, woken: map<Id, nat>, held: map<nat, nat>, owed: nat)

  datatype Event =
    | Arrive(id: Id, cost: nat)    // Acquire, first evaluation of the wait condition
    | Recheck(id: Id)              // a woken caller re-evaluates it
    | Release(cost: nat)           // Release and ReleaseUnused, critical section
    | Signal(id: Id)               // one owed Signal wakes this parked caller
    | SignalNobody                 // one owed Signal finds nobody parked
    | SetLimit(limit: int)         // the adjustment loop's critical section

  function HeldOf(held: map<nat, nat>, cost: nat): nat {
    if cost in held then held[cost] else 0
  }

  predicate Enabled(s: Sem, e: Event) {
    match e
    case Arrive(id, cost) => cost > 0 && id !in s.parked && id !in s.woken
    case Recheck(id) => id in s.woken
    case Release(cost) => HeldOf(s.held, cost) > 0
    case Signal(id) => s.owed > 0 && id in s.parked
    case SignalNobody => s.owed > 0 && s.parked == map[]
    case SetLimit(_) => true
  }

  /** One pass of Acquire's loop: reserve if it fits, otherwise (go back to) sleep. */
  function TryTake(s: Sem, id: Id, cost: nat): Sem {
    if s.gate.Fits(cost)
    then s.(gate := s.gate.Take(cost), woken := s.woken - {id}, held := s.held[cost := HeldOf(s.held, cost) + 1])
    else s.(parked := s.parked[id := cost], woken := s.woken - {id})
  }

  function Apply(s: Sem, e: Event): Sem
    requires Enabled(s, e)
  {
    match e
    case Arrive(id, cost) => TryTake(s, id, cost)
    case Recheck(id) => TryTake(s, id, s.woken[id])
    case Release(cost) => s.(gate := s.gate.Give(cost), held := s.held[cost := HeldOf(s.held, cost) - 1], owed := s.owed + cost)
    case Signal(id) => s.(parked := s.parked - {id}, woken := s.woken[id := s.parked[id]], owed := s.owed - 1)
    case SignalNobody => s.(owed := s.owed - 1)
    case SetLimit(limit) =>
      s.(gate := s.gate.(limit := limit), owed := s.owed + SignalsFor(s.gate.limit, limit))
  }

  predicate Legal(s: Sem, evs: seq<Event>)
    decreases |evs|
  {
    evs == [] || (Enabled(s, evs[0]) && Legal(Apply(s, evs[0]), evs[1..]))
  }

  function Exec(s: Sem, evs: seq<Event>): Sem
    requires Legal(s, evs)
    decreases |evs|
  {
    if evs == [] then s else Exec(Apply(s, evs[0]), evs[1..])
  }

  function Init(limit: int): Sem {
    Sem(Gate(limit, 0), map[], map[], map[], 0)
  }

  /** Nothing more will happen by itself: no signal owed, nobody between waking and re-checking. */
  predicate Quiet(s: Sem) { s.owed == 0 && s.woken == map[] }

  /** The failure a semaphore must not have: asleep for good beside room enough. */
  predicate LostWakeup(s: Sem) {
    Quiet(s) && exists id :: id in s.parked && s.gate.Fits(s.parked[id])
  }

  predicate CostsIn(evs: seq<Event>, costs: set<nat>) {
    forall i :: 0 <= i < |evs| && evs[i].Arrive? ==> evs[i].cost in costs
  }

  // ---------- one cost: no wakeup is ever lost ----------

  /** What the signals still to come and the callers already woken can use up, and one cost more. */
  function Covered(s: Sem, c: nat): int { c * (s.owed + |s.woken| + 1) }

  ghost predicate OneCost(s: Sem, c: nat) {
    && c > 0
    && (forall id :: id in s.parked ==> s.parked[id] == c)
    && (forall id :: id in s.woken ==> s.woken[id] == c)
    && (forall x :: x in s.held ==> x == c)
    && s.parked.Keys !! s.woken.Keys
  }

  /** While anybody sleeps, those who would fit into the free capacity are covered. */
  ghost predicate WakeInv(s: Sem, c: nat) {
    OneCost(s, c) && (s.parked != map[] ==> Covered(s, c) > s.gate.Free())
  }

  lemma MapMinus(m: map<Id, nat>, id: Id)
    ensures |m - {id}| == if id in m then |m| - 1 else |m|
  {
    assert (m - {id}).Keys == m.Keys - {id};
    assert |(m - {id}).Keys| == |m.Keys - {id}|;
  }

  lemma MapPlus(m: map<Id, nat>, id: Id, x: nat)
    requires id !in m
    ensures |m[id := x]| == |m| + 1
  {
    assert m[id := x].Keys == m.Keys + {id};
  }

  lemma CoveredChange(s: Sem, s': Sem, c: nat, d: int)
    requires s'.owed + |s'.woken| == s.owed + |s.woken| + d
    ensures Covered(s', c) == Covered(s, c) + c * d
  {
    var n := s.owed + |s.woken| + 1;
    assert c * (n + d) == c * n + c * d;
  }

  lemma CoveredMin(s: Sem, c: nat)
    ensures Covered(s, c) >= c
  {
    var n := s.owed + |s.woken|;
    assert c * (n + 1) == c * n + c;
  }

  lemma CoveredDrop(s: Sem, s': Sem, c: nat)
    requires s'.owed == s.owed && (|s'.woken| == |s.woken| || |s'.woken| + 1 == |s.woken|)
    ensures Covered(s', c) >= Covered(s, c) - c
  {
    CoveredChange(s', s, c, |s.woken| - |s'.woken|);
  }

  lemma OneCostTryTake(s: Sem, id: Id, c: nat)
    requires OneCost(s, c) && id !in s.parked
    ensures OneCost(TryTake(s, id, c), c)
  {
  }

  lemma WakeTryTake(s: Sem, id: Id, c: nat)
    requires WakeInv(s, c) && id !in s.parked
    ensures WakeInv(TryTake(s, id, c), c)
  {
    var s' := TryTake(s, id, c);
    OneCostTryTake(s, id, c);
    MapMinus(s.woken, id);
    if s.gate.Fits(c) {
      CoveredDrop(s, s', c);
    } else {
      CoveredMin(s', c);
    }
  }

  lemma WakeSignal(s: Sem, id: Id, c: nat)
    requires WakeInv(s, c) && Enabled(s, Signal(id))
    ensures WakeInv(Apply(s, Signal(id)), c)
  {
    MapPlus(s.woken, id, c);
    CoveredChange(s, Apply(s, Signal(id)), c, 0);
  }

  lemma AtLeast(c: nat, d: nat)
    requires c > 0
    ensures c * d >= d
  {
  }

  lemma WakeStep(s: Sem, e: Event, c: nat)
    requires WakeInv(s, c) && Enabled(s, e)
    requires e.Arrive? ==> e.cost == c
    ensures WakeInv(Apply(s, e), c)
  {
    match e
    case Arrive(id, cost) => WakeTryTake(s, id, c);
    case Recheck(id) => WakeTryTake(s, id, c);
    case Signal(id) => WakeSignal(s, id, c);
    case SignalNobody =>
    case Release(cost) =>
      CoveredChange(s, Apply(s, e), c, c);
      AtLeast(c, c);
    case SetLimit(limit) =>
      CoveredChange(s, Apply(s, e), c, SignalsFor(s.gate.limit, limit));
      AtLeast(c, SignalsFor(s.gate.limit, limit));
  }

  lemma {:induction false} WakeRun(s: Sem, evs: seq<Event>, c: nat)
    requires WakeInv(s, c) && Legal(s, evs) && CostsIn(evs, {c})
    ensures WakeInv(Exec(s, evs), c)
    decreases |evs|
  {
    if evs != [] {
      assert CostsIn(evs[1..], {c}) by {
        assert forall i :: 0 <= i < |evs[1..]| ==> evs[1..][i] == evs[i + 1];
      }
      WakeStep(s, evs[0], c);
      WakeRun(Apply(s, evs[0]), evs[1..], c);
    }
  }

  /**
   With cost 1, over every interleaving: while anybody sleeps, the signals
   still owed plus the callers already woken are at least the free capacity.
   */
  lemma WakeupsCoverFreeCapacity(limit: int, evs: seq<Event>)
    requires Legal(Init(limit), evs) && CostsIn(evs, {1})
    ensures var s := Exec(Init(limit), evs);
            s.parked != map[] ==> s.owed + |s.woken| >= s.gate.Free()
  {
    WakeRun(Init(limit), evs, 1);
    var s := Exec(Init(limit), evs);
    assert Covered(s, 1) == s.owed + |s.woken| + 1;
  }

  lemma UniformCostLosesNoWakeup(limit: int, evs: seq<Event>, c: nat)
    requires c > 0 && Legal(Init(limit), evs) && CostsIn(evs, {c})
    ensures !LostWakeup(Exec(Init(limit), evs))
  {
    WakeRun(Init(limit), evs, c);
    var s := Exec(Init(limit), evs);
    if Quiet(s) {
      assert Covered(s, c) == c;
    }
  }

  // ---------- how many are woken ----------

  /** The events that signal: a release, and a raise of the limit. */
  predicate Signals(s: Sem, e: Event) { e.Release? || (e.SetLimit? && e.limit > s.gate.limit) }

  /** No other event adds to the signals owed. */
  lemma OnlySignalsAdd(s: Sem, e: Event)
    requires Enabled(s, e)
    ensures if Signals(s, e) then Apply(s, e).owed >= s.owed else Apply(s, e).owed <= s.owed
    ensures e.Release? && e.cost > 0 ==> Signals(s, e)
  {
  }

  /** A release or a raise signals no more callers than there is then room for exactly if capacity was not overdrawn. */
  lemma WakesWithinRoomExactly(s: Sem, e: Event)
    requires Enabled(s, e) && Signals(s, e)
    ensures Apply(s, e).owed - s.owed <= Apply(s, e).gate.Free() <==> s.gate.inFlight <= s.gate.limit
  {
  }

  /** No event of the run lowers the limit below the capacity then in use. */
  predicate NeverOverdraws(s: Sem, evs: seq<Event>)
    requires Legal(s, evs)
    decreases |evs|
  {
    evs == [] || ((evs[0].SetLimit? ==> evs[0].limit >= s.gate.inFlight) && NeverOverdraws(Apply(s, evs[0]), evs[1..]))
  }

  /** So over any run no release or raise signals too many as long as no shrink cuts into capacity in use. */
  lemma {:induction false} WakesWithinRoomRun(s: Sem, evs: seq<Event>, e: Event)
    requires s.gate.inFlight <= s.gate.limit && Legal(s, evs) && NeverOverdraws(s, evs)
    requires Enabled(Exec(s, evs), e) && Signals(Exec(s, evs), e)
    ensures var f := Exec(s, evs);
            Apply(f, e).owed - f.owed <= Apply(f, e).gate.Free()
    decreases |evs|
  {
    if evs == [] {
      WakesWithinRoomExactly(s, e);
    } else {
      WakesWithinRoomRun(Apply(s, evs[0]), evs[1..], e);
    }
  }

  /** After a shrink from 2 to 1 with both units in use, a release signals a caller there is no room for. */
  lemma WakesBeyondRoom()
    ensures var s := Apply(Apply(Apply(Init(2), Arrive(0, 1)), Arrive(1, 1)), SetLimit(1));
            && Enabled(s, Release(1))
            && Apply(s, Release(1)).owed - s.owed == 1 && Apply(s, Release(1)).gate.Free() == 0
  {
  }
}
