/**
 Which costs the semaphore is safe for. Waiters also stand in line here, so
 that runs in which every Signal wakes the longest waiter, as Go's runtime
 does although sync.Cond does not promise it, can be told from the others.
 */
module FifoSemaphore {
  import opened S = Semaphore

  /** A semaphore and its sleepers, longest waiting first. */
  datatype Fifo = Fifo(sem: Sem, line: seq<Id>)

  predicate Served(f: Fifo, e: Event) {
    Enabled(f.sem, e) && (e.Signal? ==> f.line != [] && f.line[0] == e.id)
  }

  /** Whoever does not fit joins the end of the line; whoever is signalled leaves its head. */
  function Advance(f: Fifo, e: Event): Fifo
    requires Served(f, e)
  {
    Fifo(Apply(f.sem, e),
         match e
         case Arrive(id, cost) => if f.sem.gate.Fits(cost) then f.line else f.line + [id]
         case Recheck(id) => if f.sem.gate.Fits(f.sem.woken[id]) then f.line else f.line + [id]
         case Signal(_) => f.line[1..]
         case _ => f.line)
  }

  predicate Orderly(f: Fifo, evs: seq<Event>)
    decreases |evs|
  {
    evs == [] || (Served(f, evs[0]) && Orderly(Advance(f, evs[0]), evs[1..]))
  }

  function Play(f: Fifo, evs: seq<Event>): Fifo
    requires Orderly(f, evs)
    decreases |evs|
  {
    if evs == [] then f else Play(Advance(f, evs[0]), evs[1..])
  }

  function Start(limit: int): Fifo { Fifo(Init(limit), []) }

  /** A run in line is a run of the semaphore. */
  lemma {:induction false} OrderlyIsLegal(f: Fifo, evs: seq<Event>)
    requires Orderly(f, evs)
    ensures Legal(f.sem, evs) && Play(f, evs).sem == Exec(f.sem, evs)
    decreases |evs|
  {
    if evs != [] {
      OrderlyIsLegal(Advance(f, evs[0]), evs[1..]);
    }
  }

  lemma {:induction false} PlayAppend(f: Fifo, first: seq<Event>, rest: seq<Event>)
    requires Orderly(f, first) && Orderly(Play(f, first), rest)
    ensures Orderly(f, first + rest) && Play(f, first + rest) == Play(Play(f, first), rest)
    decreases |first|
  {
    if first == [] {
      assert first + rest == rest;
    } else {
      hide Served, Advance;
      PlayAppend(Advance(f, first[0]), first[1..], rest);
      assert (first + rest)[1..] == first[1..] + rest;
    }
  }

  lemma PlayCons(f: Fifo, e: Event, rest: seq<Event>)
    requires Served(f, e) && Orderly(Advance(f, e), rest)
    ensures Orderly(f, [e] + rest) && Play(f, [e] + rest) == Play(Advance(f, e), rest)
  {
    assert ([e] + rest)[1..] == rest;
  }

  // ---------- two costs: a wakeup can be lost ----------

  function Joined(f: Fifo, id: Id, cost: nat): Fifo {
    Fifo(f.sem.(parked := f.sem.parked[id := cost]), f.line + [id])
  }

  /** n callers, numbered from `first`, arrive one after the other and none fits. */
  function Arrivals(first: Id, n: nat, cost: nat): seq<Event>
    decreases n
  {
    if n == 0 then [] else [Arrive(first, cost)] + Arrivals(first + 1, n - 1, cost)
  }

  function Crowd(f: Fifo, first: Id, n: nat, cost: nat): Fifo
    decreases n
  {
    if n == 0 then f else Crowd(Joined(f, first, cost), first + 1, n - 1, cost)
  }

  lemma ArriveJoins(f: Fifo, id: Id, cost: nat)
    requires f.sem.woken == map[] && cost > 0 && !f.sem.gate.Fits(cost) && id !in f.sem.parked
    ensures Served(f, Arrive(id, cost)) && Advance(f, Arrive(id, cost)) == Joined(f, id, cost)
  {
  }

  lemma {:induction false} ArrivalsCrowd(f: Fifo, first: Id, n: nat, cost: nat)
    requires f.sem.woken == map[] && cost > 0 && !f.sem.gate.Fits(cost)
    requires forall id :: id in f.sem.parked ==> id < first
    ensures Orderly(f, Arrivals(first, n, cost)) && Play(f, Arrivals(first, n, cost)) == Crowd(f, first, n, cost)
    decreases n
  {
    if n > 0 {
      hide Served, Advance;
      ArriveJoins(f, first, cost);
      ArrivalsCrowd(Joined(f, first, cost), first + 1, n - 1, cost);
      PlayCons(f, Arrive(first, cost), Arrivals(first + 1, n - 1, cost));
    }
  }

  lemma {:induction false} CrowdFacts(f: Fifo, first: Id, n: nat, cost: nat)
    requires forall id :: id in f.sem.parked ==> id < first
    ensures var g := Crowd(f, first, n, cost);
            && g.sem == f.sem.(parked := g.sem.parked)
            && |g.line| == |f.line| + n && g.line[..|f.line|] == f.line
            && (forall i :: |f.line| <= i < |g.line| ==> g.line[i] in g.sem.parked && g.sem.parked[g.line[i]] == cost)
            && (forall id :: id in g.sem.parked ==> id < first + n)
            && (forall id :: id in f.sem.parked ==> id in g.sem.parked && g.sem.parked[id] == f.sem.parked[id])
    decreases n
  {
    if n > 0 {
      var j := Joined(f, first, cost);
      CrowdFacts(j, first + 1, n - 1, cost);
      var g := Crowd(f, first, n, cost);
      assert g.line[|f.line|] == g.line[..|j.line|][|f.line|] == first;
      assert g.line[..|f.line|] == g.line[..|j.line|][..|f.line|];
    }
  }

  /** The head of the line is signalled, finds no room and goes back to its end. */
  function Turned(f: Fifo): Fifo
    requires f.line != [] && f.sem.owed > 0
  {
    Fifo(f.sem.(owed := f.sem.owed - 1), f.line[1..] + [f.line[0]])
  }

  lemma TurnsAway(f: Fifo)
    requires f.line != [] && f.sem.owed > 0 && f.sem.woken == map[]
    requires f.line[0] in f.sem.parked && !f.sem.gate.Fits(f.sem.parked[f.line[0]])
    ensures Served(f, Signal(f.line[0]))
    ensures var f1 := Advance(f, Signal(f.line[0]));
            Served(f1, Recheck(f.line[0])) && Advance(f1, Recheck(f.line[0])) == Turned(f)
  {
    var id := f.line[0];
    var f1 := Advance(f, Signal(id));
    assert f1.sem.woken == map[id := f.sem.parked[id]] && f1.sem.woken - {id} == map[];
    assert (f.sem.parked - {id})[id := f.sem.parked[id]] == f.sem.parked;
  }

  /** The first n in line, each signalled once and turned away. */
  function Absorb(line: seq<Id>, n: nat): seq<Event>
    requires n <= |line|
    decreases n
  {
    if n == 0 then [] else [Signal(line[0])] + ([Recheck(line[0])] + Absorb(line[1..] + [line[0]], n - 1))
  }

  lemma {:induction false} AbsorbRun(f: Fifo, n: nat)
    requires f.sem.owed == n <= |f.line| && f.sem.woken == map[]
    requires forall i :: 0 <= i < n ==> f.line[i] in f.sem.parked && !f.sem.gate.Fits(f.sem.parked[f.line[i]])
    ensures Orderly(f, Absorb(f.line, n)) && Play(f, Absorb(f.line, n)).sem == f.sem.(owed := 0)
    ensures CostsIn(Absorb(f.line, n), {})
    decreases n
  {
    if n > 0 {
      hide Served, Advance;
      var id, g := f.line[0], Turned(f);
      TurnsAway(f);
      assert forall i :: 0 <= i < n - 1 ==> g.line[i] == f.line[i + 1];
      AbsorbRun(g, n - 1);
      var rest := Absorb(g.line, n - 1);
      PlayCons(Advance(f, Signal(id)), Recheck(id), rest);
      PlayCons(f, Signal(id), [Recheck(id)] + rest);
    }
  }

  lemma CostsAppend(a: seq<Event>, b: seq<Event>, costs: set<nat>)
    requires CostsIn(a, costs) && CostsIn(b, costs)
    ensures CostsIn(a + b, costs)
  {
    forall i | 0 <= i < |a + b| && (a + b)[i].Arrive? ensures (a + b)[i].cost in costs {
      assert (a + b)[i] == if i < |a| then a[i] else b[i - |a|];
    }
  }

  lemma CostsWiden(evs: seq<Event>, few: set<nat>, many: set<nat>)
    requires CostsIn(evs, few) && few <= many
    ensures CostsIn(evs, many)
  {
  }

  /** One caller of each cost fills the gate. */
  function Filled(small: nat, big: nat): Fifo {
    Fifo(S.Sem(S.Gate(small + big, small + big), map[], map[], map[small := 1, big := 1], 0), [])
  }

  lemma FillsUp(small: nat, big: nat)
    requires 0 < small < big
    ensures var evs := [Arrive(0, small)] + [Arrive(1, big)];
            Orderly(Start(small + big), evs) && Play(Start(small + big), evs) == Filled(small, big)
  {
    var f0 := Start(small + big);
    var f1 := Advance(f0, Arrive(0, small));
    assert f1 == Fifo(S.Sem(S.Gate(small + big, small), map[], map[], map[small := 1], 0), []);
    assert Advance(f1, Arrive(1, big)) == Filled(small, big);
    assert Play(Filled(small, big), []) == Filled(small, big);
    assert [Arrive(1, big)] + [] == [Arrive(1, big)];
    PlayCons(f1, Arrive(1, big), []);
    PlayCons(f0, Arrive(0, small), [Arrive(1, big)]);
  }

  /** Then `small` callers of the big cost and one of the small wait in line. */
  function Waiting(small: nat, big: nat): Fifo {
    Joined(Crowd(Filled(small, big), 2, small, big), 2 + small, small)
  }

  lemma WaitersCome(small: nat, big: nat)
    requires 0 < small < big
    ensures var evs := Arrivals(2, small, big) + Arrivals(2 + small, 1, small);
            Orderly(Filled(small, big), evs) && Play(Filled(small, big), evs) == Waiting(small, big)
  {
    hide Orderly, Play, Arrivals;
    var f := Filled(small, big);
    ArrivalsCrowd(f, 2, small, big);
    CrowdFacts(f, 2, small, big);
    ArrivalsCrowd(Crowd(f, 2, small, big), 2 + small, 1, small);
    CrowdOfOne(Crowd(f, 2, small, big), 2 + small, small);
    PlayAppend(f, Arrivals(2, small, big), Arrivals(2 + small, 1, small));
  }

  lemma CrowdOfOne(f: Fifo, id: Id, cost: nat)
    ensures Crowd(f, id, 1, cost) == Joined(f, id, cost)
  {
  }

  /** The small holder releases; its signals go to the head of the line, where nobody fits, and run out before
      they reach the one who does. */
  lemma ReleaseWasted(small: nat, big: nat) returns (evs: seq<Event>)
    requires 0 < small < big
    ensures CostsIn(evs, {}) && Orderly(Waiting(small, big), evs) && LostWakeup(Play(Waiting(small, big), evs).sem)
  {
    hide Orderly, Play, Crowd, Absorb, Arrivals;
    var f := Waiting(small, big);
    CrowdFacts(Filled(small, big), 2, small, big);
    var g := Advance(f, Release(small));
    assert g.sem.gate == S.Gate(small + big, big) && g.sem.owed == small && g.line == f.line;
    assert forall i :: 0 <= i < small ==> g.line[i] in g.sem.parked && g.sem.parked[g.line[i]] == big;
    AbsorbRun(g, small);
    PlayCons(f, Release(small), Absorb(g.line, small));
    evs := [Release(small)] + Absorb(g.line, small);
    assert 2 + small in g.sem.parked;
  }

  /** For any two costs: a run on a gate that has room for either, in which every signal wakes the longest waiter,
      to a caller asleep for good beside room enough. */
  lemma MixedCostsLoseWakeup(small: nat, big: nat) returns (limit: int, evs: seq<Event>)
    requires 0 < small < big
    ensures limit >= big && CostsIn(evs, {small, big})
    ensures Orderly(Start(limit), evs) && LostWakeup(Play(Start(limit), evs).sem)
  {
    limit := small + big;
    var fill := [Arrive(0, small)] + [Arrive(1, big)];
    var come, last := Arrivals(2, small, big), Arrivals(2 + small, 1, small);
    FillsUp(small, big);
    WaitersCome(small, big);
    var wasted := ReleaseWasted(small, big);
    PlayAppend(Filled(small, big), come + last, wasted);
    PlayAppend(Start(limit), fill, come + last + wasted);
    evs := fill + (come + last + wasted);
    ArrivalsCost(2, small, big);
    ArrivalsCost(2 + small, 1, small);
    hide Arrivals, Orderly, Play;
    CostsWiden(come, {big}, {small, big});
    CostsWiden(last, {small}, {small, big});
    CostsWiden(wasted, {}, {small, big});
    CostsAppend(come, last, {small, big});
    CostsAppend(come + last, wasted, {small, big});
    CostsAppend(fill, come + last + wasted, {small, big});
  }

  lemma {:induction false} ArrivalsCost(first: Id, n: nat, cost: nat)
    ensures CostsIn(Arrivals(first, n, cost), {cost})
    decreases n
  {
    if n > 0 {
      ArrivalsCost(first + 1, n - 1, cost);
      CostsAppend([Arrive(first, cost)], Arrivals(first + 1, n - 1, cost), {cost});
    }
  }

  // ---------- exactly which costs are safe ----------

  ghost predicate NeverLoses(costs: set<nat>) {
    forall limit, evs :: Legal(Init(limit), evs) && CostsIn(evs, costs) ==> !LostWakeup(Exec(Init(limit), evs))
  }

  ghost predicate NeverLosesInLine(costs: set<nat>) {
    forall limit, evs :: Orderly(Start(limit), evs) && CostsIn(evs, costs) ==> !LostWakeup(Play(Start(limit), evs).sem)
  }

  lemma {:induction false} LegalCostsPositive(s: Sem, evs: seq<Event>, costs: set<nat>, c: nat)
    requires Legal(s, evs) && CostsIn(evs, costs) && costs - {0} <= {c}
    ensures CostsIn(evs, {c})
    decreases |evs|
  {
    if evs != [] {
      assert CostsIn(evs[1..], costs) by {
        assert forall i :: 0 <= i < |evs[1..]| ==> evs[1..][i] == evs[i + 1];
      }
      LegalCostsPositive(Apply(s, evs[0]), evs[1..], costs, c);
      CostsAppend([evs[0]], evs[1..], {c});
      assert [evs[0]] + evs[1..] == evs;
    }
  }

  /** A set with no two members is empty or a singleton. */
  lemma AtMostOne(costs: set<nat>) returns (c: nat)
    requires |costs - {0}| <= 1
    ensures c > 0 && costs - {0} <= {c}
  {
    var rest := costs - {0};
    if rest == {} {
      c := 1;
    } else {
      c :| c in rest;
      assert |rest - {c}| == 0;
    }
  }

  lemma TwoOf(costs: set<nat>) returns (small: nat, big: nat)
    requires |costs - {0}| > 1
    ensures 0 < small < big && {small, big} <= costs
  {
    var rest := costs - {0};
    assert rest != {};
    var a :| a in rest;
    assert |rest - {a}| > 0;
    var b :| b in rest - {a};
    small, big := if a < b then a else b, if a < b then b else a;
  }

  /** Bounded signalling loses no wakeup exactly when all costs in use are one, whether a signal wakes any waiter
      or always the longest waiting. */
  lemma WakeupsSafeExactlyForOneCost(costs: set<nat>)
    ensures NeverLoses(costs) <==> |costs - {0}| <= 1
    ensures NeverLosesInLine(costs) <==> |costs - {0}| <= 1
  {
    if |costs - {0}| <= 1 {
      var c := AtMostOne(costs);
      forall limit, evs | Legal(Init(limit), evs) && CostsIn(evs, costs)
        ensures !LostWakeup(Exec(Init(limit), evs))
      {
        LegalCostsPositive(Init(limit), evs, costs, c);
        UniformCostLosesNoWakeup(limit, evs, c);
      }
      forall limit, evs | Orderly(Start(limit), evs) && CostsIn(evs, costs)
        ensures !LostWakeup(Play(Start(limit), evs).sem)
      {
        OrderlyIsLegal(Start(limit), evs);
        LegalCostsPositive(Init(limit), evs, costs, c);
        UniformCostLosesNoWakeup(limit, evs, c);
      }
    } else {
      var small, big := TwoOf(costs);
      var limit, evs := MixedCostsLoseWakeup(small, big);
      CostsWiden(evs, {small, big}, costs);
      OrderlyIsLegal(Start(limit), evs);
      assert Legal(Init(limit), evs) && LostWakeup(Exec(Init(limit), evs));
    }
  }
}
