/**
 Who goes first: how many other tickets are popped while one ticket waits,
 counted exactly.
 */
module Overtaking {
  import opened TicketOrder
  import opened QueueSpec
  import opened AdmissionProtocol

  /** How many queued tickets are dispatched before t. */
  function Position(q: seq<Key>, t: Key): nat {
    if q == [] then 0 else One(Before(q[0], t)) + Position(q[1..], t)
  }

  function AtLeastScore(q: seq<Key>, score: real): nat {
    if q == [] then 0 else One(q[0].score >= score) + AtLeastScore(q[1..], score)
  }

  predicate PopsOther(s: Sys, e: Event, t: Key) {
    e.TryPop? && s.q.queue != [] && s.q.queue[0] != t
  }

  predicate ArrivesHigher(s: Sys, e: Event, t: Key) {
    Accepts(s, e) && e.score > t.score
  }

  /** t is in the queue before and after every event of the run. */
  predicate Waits(s: Sys, evs: seq<Event>, t: Key)
    requires Legal(s, evs)
    decreases |evs|
  {
    t in s.q.queue && (evs != [] ==> Waits(Apply(s, evs[0]), evs[1..], t))
  }

  function OthersPopped(s: Sys, evs: seq<Event>, t: Key): nat
    requires Legal(s, evs)
    decreases |evs|
  {
    if evs == [] then 0
    else One(PopsOther(s, evs[0], t)) + OthersPopped(Apply(s, evs[0]), evs[1..], t)
  }

  function HigherArrivals(s: Sys, evs: seq<Event>, t: Key): nat
    requires Legal(s, evs)
    decreases |evs|
  {
    if evs == [] then 0
    else One(ArrivesHigher(s, evs[0], t)) + HigherArrivals(Apply(s, evs[0]), evs[1..], t)
  }

  lemma {:induction false} PositionAfterInsert(q: seq<Key>, k: Key, t: Key)
    ensures Position(Insert(q, k), t) == Position(q, t) + One(Before(k, t))
  {
    if q != [] && !Before(k, q[0]) {
      PositionAfterInsert(q[1..], k, t);
      assert Insert(q, k)[1..] == Insert(q[1..], k);
    } else {
      assert Insert(q, k)[1..] == q;
    }
  }

  /** A fresh arrival stands behind exactly the tickets of at least its score. */
  lemma {:induction false} PositionOfArrival(q: seq<Key>, t: Key)
    requires forall k :: k in q ==> k.seqNo < t.seqNo
    ensures Position(Insert(q, t), t) == AtLeastScore(q, t.score)
  {
    PositionAfterInsert(q, t, t);
    PositionIsScoreCount(q, t);
  }

  lemma {:induction false} PositionIsScoreCount(q: seq<Key>, t: Key)
    requires forall k :: k in q ==> k.seqNo < t.seqNo
    ensures Position(q, t) == AtLeastScore(q, t.score)
  {
    if q != [] {
      assert q[0] in q;
      PositionIsScoreCount(q[1..], t);
    }
  }

  /** The head of the queue stands behind nobody. */
  lemma {:induction false} HeadPosition(q: seq<Key>, t: Key)
    requires forall k :: k in q ==> !Before(k, t)
    ensures Position(q, t) == 0
  {
    if q != [] {
      HeadPosition(q[1..], t);
    }
  }

  lemma PositionStep(s: Sys, e: Event, t: Key)
    requires Inv(s) && Enabled(s, e) && t in s.q.queue && t in Apply(s, e).q.queue
    ensures One(PopsOther(s, e, t)) + Position(Apply(s, e).q.queue, t) ==
            Position(s.q.queue, t) + One(ArrivesHigher(s, e, t))
  {
    if Accepts(s, e) {
      PositionAfterInsert(s.q.queue, NewTicket(s, e), t);
    } else if e.TryPop? {
      var q := s.q.queue;
      HeadRanksFirst(q, t);
      assert q[0] !in q[1..] by {
        assert forall j :: 0 < j < |q| ==> Before(q[0], q[j]);
      }
    }
  }

  /** Over any stretch of a run in which t waits. */
  lemma {:induction false} OvertakingBalance(s: Sys, evs: seq<Event>, t: Key)
    requires Inv(s) && Legal(s, evs) && Waits(s, evs, t)
    ensures OthersPopped(s, evs, t) + Position(Exec(s, evs).q.queue, t) ==
            Position(s.q.queue, t) + HigherArrivals(s, evs, t)
    decreases |evs|
  {
    if evs != [] {
      InvStep(s, evs[0]);
      PositionStep(s, evs[0], t);
      OvertakingBalance(Apply(s, evs[0]), evs[1..], t);
    }
  }

  lemma ArrivalPosition(s: Sys, arrival: Event)
    requires Inv(s) && Accepts(s, arrival)
    ensures var t := NewTicket(s, arrival);
            Position(Apply(s, arrival).q.queue, t) == AtLeastScore(s.q.queue, t.score)
  {
    PositionOfArrival(s.q.queue, NewTicket(s, arrival));
  }

  lemma PoppedPosition(s: Sys, t: Key)
    requires Inv(s) && Enabled(s, TryPop) && Apply(s, TryPop).pc == Granting(t)
    ensures Position(s.q.queue, t) == 0
  {
    var q := s.q.queue;
    forall k | k in q ensures !Before(k, t) {
      HeadRanksFirst(q, k);
    }
    HeadPosition(q, t);
  }

  /**
   From its accepted arrival to its own pop, a ticket sees popped exactly the
   tickets that were queued with at least its score, plus the later arrivals
   with a strictly higher score: equal scores never overtake.
   */
  lemma ExactOvertaking(s: Sys, arrival: Event, evs: seq<Event>)
    requires Inv(s) && Accepts(s, arrival)
    requires Legal(Apply(s, arrival), evs) && Waits(Apply(s, arrival), evs, NewTicket(s, arrival))
    requires var f := Exec(Apply(s, arrival), evs);
             Enabled(f, TryPop) && Apply(f, TryPop).pc == Granting(NewTicket(s, arrival))
    ensures var t := NewTicket(s, arrival);
            OthersPopped(Apply(s, arrival), evs, t) ==
            AtLeastScore(s.q.queue, t.score) + HigherArrivals(Apply(s, arrival), evs, t)
  {
    var s1 := Apply(s, arrival);
    InvStep(s, arrival);
    InvRun(s1, evs);
    ArrivalPosition(s, arrival);
    OvertakingBalance(s1, evs, NewTicket(s, arrival));
    PoppedPosition(Exec(s1, evs), NewTicket(s, arrival));
  }
}
