/**
 The scheduler object: a mutex-guarded ticket heap, arrival counter and stop
 flag.  Each method is one critical section, proved against QueueSpec.
 */
module Scheduler {
  import opened TicketOrder
  import opened TicketHeap
  import opened QueueSpec

  /** What a pass through waitPopHead's loop finds. */
  datatype PopResult = Wait | Finished | Popped(ticket: Ticket)

  class Scheduler {
    const cfg: QueueConfig
    const pq: Heap
    var seqNo: nat
    var stopped: bool

    ghost predicate Valid()
      reads this, pq, pq.Repr
    {
      this !in pq.Repr && pq.Valid() && forall k :: k in pq.Queue ==> k.seqNo <= seqNo
    }

    /** The state this object stands for. */
    ghost function State(): QueueState
      reads this, pq`Queue
    {
      QueueState(pq.Queue, seqNo, stopped)
    }

    constructor (cfg: QueueConfig)
      ensures Valid() && fresh(pq.Repr) && this.cfg == cfg
      ensures State() == QueueState([], 0, false)
    {
      this.cfg := cfg;
      pq := new Heap();
      seqNo := 0;
      stopped := false;
    }

    /** The two rejection tests at the head of Enqueue. */
    method Check(limitRead: int, meanRead: int) returns (reason: RejectReason)
      requires Valid()
      ensures reason == Decide(cfg, |State().queue|, limitRead, meanRead)
    {
      var depth := pq.n;
      if cfg.maxSize > 0 && depth >= cfg.maxSize {
        return RejectQueueFull;
      }
      if cfg.waitTimeout > 0 {
        var projected := ProjectedWait(depth, limitRead, meanRead);
        if projected.Some? && projected.value > cfg.waitTimeout {
          return RejectQueueWaitExceeded;
        }
      }
      return RejectNone;
    }

    /** Numbering and queueing of an accepted request. */
    method Add(score: real) returns (t: Ticket)
      requires Valid()
      modifies this`seqNo, pq.Repr
      ensures Valid() && fresh(pq.Repr - old(pq.Repr))
      ensures fresh(t) && t.key == Key(score, seqNo) && t in pq.Members()
      ensures seqNo == old(seqNo) + 1 && pq.Queue == Insert(old(pq.Queue), t.key)
    {
      hide Heap.Valid;
      seqNo := seqNo + 1;
      t := new Ticket(Key(score, seqNo));
      InsertMembers(pq.Queue, t.key);
      pq.HeapPush(t);
    }

    method Enqueue(score: real, limitRead: int, meanRead: int) returns (t: Ticket?, reason: RejectReason)
      requires Valid()
      modifies this`seqNo, pq.Repr
      ensures Valid() && fresh(pq.Repr - old(pq.Repr))
      ensures (State(), reason) == EnqueueSpec(cfg, old(State()), score, limitRead, meanRead)
      ensures t == null <==> reason != RejectNone
      ensures t != null ==> fresh(t) && t.key == Key(score, seqNo) && t in pq.Members()
    {
      hide Heap.Valid;
      reason := Check(limitRead, meanRead);
      if reason != RejectNone {
        return null, reason;
      }
      t := Add(score);
    }

    /** One pass of waitPopHead's loop condition and what follows it. */
    method TryPopHead() returns (r: PopResult)
      requires Valid()
      modifies pq.Repr
      ensures Valid() && pq.Repr == old(pq.Repr)
      ensures State() == PopSpec(old(State())).0
      ensures match PopSpec(old(State())).1
              case MustWait => r == Wait
              case Drained => r == Finished
              case Head(k) => r.Popped? && r.ticket.key == k && r.ticket in old(pq.Members()) && r.ticket !in pq.Members()
    {
      if pq.n == 0 {
        return if stopped then Finished else Wait;
      }
      var t := pq.HeapPop();
      r := Popped(t);
    }

    method Stop()
      requires Valid()
      modifies this`stopped
      ensures Valid() && State() == old(State()).(stopped := true)
    {
      stopped := true;
    }
  }
}
