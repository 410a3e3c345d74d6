/**
 The scheduler's two critical sections as functions on the sorted queue: the
 admission decision with its Little's-law projection, one enqueue, and one
 attempt to pop the head.
 */
module QueueSpec {
  import opened TicketOrder
  import opened Wrappers
  import opened Powers

  /** A field <= 0 means unbounded. Durations are integer nanoseconds. */
  datatype QueueConfig = QueueConfig(maxSize: int, waitTimeout: int)

  datatype RejectReason = RejectNone | RejectQueueFull | RejectQueueWaitExceeded

  /** depth * mean / limit, truncated to whole nanoseconds; unknown without data. */
  function ProjectedWait(depth: nat, limit: int, mean: int): Option<int> {
    if limit <= 0 || mean <= 0 then None else Some(depth * mean / limit)
  }

  function Decide(cfg: QueueConfig, depth: nat, limit: int, mean: int): RejectReason {
    if cfg.maxSize > 0 && depth >= cfg.maxSize then RejectQueueFull
    else if cfg.waitTimeout > 0 then
      var projected := ProjectedWait(depth, limit, mean);
      if projected.Some? && projected.value > cfg.waitTimeout then RejectQueueWaitExceeded else RejectNone
    else RejectNone
  }

  lemma FloorAbove(a: int, b: nat, t: int)
    requires b > 0
    ensures a / b > t <==> a >= (t + 1) * b
  {
    var q := a / b;
    assert q * b <= a < q * b + b;
    if q >= t + 1 {
      MulMono(t + 1, q, b);
    } else {
      MulMono(q + 1, t + 1, b);
    }
  }

  /** Exactly which requests are let in, for whatever limit and mean were read. */
  lemma AdmittedExactly(cfg: QueueConfig, depth: nat, limit: int, mean: int)
    ensures Decide(cfg, depth, limit, mean) == RejectNone <==>
            && (cfg.maxSize > 0 ==> depth < cfg.maxSize)
            && (cfg.waitTimeout > 0 && limit > 0 && mean > 0 ==> depth * mean < (cfg.waitTimeout + 1) * limit)
  {
    if limit > 0 {
      FloorAbove(depth * mean, limit, cfg.waitTimeout);
    }
  }

  /** Which rejection is given: full before slow. */
  lemma RejectedExactly(cfg: QueueConfig, depth: nat, limit: int, mean: int)
    ensures Decide(cfg, depth, limit, mean) == RejectQueueFull <==> 0 < cfg.maxSize <= depth
    ensures Decide(cfg, depth, limit, mean) == RejectQueueWaitExceeded <==>
            && !(0 < cfg.maxSize <= depth)
            && cfg.waitTimeout > 0 && limit > 0 && mean > 0 && depth * mean >= (cfg.waitTimeout + 1) * limit
  {
    AdmittedExactly(cfg, depth, limit, mean);
  }

  /** A request let in at some depth would be let in at any smaller one, and an empty queue lets everyone in. */
  lemma AdmissionDownwardClosed(cfg: QueueConfig, depth: nat, smaller: nat, limit: int, mean: int)
    requires smaller <= depth
    ensures Decide(cfg, depth, limit, mean) == RejectNone ==> Decide(cfg, smaller, limit, mean) == RejectNone
    ensures Decide(cfg, 0, limit, mean) == RejectNone
  {
    AdmittedExactly(cfg, depth, limit, mean);
    AdmittedExactly(cfg, smaller, limit, mean);
    AdmittedExactly(cfg, 0, limit, mean);
    if mean > 0 {
      MulMono(smaller, depth, mean);
      if cfg.waitTimeout > 0 && limit > 0 {
        assert 0 < (cfg.waitTimeout + 1) * limit;
      }
    }
  }

  /** What the scheduler's mutex guards. */
  datatype QueueState = QueueState(queue: seq<Key>, seqNo: nat, stopped: bool)

  /** Enqueue; the new ticket, if accepted, is Key(score, q'.seqNo). */
  function EnqueueSpec(cfg: QueueConfig, q: QueueState, score: real, limit: int, mean: int): (r: (QueueState, RejectReason)) {
    var reason := Decide(cfg, |q.queue|, limit, mean);
    if reason != RejectNone then (q, reason)
    else
      var k := Key(score, q.seqNo + 1);
      (q.(queue := Insert(q.queue, k), seqNo := q.seqNo + 1), RejectNone)
  }

  datatype PopOutcome = MustWait | Drained | Head(key: Key)

  /** waitPopHead past (or back into) its wait loop. */
  function PopSpec(q: QueueState): (r: (QueueState, PopOutcome)) {
    if q.queue == [] then (q, if q.stopped then Drained else MustWait)
    else (q.(queue := q.queue[1..]), Head(q.queue[0]))
  }

  /** The queue is in dispatch order and holds only numbers handed out so far. */
  ghost predicate QueueInv(cfg: QueueConfig, q: QueueState) {
    && Sorted(q.queue)
    && (forall k :: k in q.queue ==> 1 <= k.seqNo <= q.seqNo)
    && (cfg.maxSize > 0 ==> |q.queue| <= cfg.maxSize)
  }

  lemma AddKeepsInv(cfg: QueueConfig, q: QueueState, score: real)
    requires QueueInv(cfg, q) && (cfg.maxSize > 0 ==> |q.queue| < cfg.maxSize)
    ensures var k := Key(score, q.seqNo + 1);
            QueueInv(cfg, q.(queue := Insert(q.queue, k), seqNo := q.seqNo + 1))
  {
    var k := Key(score, q.seqNo + 1);
    InsertSorted(q.queue, k);
    InsertMembers(q.queue, k);
  }

  lemma EnqueueKeepsInv(cfg: QueueConfig, q: QueueState, score: real, limit: int, mean: int)
    requires QueueInv(cfg, q)
    ensures QueueInv(cfg, EnqueueSpec(cfg, q, score, limit, mean).0)
  {
    if Decide(cfg, |q.queue|, limit, mean) == RejectNone {
      AddKeepsInv(cfg, q, score);
    }
  }

  lemma PopKeepsInv(cfg: QueueConfig, q: QueueState)
    requires QueueInv(cfg, q)
    ensures QueueInv(cfg, PopSpec(q).0)
  {
  }
}
