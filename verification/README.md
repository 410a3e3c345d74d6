# Verification model of the admission-control modules

Two Caddy handlers cooperate in this repository. `fairness` classifies a request, gives it a score that falls with
the recent load of its source, and recognises returning browsers by a signed session cookie. `adaptive_admission`
queues requests by that score in front of a backend and admits them as a self-tuning concurrency limit allows. This
project models both in Dafny and proves properties of the model.

| part | files | what is proved |
|---|---|---|
| Semaphore | `Semaphore`, `FifoSemaphore` | `Acquire`/`Release`/`wake` with any number of callers as a step system; for which costs bounded signalling loses no wakeup |
| Admission protocol | `AdmissionProtocol`, `ProtocolSafety`, `ProtocolLiveness`, `Overtaking` | requests, the dispatch loop, the adjustment loop and `Stop` interleaved; invariant, work conservation, shrink overshoot, draining, what panics cost, who overtakes whom |
| Queue | `TicketOrder`, `TicketHeap`, `QueueSpec`, `Scheduler`, `ProtocolObjects` | the in-place ticket heap refines a sorted queue; the scheduler object refines the queue specification the protocol is built on; scheduler and controller objects carry out the protocol's events |
| Controller | `Powers`, `Histogram`, `Percentile`, `OutcomeWindow`, `LimitPolicy`, `Controller` | the ring buffer and histogram are the last samples; the reported percentile against nearest rank; cooldowns, envelope and convergence of the limit |
| Scoring | `Ewma`, `Scoring`, `ScoringLog`, `ScoreComposition` | the per-dimension maps against their event log; EWMA bounds; penalties, clamp, divisor |
| Session cookie | `Decimal`, `SessionCookie`, `SessionRenewal` | what a cookie is accepted as; round trip; identity, renewal and survival over runs with key rotation |

How it fits together. An event of the protocol is one critical section, or one delivered `Signal`; a run is any
sequence of events that are enabled one after the other, so a statement about all runs is a statement about all
interleavings. The classes `Scheduler.Scheduler` and `Controller.Controller` mirror the program's objects, one method
per critical section, and each method is proved equal to the function (`EnqueueSpec`, `PopSpec`, `Gate.Fits`/`Take`/`Give`,
`Adjust`, `SignalsFor`) that the protocol's `Apply` uses; `ProtocolObjects` puts the two objects together, one method
per event. The dispatcher is one caller of the semaphore, by a step
refinement, so the wakeup invariant is proved once. `Signal` may wake any waiter, since
`sync.Cond` promises no order; what fails in that model is shown to fail also if the longest waiter is always woken.

Scores, rates, EWMA values, percentile ranks and histogram edges are exact reals; durations and times are integer
nanoseconds; the limit's multipliers are exact percentages rounded to the nearest integer, halves away from zero.
Clocks, random ids, query strings, the outcome of the next handler and the secrets are parameters.

Where the code differs from what its comments or documentation say, the model follows the code:

- `bucketUpperBound` reports a bucket's lower edge, so between 1 ms and 60 s the p95 is under-reported, by less than
  one growth factor and one nanosecond (`Histogram.ReportedIsLowerEdge`).
- The lookahead unit does affect admission: after a shrink one request may be granted although the limit is used up
  (`ProtocolSafety.OvershootAtMostHeldUnit`, `ProtocolSafety.GrantableWhileSaturatedExactly`).
- A release or a limit increase can wake more callers than there is capacity for: exactly when a shrink has cut into
  capacity in use (`Semaphore.WakesWithinRoomExactly`, `Semaphore.WakesBeyondRoom`).
- A request whose handler panics never releases its unit. Once panics have lost as many units as the limit, no queued
  request is granted at that limit beyond one whose unit is already in hand, and `Stop` never returns
  unless the loop was past needing another one (`ProtocolLiveness.GrantableAtThisLimitExactly`,
  `ProtocolLiveness.EndsAtThisLimitExactly`).
- `Enqueue` does not look at the stop flag; a request accepted after the dispatch loop has left is never granted
  (`ProtocolSafety.QueuedAfterExitIsStranded`, `ProtocolLiveness.GrantableExactlyBeforeExit`).
- A branch of `adjust` in its cooldown gives way to the branches below it, growth included, and any branch raises a limit
  that lies below min; so the limit can rise while timeouts are over their threshold (`LimitPolicy.RisesDespiteTimeouts`,
  with three such inputs in `LimitPolicy.RisesUnderTimeouts`).
- `min_concurrency` may exceed `max_concurrency`; the clamp then yields one of the two bounds (`LimitPolicy.ClampConfinesExactly`).
  The same holds of the score clamp, whose confinement the divisor then undoes unless 0 lies between the bounds
  (`ScoreComposition.ScoreConfinedExactly`, `ScoreComposition.ConfinedAfterDivisionExactly`).
- A divisor above 1 raises a negative score (`ScoreComposition.DivisorLowersExactly`).
- `alpha` is not confined to [0, 1], nor are the penalty tiers required to ascend or thresholds to be positive
  (`Ewma.RangeKeptExactly`, `Ewma.NeverOverExactly`, `ScoreComposition.NeverRewardsLoadExactly`).
- A key id may be so long that every cookie it signs is refused (`SessionCookie.KidLengthExactly`).
- An expiry that `time.Unix` cannot represent wraps to before the epoch, so its cookie reads as expired although its
  MAC is right (`SessionCookie.UnixTimeExactly`, `SessionCookie.RoundTripRepresentable`).
- A second cookie can follow within half a lifetime: at once at a block that signs with another key, early at one with
  a longer lifetime, and up to a second early anywhere, since expiries lose their fraction of a second
  (`SessionRenewal.HalfLifetimeKeptExactly`, with an input in `SessionRenewal.LongerLifetimeResendsAtOnce`).

## Model

| member | source | states |
|---|---|---|
| Semaphore.WakeupsCoverFreeCapacity | adaptiveadmission/capacity.go:364-421 | for any number of callers of Acquire(1) and every interleaving with releases, signal deliveries and limit changes: while anybody sleeps, signals still owed plus callers already woken are at least the free capacity |
| Semaphore.UniformCostLosesNoWakeup | adaptiveadmission/capacity.go:364-421 | with one common cost, no reachable state with no signal owed and nobody woken has a sleeper that would fit |
| FifoSemaphore.MixedCostsLoseWakeup | adaptiveadmission/capacity.go:361-371 | for any two different costs, a run on a gate with room for either, every signal waking the longest waiter, that leaves a caller asleep for good beside enough free capacity |
| FifoSemaphore.WakeupsSafeExactlyForOneCost | adaptiveadmission/capacity.go:361-421 | for any set of costs, bounded signalling never loses a wakeup if and only if at most one positive cost is in it, both when a signal may wake any waiter and when it always wakes the longest waiting |
| Semaphore.WakeStep | adaptiveadmission/capacity.go:364-421 | every single event keeps the wakeup invariant |
| Semaphore.OnlySignalsAdd | adaptiveadmission/capacity.go:417-421 | only releases and raises of the limit add to the signals owed |
| Semaphore.WakesWithinRoomExactly | adaptiveadmission/capacity.go:253-258 | a release or a raise of the limit signals no more than there is then room for if and only if capacity in use did not exceed the limit before |
| Semaphore.WakesWithinRoomRun | adaptiveadmission/capacity.go:253-258 | over any run in which no shrink goes below capacity in use, every release and raise signals within the room there is |
| Semaphore.WakesBeyondRoom | adaptiveadmission/capacity.go:253-258 | after a shrink from 2 to 1 with two units in use, a release signals one caller and leaves no room |
| AdmissionProtocol.StepRefinesSemaphore | adaptiveadmission/queue.go:207-233 | every event of the admission protocol is one event of the semaphore with the dispatcher as its only caller, or does not touch it |
| AdmissionProtocol.InvStep | adaptiveadmission/queue.go:146-233 | every event keeps the whole invariant: limit at least 1, units accounted for, queue in dispatch order and within its bound, every accepted ticket in one place, dispatcher asleep only on an empty unstopped queue, wakeups covered |
| AdmissionProtocol.AccountedStep | adaptiveadmission/queue.go:158-233 | no event loses or duplicates a ticket between arrival, queue, dispatcher and grant |
| ProtocolSafety.ReachableInv | adaptiveadmission/queue.go:207-233 | the invariant holds in every reachable state |
| ProtocolSafety.UnitConservation | adaptiveadmission/dispatch.go:20-46 | in every reachable state capacity in use is the number of granted, unreleased requests, plus those whose handler panicked, plus the at most one unit the dispatcher holds |
| ProtocolSafety.AcceptedInOnePlace | adaptiveadmission/module.go:170-211 | in every reachable state a ticket is queued, about to be granted or granted, exactly once in all if it was accepted and not at all otherwise; only granted requests run |
| ProtocolSafety.QueueNeverExceedsMaxSize | adaptiveadmission/queue.go:158-166 | over any run the queue never outgrows a positive MaxSize |
| ProtocolSafety.RunningUnderPeakLimit | adaptiveadmission/capacity.go:364-371 | requests running and lost to panics never exceed the largest limit of the run; a fixed limit is never exceeded |
| ProtocolSafety.RunningUnderAdaptiveMax | adaptiveadmission/capacity.go:512-515 | whatever is read at whatever time, an adaptive controller never has more requests running and lost than the largest of initial, min and max; with min <= max, than max(initial, max) |
| ProtocolSafety.WorkConservation | adaptiveadmission/queue.go:207-233 | while the dispatch loop is alive, in any reachable state in which no internal step is possible, a waiting request implies that requests running and lost to panics use up the limit |
| ProtocolSafety.QueuedAfterExitIsStranded | adaptiveadmission/queue.go:158-177 | a run to an idle state with a queued request and free capacity, the loop having left |
| ProtocolSafety.OvershootAtMostHeldUnit | adaptiveadmission/queue.go:207-218 | over any stretch with the limit used up throughout, grants plus units then held are at most the units held at its start, and capacity in use does not rise |
| ProtocolSafety.GrantableWhileSaturatedExactly | adaptiveadmission/queue.go:207-218 | with the limit used up, some stretch of a run in which it stays so grants a request if and only if the dispatcher holds a unit it is not about to give back, wherever in its loop it stands |
| ProtocolSafety.HeldUnitOutlivesShrink | adaptiveadmission/queue.go:15-20 | from any invariant state with the dispatcher holding a unit it is not about to give back, whatever limit is then set, a run grants one more request without any unit being returned or reserved |
| ProtocolSafety.LookaheadGrantsAboveLimit | adaptiveadmission/queue.go:15-20 | a run from the start that ends with a grant leaving two requests running under a limit of 1 |
| ProtocolLiveness.MeasureDrops | adaptiveadmission/queue.go:207-233 | every internal step or return of a request strictly lowers one measure of the state |
| ProtocolLiveness.StuckMeans | adaptiveadmission/queue.go:207-233 | a state from which nothing more happens by itself is the finished loop, the dispatcher waiting on an empty queue, or the dispatcher waiting for capacity when panics have lost the whole limit; there is no other deadlock |
| ProtocolLiveness.DrainGrantsAll | adaptiveadmission/queue.go:207-233 | with less lost to panics than the limit, a drained state has every accepted ticket granted exactly once, nothing queued or running, and no capacity in use but what was lost and the dispatcher's unit |
| ProtocolLiveness.StopDrains | adaptiveadmission/queue.go:143-152 | after Stop, unless the loop already left requests behind, every schedule without arrivals, panics or limit changes is no longer than the measure; where it cannot go on the loop has left or waits for capacity wholly lost to panics, and with less lost than the limit the queue is empty, every accepted ticket was granted exactly once and only lost capacity is in use |
| ProtocolLiveness.GrantableAtThisLimitExactly | adaptiveadmission/queue.go:207-233 | with no further limit change, a queued ticket can still be granted if and only if the dispatch loop has not decided to leave and panics have lost less than the limit, or the dispatcher is about to pop that ticket with a unit in hand |
| ProtocolLiveness.GrantableExactlyBeforeExit | adaptiveadmission/queue.go:158-177 | a queued ticket can still be granted, raising the limit if need be, if and only if the dispatch loop has not decided to leave |
| ProtocolLiveness.EndsAtThisLimitExactly | adaptiveadmission/queue.go:143-152 | with no further limit change, the dispatch loop can still end, and Stop return, if and only if panics have lost less than the limit, or the loop is ending already, or the dispatcher holds a unit and finds no ticket queued |
| Overtaking.OvertakingBalance | adaptiveadmission/queue.go:86-92 | over any stretch in which a ticket waits, others popped plus its position at the end equal its position at the start plus arrivals of strictly higher score |
| Overtaking.ArrivalPosition | adaptiveadmission/queue.go:158-177 | an accepted ticket starts behind exactly the queued tickets of at least its score |
| Overtaking.ExactOvertaking | adaptiveadmission/queue.go:86-92 | between its arrival and its pop, exactly the tickets already queued with at least its score and the later arrivals with a strictly higher score go first; equal scores never overtake |
| TicketOrder.SortedUnique | adaptiveadmission/queue.go:86-92 | a set of tickets has only one dispatch order |
| TicketOrder.OrderedPush | adaptiveadmission/queue.go:98-102 | whatever order the tickets are stored in, adding one inserts it in the dispatch order |
| TicketOrder.OrderedPop | adaptiveadmission/queue.go:103-111 | whatever order the tickets are stored in, taking out the first-ranking one beheads the dispatch order |
| TicketHeap.RootIsFirst | adaptiveadmission/queue.go:81-92 | in heap order no entry ranks before the root |
| TicketHeap.SiftUpStep | adaptiveadmission/queue.go:84-97 | swapping a misplaced entry with its parent moves the only bad edge up one level |
| TicketHeap.SiftDownStep | adaptiveadmission/queue.go:84-97 | swapping with the first-ranking child moves the only bad edges down one level |
| TicketHeap.Heap.Less | adaptiveadmission/queue.go:87-92 | compares stored tickets by score descending, then arrival ascending |
| TicketHeap.Heap.Swap | adaptiveadmission/queue.go:93-97 | exchanges two entries in place, and every ticket's index is again its position |
| TicketHeap.Heap.Push | adaptiveadmission/queue.go:98-102 | appends in place; every ticket's index is its position |
| TicketHeap.Heap.Pop | adaptiveadmission/queue.go:103-111 | removes the last entry in place, its index becoming -1, the others' staying their positions |
| TicketHeap.Heap.HeapPush | adaptiveadmission/queue.go:172-174 | keeps heap order, indices and the ticket set, and is one insertion into the sorted queue |
| TicketHeap.Heap.HeapPop | adaptiveadmission/queue.go:229-233 | keeps heap order and indices and returns exactly the head of the sorted queue, so draining yields the dispatch order |
| QueueSpec.AdmittedExactly | adaptiveadmission/queue.go:158-201 | a request is let in if and only if the depth is below a positive MaxSize and, with a timeout T and known limit and mean, depth * mean < (T + 1) * limit |
| QueueSpec.RejectedExactly | adaptiveadmission/queue.go:162-170 | queue_full exactly at a depth of at least a positive MaxSize, queue_wait_exceeded exactly below it with depth * mean >= (T + 1) * limit |
| QueueSpec.AdmissionDownwardClosed | adaptiveadmission/queue.go:158-201 | admission at some depth implies admission at any smaller depth for the same readings, and an empty queue rejects nobody |
| QueueSpec.EnqueueKeepsInv | adaptiveadmission/queue.go:158-177 | an enqueue keeps the queue in dispatch order, its numbers handed out and its size bounded |
| Scheduler.Scheduler.constructor | adaptiveadmission/queue.go:130-134 | starts empty, unnumbered and not stopped |
| Scheduler.Scheduler.Check | adaptiveadmission/queue.go:158-170 | the two early returns decide as the admission rule does |
| Scheduler.Scheduler.Enqueue | adaptiveadmission/queue.go:158-177 | on the heap, has exactly the effect and result of the queue specification; a ticket is returned only if accepted, carries the next number and is in the heap |
| Scheduler.Scheduler.TryPopHead | adaptiveadmission/queue.go:223-233 | one pass of the wait loop: waits, finishes or hands out the ticket of the first-ranking key, as the queue specification says |
| Scheduler.Scheduler.Stop | adaptiveadmission/queue.go:146-152 | sets the stop flag and nothing else of the queue |
| ProtocolObjects.EnqueueStep | adaptiveadmission/queue.go:158-177 | on objects that agree with a protocol state, Enqueue is the protocol's enqueue event, for whatever limit and mean were read |
| ProtocolObjects.StopStep | adaptiveadmission/queue.go:146-152 | setting the stop flag is the stop event of the protocol |
| ProtocolObjects.AcquireStep | adaptiveadmission/queue.go:210 | one pass of Acquire(1) is the protocol's acquire event, and succeeds exactly when the dispatcher goes on to pop |
| ProtocolObjects.PopStep | adaptiveadmission/queue.go:211 | one pass of waitPopHead is the protocol's pop event: it sleeps, leaves or goes on to grant the same ticket |
| ProtocolObjects.LeaveStep | adaptiveadmission/queue.go:212-215 | returning the unused unit is the protocol's leave event, with as many signals owed |
| ProtocolObjects.ReleaseStep | adaptiveadmission/dispatch.go:26-34 | dispatch, once the next handler has returned, is the protocol's release event, with as many signals owed |
| ProtocolObjects.AdjustStep | adaptiveadmission/capacity.go:479-526 | an adjustment on any window is one of the protocol's limit changes to a positive limit, with as many signals owed |
| Histogram.FloorLog | adaptiveadmission/capacity.go:126 | the greatest index whose edge does not exceed the value |
| Histogram.BucketMonotone | adaptiveadmission/capacity.go:118-134 | a longer latency never falls into an earlier bucket |
| Histogram.BucketEdges | adaptiveadmission/capacity.go:118-134 | from 1 ms to below 60 s, bucket i holds exactly the latencies from f^i up to but not including f^(i+1) milliseconds |
| Histogram.BucketEnds | adaptiveadmission/capacity.go:118-125 | everything up to 1 ms falls into bucket 0 and everything from 60 s into bucket 255 |
| Histogram.BucketUpperBound | adaptiveadmission/capacity.go:136-141 | f^i milliseconds, cut to whole nanoseconds |
| Histogram.ReportedIsLowerEdge | adaptiveadmission/capacity.go:136-141 | the reported value is at most the true latency if and only if that is at least 1 ms, and below 60 s within one growth factor of it, up to the nanosecond cut off |
| Percentile.RankByCount | loadtest/sweep.go:218-233 | the bucket counts up to b reach a rank if and only if the sorted sample of that rank lies in a bucket up to b |
| Percentile.FirstBucketReaching | adaptiveadmission/capacity.go:226-233 | the first bucket whose cumulative count reaches a rank is the bucket of the sorted sample of that rank |
| Percentile.NearestRankExactly | loadtest/sweep.go:218-233 | for 0 < p <= 100 the percentile of the sorted samples is v if and only if v is a sample at or under which at least p percent of them lie and under which fewer do |
| Percentile.NearestRankEnds | loadtest/sweep.go:221-233 | the smallest sample for p of 0 or less, the largest for p above 100, 0 without samples |
| Percentile.SummarizeLevel | loadtest/sweep.go:190-216 | request and error totals over all workers, the throughput that multiplied by the window gives the requests (0 without a window), and nearest-rank p50, p95 and p99 of all latencies sorted |
| Percentile.WorkerAdds | loadtest/sweep.go:190-198 | those totals and latencies are nothing without workers, and each worker adds its own |
| OutcomeWindow.WindowIsLastSamples | adaptiveadmission/capacity.go:155-208 | after any sequence of recordings the window is exactly the last min(n, size) samples, oldest first |
| OutcomeWindow.TruncDiv | adaptiveadmission/capacity.go:212-217 | integer division truncates toward zero |
| OutcomeWindow.Window.constructor | adaptiveadmission/capacity.go:171-176 | an empty window; a size of zero or less becomes 100 |
| OutcomeWindow.Window.Record | adaptiveadmission/capacity.go:180-208 | adds the sample, the oldest one leaving a full window, and every bucket count and total is again that of the samples in the window |
| OutcomeWindow.Window.MeanLatency | adaptiveadmission/capacity.go:212-217 | the mean of exactly the samples in the window |
| OutcomeWindow.Window.TimeoutRate | adaptiveadmission/capacity.go:237-242 | the fraction of timeouts among exactly the samples in the window |
| OutcomeWindow.Window.ErrorRate | adaptiveadmission/capacity.go:244-249 | the fraction of errors among exactly the samples in the window |
| OutcomeWindow.TotalsByCounting | adaptiveadmission/capacity.go:155-208 | the totals kept are how many samples of the window timed out, failed, or lie in each bucket |
| OutcomeWindow.Window.PercentileOf | adaptiveadmission/capacity.go:219-235 | 0 on an empty window; for 0 < p <= 1 the value of the bucket up to which at least the p-fraction of the window's samples lie and below which fewer do; the final return is taken only for ranks beyond the total |
| OutcomeWindow.HistogramAgreesWithNearestRank | adaptiveadmission/capacity.go:219-235 | for 0 < p <= 1 the window's percentile is the lower edge of the bucket of the load test's nearest-rank percentile, with the two error bounds of the histogram |
| LimitPolicy.RoundPct | adaptiveadmission/capacity.go:533-550 | rounds to the nearest integer, halves away from zero |
| LimitPolicy.Shrink | adaptiveadmission/capacity.go:533-539 | never below 1 and, for a positive limit, never above it |
| LimitPolicy.Grow | adaptiveadmission/capacity.go:544-550 | always strictly above the limit |
| LimitPolicy.AdjustExactly | adaptiveadmission/capacity.go:479-515 | for every configuration, limit, clock state, reading and time, an adjustment is the one outcome of an independent table: from the most severe signal that is up and not cooling down (60 s, 30 s, 30 s), the limit times 0.60, 0.75, 0.70 or 0.85 to the nearest integer and at least 1, or times 1.05 and at least one more, or as it was, clamped; and exactly that signal's clock set to now |
| LimitPolicy.ClockIsLastFired | adaptiveadmission/capacity.go:495-507 | over any run the last time a cooldown was started is what its clock says; without one the clock stays |
| LimitPolicy.FiredSpaced | adaptiveadmission/capacity.go:85-87 | over any run two starts of one cooldown are at least that cooldown apart: 60 s for timeouts, 30 s for errors, 30 s for hard and soft p95 together |
| LimitPolicy.CooldownBoundsShrinks | adaptiveadmission/capacity.go:76-87 | counting them, an interval of length T holds at most floor(T / cooldown) + 1 shrinks of each kind |
| LimitPolicy.ClampConfinesExactly | adaptiveadmission/capacity.go:552-560 | the clamp confines every value if and only if min <= max; otherwise it always yields one of the two bounds |
| LimitPolicy.AdjustEnvelope | adaptiveadmission/capacity.go:479-515 | with min <= max an adjustment ends inside the bounds; from inside, shrink branches never raise the limit, growth raises it unless at max, no branch leaves it |
| LimitPolicy.RunEnvelope | adaptiveadmission/capacity.go:479-515 | after any non-empty run of adjustments the limit lies in [min, max] |
| LimitPolicy.RunPositive | adaptiveadmission/capacity.go:528-539 | with positive bounds the limit stays positive over any run, whatever their order |
| LimitPolicy.RaisesExactly | adaptiveadmission/capacity.go:491-513 | for any bounds and any positive limit: an adjustment raises the limit if and only if it lies below min, for any branch but growth, or, for growth, it lies below max or growing it does not reach min |
| LimitPolicy.RisesDespiteTimeouts | adaptiveadmission/capacity.go:495-513 | for any bounds and any positive limit, exactly when the limit rises with the timeout rate over its threshold; with min <= max that is below min, or below max with the timeout cooldown running, no error shrink firing and p95 under half its target |
| LimitPolicy.RisesUnderTimeouts | adaptiveadmission/capacity.go:495-513 | three such inputs: a timeout shrink from 5 to 10 with min 10 and max 5, one from 1 to 5 with min 5 and max 10, and growth from 6 to 7 during the timeout cooldown |
| LimitPolicy.GrowthReachesMax | adaptiveadmission/capacity.go:509-515 | max - limit consecutive growth ticks reach max |
| LimitPolicy.ShrinkStallsExactly | adaptiveadmission/capacity.go:533-539 | a shrink leaves the limit unchanged if and only if it is at most the stall point: 1 for 0.60 and 0.70, 2 for 0.75, 3 for 0.85; above it falls strictly and not past it |
| LimitPolicy.ShrinkConverges | adaptiveadmission/capacity.go:533-539 | repeated shrinking ends at the stall point |
| Controller.Controller.NewFixed | adaptiveadmission/capacity.go:300-304 | starts with the given limit, nothing in flight and an empty window of 100 |
| Controller.Controller.NewAdaptive | adaptiveadmission/capacity.go:308-323 | starts with the initial limit, nothing in flight, an empty window and no cooldown running |
| Controller.Controller.TryAcquire | adaptiveadmission/capacity.go:364-371 | one pass of the wait loop: reserves if and only if the cost fits under the limit, and otherwise changes nothing |
| Controller.Controller.Release | adaptiveadmission/capacity.go:381-388 | returns the cost, records the outcome in the window with status 500 and above an error, and owes exactly cost signals |
| Controller.Controller.ReleaseUnused | adaptiveadmission/capacity.go:396-402 | returns the cost and owes exactly cost signals, leaving the window alone |
| Controller.Controller.MeanLatency | adaptiveadmission/capacity.go:407-411 | the mean over exactly the recorded window, 0 without outcomes |
| Controller.Controller.React | adaptiveadmission/capacity.go:491-526 | the new limit and clocks are the outcome the table gives for this reading and time; one signal is owed per added unit |
| Controller.Controller.AdjustAt | adaptiveadmission/capacity.go:479-526 | the outcome the table gives for rates and p95 of exactly the samples in the window, and nothing on an empty one |
| Controller.ReadingExactly | adaptiveadmission/capacity.go:487-489 | the rates read are the shares of timeouts and errors in the window, the p95 the value of the bucket up to which at least 95 in 100 of its samples lie and below which fewer do |
| Controller.ClassifyOutcome | adaptiveadmission/dispatch.go:56-67 | a timeout if and only if the handler error carries 504; an error if and only if the handler failed without a status or the status that counts is at least 500 |
| Controller.Dispatch | adaptiveadmission/dispatch.go:26-46 | on every path on which the next handler returns, exactly one unit is released, one signal owed and one outcome recorded |
| Controller.TimeoutRateAtMostErrorRate | adaptiveadmission/dispatch.go:56-67 | for any window of dispatched outcomes the timeout rate read is at most the error rate |
| Ewma.FoldIsWeightedSum | fairness/scoring.go:506-522 | the value after n ticks is the sum of alpha * (1 - alpha)^(n-1-i) * rate i |
| Ewma.RangeKeptExactly | fairness/scoring.go:506-522 | the average always stays between 0 and the largest of its rates if and only if alpha is in [0, 1] |
| Ewma.NeverOverExactly | fairness/scoring.go:506-522 | rates within a threshold never carry the average over it if and only if the threshold is 0, or positive with alpha at most 1 |
| Ewma.SteadyValue | fairness/scoring.go:506-522 | n ticks at one rate give rate * (1 - (1 - alpha)^n) |
| Ewma.DecayBound | fairness/scoring.go:506-522 | for alpha in [0, 1], what n ticks leave of an old value is at most 1 / (1 + n * alpha) of it |
| Ewma.FoldMonotone | fairness/scoring.go:506-522 | for alpha in [0, 1], higher rates never give a lower average |
| Ewma.RateAtLeastExceeds | fairness/scoring.go:506-522 | n rates none of which is below a rate r above a threshold theta carry the average over it once n * alpha * (r - theta) > theta |
| Decimal.ParseFormatInt | fairness/session.go:197-231 | parsing a printed 64-bit integer gives it back |
| Decimal.FormatNatExactly | fairness/scoring.go:331-335 | what is printed for a number is the one string without leading zeros that parses to it |
| Decimal.ParseNatPlaces | fairness/session.go:222-225 | each further digit counts ten times what stands before it |
| Decimal.ParseInt64Exactly | fairness/session.go:222-225 | an optional sign, digits, and the 64-bit range, in both directions |
| Scoring.ScoringState.constructor | fairness/scoring.go:393-411 | no entries at first; non-positive intervals get their defaults |
| Scoring.DimensionKeyExactly | fairness/scoring.go:313-349 | a request is counted under exactly: its address for ip, its two subnets for theirs, its country, its user id, each unless empty, and for asn the plain decimal that parses to its number, unless 0; under nothing for any other dimension |
| Scoring.ScoringState.RecordRequest | fairness/scoring.go:471-491 | for every dimension and key at once: the request's own entries are created or counted up, every other entry is untouched |
| Scoring.TrackedExactly | fairness/scoring.go:471-491 | what that does, field by field: entries the request is counted under are seen now with one more pending and their average kept, created if missing; no other entry changes |
| Scoring.ScoringState.TickAll | fairness/scoring.go:506-522 | for every dimension and key at once: the pending count is averaged in with that dimension's alpha and reset |
| Scoring.TickedExactly | fairness/scoring.go:506-522 | a tick keeps an entry's last-seen time, zeroes its pending count and averages in pending per second; it creates and deletes nothing |
| Scoring.ScoringState.TickEntries | fairness/scoring.go:512-519 | within one dimension every entry is ticked once and none is lost |
| Scoring.ScoringState.Sweep | fairness/scoring.go:527-540 | for every dimension and key at once: exactly the entries idle for longer than the TTL go, the rest are untouched |
| Scoring.ScoringState.SweepEntries | fairness/scoring.go:531-538 | within one dimension an entry survives if and only if it is not idle, unchanged |
| ScoringLog.StateIsReplay | fairness/scoring.go:471-540 | after any run of requests, ticks and sweeps each entry is determined by replaying the log for it alone |
| ScoringLog.OthersDoNotMatter | fairness/scoring.go:471-540 | removing all other sources' requests from the log changes nothing for a source |
| ScoringLog.EntryAfterRun | fairness/scoring.go:471-540 | an entry's average is the weighted sum of its own per-tick rates since its creation, and requests averaged in plus pending are all its requests since then |
| ScoringLog.EntryExistsExactly | fairness/scoring.go:471-540 | after any run a source has an entry if and only if it has made a request and no sweep since its latest one came more than the TTL after it; the entry's last-seen time is that request's |
| ScoringLog.DeletedExactlyWhenIdle | fairness/scoring.go:527-540 | an event of a run deletes a source's entry if and only if it is a sweep more than the TTL after the source's latest request in the log |
| ScoringLog.QuietSourceNeverOverThreshold | fairness/scoring.go:358-367 | for a threshold of 0, or a positive one and alpha at most 1: after any run, a source whose completed ticks since creation all stayed within it is never over it |
| ScoringLog.BusySourceOverThreshold | fairness/scoring.go:506-522 | for alpha in [0, 1]: after any run, a source whose n completed ticks since creation all had at least a rate r has an entry over theta >= 0 once n * alpha * (r - theta) > theta |
| ScoreComposition.TotalPenaltyAnyOrder | fairness/scoring.go:622-655 | the sum of penalties does not depend on the order in which dimensions are visited |
| ScoreComposition.BaseScoreFor | fairness/scoring.go:288-296 | the class's own entry if there is one, else the anonymous one if there is one, else 0 |
| ScoreComposition.PenaltyContribution | fairness/scoring.go:358-367 | above the hard threshold the hard penalty, above the soft one only the soft penalty, at or under both nothing |
| ScoreComposition.ContributionExactly | fairness/scoring.go:630-645 | an exempt country or a dimension the request is not counted in costs nothing; otherwise the penalty of the average of the entry it is counted under, 0 for a missing one |
| ScoreComposition.ComputeScore | fairness/scoring.go:622-655 | in whatever order the map yields dimensions: the base is the class's, anonymous' or 0; the score is base minus total where that lies within the bounds, else the bound it misses; the total is the sum of all contributions, and the breakdown lists exactly the non-zero ones |
| ScoreComposition.ScoreConfinedExactly | fairness/scoring.go:299-307 | the clamp confines every score if and only if min <= max |
| ScoreComposition.ClampMonotoneExactly | fairness/scoring.go:299-307 | the clamp keeps the order of scores if and only if min <= max |
| ScoreComposition.NeverRewardsLoadExactly | fairness/scoring.go:358-367 | a higher rate never costs less if and only if the tiers in use ascend from 0 |
| ScoreComposition.ScoreAntitone | fairness/scoring.go:622-655 | with such tiers and min <= max, raising any sources' averages never raises a score |
| ScoreComposition.QuietNeverChargedExactly | fairness/scoring.go:358-367 | rates within both thresholds are never charged if the lower one is 0, or positive with alpha at most 1; and only if, where both tiers in use charge something |
| ScoreComposition.QuietSourceNotPenalised | fairness/scoring.go:358-367 | for such an alpha and thresholds: after any run, a source whose completed ticks stayed within both thresholds, or that has no entry, is charged nothing |
| ScoreComposition.HeavySourceCharged | fairness/scoring.go:358-367 | after any run, such a source over the soft threshold is charged one of the two penalties, and over the hard threshold the hard one |
| ScoreComposition.ProductAnyOrder | fairness/scoring.go:685-699 | the product of divisors does not depend on the order in which they are visited |
| ScoreComposition.PriorityDivisor | fairness/scoring.go:685-699 | the product of the divisors of exactly the parameters present, or 1 if that is not positive; always positive |
| ScoreComposition.DivisorLowersExactly | fairness/module.go:275-286 | a divisor above 1 does not raise a score if and only if the score is not negative |
| ScoreComposition.ConfinedAfterDivisionExactly | fairness/module.go:275-286 | every score handed on lies in [min, max] if and only if min <= max and dividing moves neither bound outward: for a divisor above 1 exactly when min <= 0 <= max, for one below 1 exactly when both are 0 |
| ScoreComposition.DividedLeavesBounds | fairness/module.go:280-285 | a divisor 2 takes the clamped score 10 below min 10, a divisor 0.5 takes 100 above max 100 |
| ScoreComposition.ScoreRequest | fairness/module.go:275-286 | one request: it is counted for every dimension; the score handed on, times the divisor, is the clamped base minus total of the state after that |
| ScoreComposition.HandedOnAntitone | fairness/module.go:275-286 | with tiers ascending from 0 and min <= max, raising any sources' averages never raises the score handed on, for any divisors and parameters |
| SessionCookie.JoinSplit | fairness/session.go:205-212 | joining the dot-separated parts gives the value back, and no part holds a dot |
| SessionCookie.ValueOfFiveParts | fairness/session.go:209-219 | cutting the MAC off a five-part value leaves exactly the text that was signed |
| SessionCookie.AcceptedExactly | fairness/session.go:205-231 | a value is accepted with an id, key and expiry if and only if it is their well-formed, short enough, unexpired value with the MAC that key gives it |
| SessionCookie.RoundTrip | fairness/session.go:197-231 | for any block sharing the signing key and any id: the id, key id and the instant of the expiry come back exactly when the value is at most 256 bytes, the id non-empty and dot-free and now before that instant; otherwise it is invalid or expired, and which is stated |
| SessionCookie.UnixTimeExactly | fairness/session.go:226 | a 64-bit second count stands for itself if and only if it is at most 2^63 - 1 - 62135596800; above, for an instant before the epoch |
| SessionCookie.RoundTripRepresentable | fairness/session.go:197-231 | of a signed cookie within the limits, read after the epoch, all parts come back if and only if now is before its expiry and that is representable; otherwise it reads as expired |
| SessionCookie.KidLengthExactly | fairness/session.go:176-186 | with a 22-character id and a 10-digit expiry the length limit is met if and only if the key id has at most 175 characters |
| SessionCookie.KidCharExactly | fairness/session.go:176-186 | which ASCII codes a key id may hold: letters, digits, minus and underscore |
| SessionRenewal.NewSessionRead | fairness/session.go:266-294 | at an issuing block with a fresh id, a request whose cookie is absent, bad or expired starts a session: every block sharing the key reads the cookie it is given as that id, key and expiry until a lifetime from then in whole seconds, and as expired afterwards |
| SessionRenewal.NewSession | fairness/session.go:266-294 | what is sent there is the fresh id signed for a lifetime from now, as an issue |
| SessionRenewal.RenewedRead | fairness/session.go:266-294 | what replaces a valid cookie is a renewal: the same id, read likewise by every block sharing the key |
| SessionRenewal.NothingSentExactly | fairness/session.go:266-294 | nothing is sent if and only if the block does not issue, or has no fresh id for a cookie that is not valid, or the cookie is valid, of its signing key and with more than half its lifetime left; the browser then keeps its cookie |
| SessionRenewal.ReadAbsentExactly | fairness/session.go:235-244 | a cookie is absent if and only if its value is empty |
| SessionRenewal.SessionStep | fairness/session.go:266-294 | a request of a valid session leaves the cookie, or an issuing block replaces it by one of its signing key for a lifetime from now |
| SessionRenewal.ApplySession | fairness/session.go:302-313 | a claimed class is left alone; otherwise a valid cookie makes a verified human known by the session, a bad or expired one an unknown user, and nothing else changes |
| SessionRenewal.SessionKeepsId | fairness/session.go:266-294 | over any run of requests that find their cookie valid, with any rotation of keys between them, the id never changes |
| SessionRenewal.RenewedExactlyWhenDue | fairness/session.go:266-294 | an issuing block replaces a valid cookie, whatever block signed it, if and only if it was signed with another key than the block's or at most half the block's own lifetime is left to its whole-second expiry |
| SessionRenewal.HalfLifetimeKeptExactly | fairness/session.go:258-264 | for any signer and any block that reads its cookies: no visit replaces a cookie within half its lifetime, as documented, if and only if the block signs with the same key and from signing to whole-second expiry there is room for half the lifetime of each (or the cookie's lifetime is too short for any valid visit or half); with equal lifetimes, if the expiry loses nothing in whole seconds beyond an odd nanosecond |
| SessionRenewal.LongerLifetimeResendsAtOnce | fairness/session.go:273-276 | a cookie signed for ten minutes is replaced a second later by a block with the same key and a lifetime of half an hour |
| SessionRenewal.RenewalsSpaced | fairness/session.go:258-294 | over any run with one signing key and any lifetimes, from one cookie sent to the next passes more than the lifetime of the first less half that of the second less one second |
| SessionRenewal.RenewalsHalfLifetimeApart | fairness/session.go:258-294 | over any run with one signing key and lifetime, successive cookies are more than half a lifetime minus one second apart |
| SessionRenewal.ActiveSessionStaysValid | fairness/session.go:266-294 | a session stays valid for ever if every request, to checking and issuing blocks alike, comes within half a lifetime of the last visit to an issuing block and finds that block's signing key still listed; issuing blocks having lifetimes of at least two seconds, ten-digit expiries and key ids of at most 175 characters |
| SessionRenewal.SessionKeepsPenaltyKey | fairness/session.go:302-313 | over any run that stays valid, each checking block counts an unclaimed request under one and the same key of the user dimension, the session's; claimed classes and blocks that do not check keep the request's own |

## Left out

- float64 rounding, NaN and infinities: scores, rates, EWMA values and histogram edges are exact reals; logarithm and power are replaced by the greatest index whose power does not exceed the value, for any factor f > 1 with f^255 = 60000.
- The goroutine that blocks in `cond.Wait` is not a Dafny thread: blocking is one pass of the wait loop per event (`TryAcquire`, `TryPopHead`), with parked and woken states in the protocol.
- Costs other than 1 in the scheduler: the repository never uses them; what they would break is stated for the semaphore alone.
- What a panic in the next handler does further up the stack: the protocol has it as an event that ends the request without a release; `Dispatch` and `Release` speak of the paths on which the handler returns.
- The wrap-around of the 64-bit arrival counter and of durations beyond 292 years: counters and times are unbounded integers.
- The growth policy of Go slices, and `sort.Slice`, which is a sorting function here; `container/heap`'s loops are modelled.
- Per-dimension locks: a request, tick or sweep is one event per entry, and its dimensions are changed in one method; readers that see some dimensions already changed and others not are not modelled.
- Key file loading, the mode switch and duplicate key ids of the session cookie configuration; HMAC and base64, for which any function onto 43-character dot-free strings stands; Set-Cookie attributes and the browser's own expiry. Unforgeability is not claimed.
- JWT, GeoIP and address bucketing: a classification is an input, including the class of a claimed user.
- Configuration parsing and defaults, module registration, metrics, logs, admin endpoints, the load generator and its reports: plumbing and reporting.
- The nil receivers of the scoring state and session cookies, which stand for features that are not configured.
