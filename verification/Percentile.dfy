/**
 Nearest-rank percentiles of sorted samples, as the load-test harness computes
 them, and how cumulative bucket counts find the same rank.
 */
module Percentile {
  import opened Histogram
  import opened Durations
  import opened Counting

  function Ceil(x: real): int { -((-x).Floor) }

  /** The rank of the p-fraction among n samples. */
  function RankFor(p: real, n: nat): int { Ceil(p * n as real) }

  lemma RankInRange(p: real, n: nat)
    requires 0.0 < p <= 1.0 && n > 0
    ensures 1 <= RankFor(p, n) <= n
  {
    var x := p * n as real;
    assert 0.0 < x;
    assert (1.0 - p) * n as real >= 0.0;
    assert x <= n as real;
  }

  function InsertAsc(s: seq<int>, x: int): (r: seq<int>)
    ensures |r| == |s| + 1 && multiset(r) == multiset(s) + multiset{x}
  {
    if s == [] || x <= s[0] then [x] + s
    else
      assert s == [s[0]] + s[1..];
      [s[0]] + InsertAsc(s[1..], x)
  }

  /** The samples in ascending order. */
  function SortAsc(s: seq<int>): (r: seq<int>)
    ensures |r| == |s| && multiset(r) == multiset(s)
  {
    if s == [] then []
    else
      assert s == [s[0]] + s[1..];
      InsertAsc(SortAsc(s[1..]), s[0])
  }

  ghost predicate Ascending(s: seq<int>) {
    forall i, j :: 0 <= i < j < |s| ==> s[i] <= s[j]
  }

  lemma {:induction false} InsertAscending(s: seq<int>, x: int)
    requires Ascending(s)
    ensures Ascending(InsertAsc(s, x))
  {
    if s != [] && x > s[0] {
      InsertAscending(s[1..], x);
      var r := InsertAsc(s[1..], x);
      forall j | 0 <= j < |r| ensures s[0] <= r[j] {
        assert r[j] in multiset(r);
        assert r[j] in s[1..] || r[j] == x;
      }
    }
  }

  lemma {:induction false} SortAscending(s: seq<int>)
    ensures Ascending(SortAsc(s))
  {
    if s != [] {
      SortAscending(s[1..]);
      InsertAscending(SortAsc(s[1..]), s[0]);
    }
  }

  /** percentile of loadtest: rank ceil(p/100 * N), clamped to [1, N]. */
  function NearestRank(sorted: seq<int>, p: real): int {
    if sorted == [] then 0
    else
      var rank := RankFor(p / 100.0, |sorted|);
      var r := if rank < 1 then 1 else if rank > |sorted| then |sorted| else rank;
      sorted[r - 1]
  }

  // ---------- the percentile by counting ----------

  ghost function AtMost(v: int): int -> bool { x => x <= v }

  ghost function Below(v: int): int -> bool { x => x < v }

  /** Of n samples, one count reaches the p-fraction and the other falls short of it. */
  ghost predicate Reached(p: real, n: nat, reaching: nat, short: nat) {
    short as real < p * n as real <= reaching as real
  }

  /** A sample at or under which at least p percent of the samples lie, and under which fewer do. */
  ghost predicate IsPercentile(s: seq<int>, p: real, v: int) {
    v in s && Reached(p / 100.0, |s|, HowMany(s, AtMost(v)), HowMany(s, Below(v)))
  }

  lemma {:induction false} HowManyInsert(s: seq<int>, x: int, q: int -> bool)
    ensures HowMany(InsertAsc(s, x), q) == HowMany(s, q) + (if q(x) then 1 else 0)
  {
    if s != [] && x > s[0] {
      HowManyInsert(s[1..], x, q);
      assert InsertAsc(s, x)[1..] == InsertAsc(s[1..], x);
    } else {
      assert InsertAsc(s, x)[1..] == s;
    }
  }

  lemma {:induction false} HowManySorted(s: seq<int>, q: int -> bool)
    ensures HowMany(SortAsc(s), q) == HowMany(s, q)
  {
    if s != [] {
      HowManySorted(s[1..], q);
      HowManyInsert(SortAsc(s[1..]), s[0], q);
    }
  }

  lemma {:induction false} HowManyWithin(s: seq<int>, v: int, w: int)
    requires v < w
    ensures HowMany(s, AtMost(v)) <= HowMany(s, Below(w))
  {
    if s != [] {
      HowManyWithin(s[1..], v, w);
    }
  }

  /** The rank is the least whole number that reaches the p-fraction of n. */
  lemma RankIsCeiling(p: real, n: nat)
    ensures (RankFor(p, n) - 1) as real < p * n as real <= RankFor(p, n) as real
  {
  }

  lemma RankOfSample(sorted: seq<int>, rank: nat)
    requires Ascending(sorted) && 1 <= rank <= |sorted|
    ensures HowMany(sorted, AtMost(sorted[rank - 1])) >= rank
    ensures HowMany(sorted, Below(sorted[rank - 1])) < rank
  {
    HowManyAtLeast(sorted, AtMost(sorted[rank - 1]), rank);
    HowManyAtMost(sorted, Below(sorted[rank - 1]), rank - 1);
  }

  lemma RankReaches(p: real, n: nat, reaching: nat, short: nat)
    requires short < RankFor(p, n) <= reaching
    ensures Reached(p, n, reaching, short)
  {
    RankIsCeiling(p, n);
  }

  lemma NearestRankIs(s: seq<int>, p: real)
    requires s != [] && 0.0 < p <= 100.0
    ensures IsPercentile(s, p, NearestRank(SortAsc(s), p))
  {
    hide RankFor, HowMany, AtMost, Below, Reached, SortAsc, Ascending;
    var sorted, rank := SortAsc(s), RankFor(p / 100.0, |s|);
    SortAscending(s);
    RankInRange(p / 100.0, |s|);
    RankOfSample(sorted, rank);
    var v := sorted[rank - 1];
    HowManySorted(s, AtMost(v));
    HowManySorted(s, Below(v));
    RankReaches(p / 100.0, |s|, HowMany(s, AtMost(v)), HowMany(s, Below(v)));
    assert v in multiset(sorted);
  }

  /** The sorted samples' percentile is the one value with that property. */
  lemma NearestRankExactly(s: seq<int>, p: real, v: int)
    requires s != [] && 0.0 < p <= 100.0
    ensures NearestRank(SortAsc(s), p) == v <==> IsPercentile(s, p, v)
  {
    hide NearestRank;
    NearestRankIs(s, p);
    var r := NearestRank(SortAsc(s), p);
    if v < r {
      HowManyWithin(s, v, r);
    } else if v > r {
      HowManyWithin(s, r, v);
    }
  }

  lemma RankOutside(p: real, n: nat)
    requires n > 0
    ensures p <= 0.0 ==> RankFor(p / 100.0, n) < 1
    ensures p > 100.0 ==> RankFor(p / 100.0, n) > n
  {
    hide RankFor;
    var q := p / 100.0;
    RankIsCeiling(q, n);
    assert p <= 0.0 ==> q * n as real <= 0.0;
    assert p > 100.0 ==> (q - 1.0) * n as real > 0.0;
  }

  /** Outside that range the extreme samples are reported, and 0 without samples. */
  lemma NearestRankEnds(s: seq<int>, p: real)
    ensures s == [] ==> NearestRank(SortAsc(s), p) == 0
    ensures s != [] && p <= 0.0 ==>
              NearestRank(SortAsc(s), p) in s && forall x :: x in s ==> NearestRank(SortAsc(s), p) <= x
    ensures s != [] && p > 100.0 ==>
              NearestRank(SortAsc(s), p) in s && forall x :: x in s ==> x <= NearestRank(SortAsc(s), p)
  {
    if s != [] {
      hide RankFor, InsertAsc, SortAsc;
      var sorted := SortAsc(s);
      SortAscending(s);
      RankOutside(p, |s|);
      assert forall x :: x in s <==> x in multiset(sorted);
    }
  }

  // ---------- the percentile by bucket counts ----------

  /** How many samples fall into buckets up to b. */
  function CountUpTo(f: real, s: seq<int>, b: int): nat {
    if s == [] then 0 else (if BucketFor(f, s[0]) <= b then 1 else 0) + CountUpTo(f, s[1..], b)
  }

  function CountIn(f: real, s: seq<int>, b: int): nat {
    if s == [] then 0 else (if BucketFor(f, s[0]) == b then 1 else 0) + CountIn(f, s[1..], b)
  }

  lemma {:induction false} CountUpToNext(f: real, s: seq<int>, b: int)
    ensures CountUpTo(f, s, b) == CountUpTo(f, s, b - 1) + CountIn(f, s, b)
  {
    if s != [] {
      CountUpToNext(f, s[1..], b);
    }
  }

  lemma {:induction false} CountUpToEnds(f: real, s: seq<int>)
    ensures CountUpTo(f, s, -1) == 0 && CountUpTo(f, s, BUCKETS - 1) == |s|
  {
    if s != [] {
      CountUpToEnds(f, s[1..]);
    }
  }

  lemma {:induction false} CountUpToMost(f: real, s: seq<int>, b: int)
    ensures CountUpTo(f, s, b) <= |s|
  {
    if s != [] {
      CountUpToMost(f, s[1..], b);
    }
  }

  lemma {:induction false} CountUpToInsert(f: real, s: seq<int>, x: int, b: int)
    ensures CountUpTo(f, InsertAsc(s, x), b) == CountUpTo(f, s, b) + (if BucketFor(f, x) <= b then 1 else 0)
  {
    if s != [] && x > s[0] {
      CountUpToInsert(f, s[1..], x, b);
      assert InsertAsc(s, x)[1..] == InsertAsc(s[1..], x);
    } else {
      assert InsertAsc(s, x)[1..] == s;
    }
  }

  lemma {:induction false} CountUpToSorted(f: real, s: seq<int>, b: int)
    ensures CountUpTo(f, SortAsc(s), b) == CountUpTo(f, s, b)
  {
    if s != [] {
      CountUpToSorted(f, s[1..], b);
      CountUpToInsert(f, SortAsc(s[1..]), s[0], b);
    }
  }

  /** In sorted samples the first `rank` of them lie in buckets up to b exactly when that many are counted there. */
  lemma {:induction false} RankByCount(f: real, sorted: seq<int>, rank: nat, b: int)
    requires Ascending(sorted) && 1 <= rank <= |sorted|
    ensures CountUpTo(f, sorted, b) >= rank <==> BucketFor(f, sorted[rank - 1]) <= b
  {
    var rest := sorted[1..];
    BucketMonotone(f, sorted[0], sorted[rank - 1]);
    if BucketFor(f, sorted[0]) > b {
      NoneCounted(f, rest, b);
    } else if rank > 1 {
      RankByCount(f, rest, rank - 1, b);
    }
  }

  lemma {:induction false} NoneCounted(f: real, s: seq<int>, b: int)
    requires forall i :: 0 <= i < |s| ==> BucketFor(f, s[i]) > b
    ensures CountUpTo(f, s, b) == 0
  {
    if s != [] {
      NoneCounted(f, s[1..], b);
    }
  }

  /** The first bucket whose cumulative count reaches the rank is the bucket of the sample of that rank. */
  lemma FirstBucketReaching(f: real, samples: seq<int>, rank: nat, b: nat)
    requires 1 <= rank <= |samples|
    requires CountUpTo(f, samples, b) >= rank && CountUpTo(f, samples, b - 1) < rank
    ensures BucketFor(f, SortAsc(samples)[rank - 1]) == b
  {
    var sorted := SortAsc(samples);
    SortAscending(samples);
    CountUpToSorted(f, samples, b);
    CountUpToSorted(f, samples, b - 1);
    RankByCount(f, sorted, rank, b);
    RankByCount(f, sorted, rank, b - 1);
  }

  // ---------- the load-test summary ----------

  /** One worker's measured window. */
  datatype Worker = Worker(latencies: seq<int>, requests: nat, errors: nat)

  /** window is in nanoseconds, throughput in requests per second. */
  datatype LevelResult = LevelResult(concurrency: int, requests: nat, errors: nat, window: int, throughput: real,
                                     p50: int, p95: int, p99: int)

  function AllLatencies(ws: seq<Worker>): seq<int> {
    if ws == [] then [] else AllLatencies(ws[..|ws| - 1]) + ws[|ws| - 1].latencies
  }

  function TotalRequests(ws: seq<Worker>): nat {
    if ws == [] then 0 else TotalRequests(ws[..|ws| - 1]) + ws[|ws| - 1].requests
  }

  /** One more worker adds its own counts and latencies. */
  lemma WorkerAdds(ws: seq<Worker>, w: Worker)
    ensures TotalRequests([]) == TotalErrors([]) == 0 && AllLatencies([]) == []
    ensures TotalRequests(ws + [w]) == TotalRequests(ws) + w.requests
    ensures TotalErrors(ws + [w]) == TotalErrors(ws) + w.errors
    ensures AllLatencies(ws + [w]) == AllLatencies(ws) + w.latencies
  {
    assert (ws + [w])[..|ws|] == ws;
  }

  function TotalErrors(ws: seq<Worker>): nat {
    if ws == [] then 0 else TotalErrors(ws[..|ws| - 1]) + ws[|ws| - 1].errors
  }

  method SummarizeLevel(concurrency: int, window: int, ws: seq<Worker>) returns (r: LevelResult)
    ensures r.concurrency == concurrency && r.window == window
    ensures window > 0 ==> r.throughput * Seconds(window) == TotalRequests(ws) as real
    ensures window <= 0 ==> r.throughput == 0.0
    ensures r.requests == TotalRequests(ws) && r.errors == TotalErrors(ws)
    ensures var sorted := SortAsc(AllLatencies(ws));
            r.p50 == NearestRank(sorted, 50.0) && r.p95 == NearestRank(sorted, 95.0) && r.p99 == NearestRank(sorted, 99.0)
  {
    hide NearestRank, SortAsc, RankFor;
    var all, requests: nat, errs: nat := [], 0, 0;
    for i := 0 to |ws|
      invariant all == AllLatencies(ws[..i])
      invariant requests == TotalRequests(ws[..i]) && errs == TotalErrors(ws[..i])
    {
      assert ws[..i + 1][..i] == ws[..i];
      requests := requests + ws[i].requests;
      errs := errs + ws[i].errors;
      all := all + ws[i].latencies;
    }
    assert ws[..|ws|] == ws;
    var sorted := SortAsc(all);
    var throughput := 0.0;
    if Seconds(window) > 0.0 {
      throughput := requests as real / Seconds(window);
    }
    r := LevelResult(concurrency, requests, errs, window, throughput,
                     NearestRank(sorted, 50.0), NearestRank(sorted, 95.0), NearestRank(sorted, 99.0));
  }
}
