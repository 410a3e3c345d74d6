/**
 The fairness score of one request: base score minus the penalties of its
 dimensions, clamped, then divided by the product of the present parameters'
 divisors.
 */
module ScoreComposition {
  import opened Wrappers
  import opened Powers
  import opened Scoring
  import opened ScoringLog
  import Ewma

  const ANONYMOUS := "anonymous"

  /** The class's own entry, else the one for anonymous users, else nothing. */
  function BaseScoreFor(baseScores: map<string, real>, userClass: string): (r: real)
    ensures userClass in baseScores ==> r == baseScores[userClass]
    ensures userClass !in baseScores && "anonymous" in baseScores ==> r == baseScores["anonymous"]
    ensures userClass !in baseScores && "anonymous" !in baseScores ==> r == 0.0
  {
    if userClass in baseScores then baseScores[userClass]
    else if ANONYMOUS in baseScores then baseScores[ANONYMOUS]
    else 0.0
  }

  function Clamp(v: real, min: real, max: real): (r: real)
    ensures min <= v <= max ==> r == v
    ensures v < min ==> r == min
    ensures min <= v && max < v ==> r == max
  {
    if v < min then min else if v > max then max else v
  }

  /** Thresholds are exceeded, not merely reached. */
  function PenaltyContribution(p: Penalty, rps: real): (r: real)
    ensures rps > p.hardThreshold ==> r == p.hardPenalty
    ensures p.softThreshold < rps <= p.hardThreshold ==> r == p.softPenalty
    ensures rps <= p.softThreshold && rps <= p.hardThreshold ==> r == 0.0
  {
    if rps > p.hardThreshold then p.hardPenalty
    else if rps > p.softThreshold then p.softPenalty
    else 0.0
  }

  function EntryEwma(dims: Dims, dim: string, key: string): real {
    var x := Lookup(dims, dim, key);
    if x.Some? then x.value.ewma else 0.0
  }

  /** What one dimension takes off; nothing where it does not apply or exempts the country. */
  function Contribution(cfg: Config, dims: Dims, c: Classification, dim: string): real
    requires dim in cfg.dimensions
  {
    var key := DimensionKey(dim, c);
    if key.None? || c.country in cfg.dimensions[dim].exemptCountries then 0.0
    else PenaltyContribution(cfg.dimensions[dim], EntryEwma(dims, dim, key.value))
  }

  /** Per dimension: nothing for an exempt country or where the request is not counted, else what the average of the
      entry it is counted under costs, 0 counting as the average of a missing one. */
  lemma ContributionExactly(cfg: Config, dims: Dims, c: Classification, dim: string)
    requires dim in cfg.dimensions
    ensures c.country in cfg.dimensions[dim].exemptCountries ==> Contribution(cfg, dims, c, dim) == 0.0
    ensures (forall key :: !CountedUnder(dim, key, c)) ==> Contribution(cfg, dims, c, dim) == 0.0
    ensures forall key ::
              CountedUnder(dim, key, c) && c.country !in cfg.dimensions[dim].exemptCountries ==>
              Contribution(cfg, dims, c, dim) ==
              PenaltyContribution(cfg.dimensions[dim], if Lookup(dims, dim, key) == None then 0.0 else Lookup(dims, dim, key).value.ewma)
  {
    hide DimensionKey, CountedUnder, PenaltyContribution;
    forall key ensures CountedUnder(dim, key, c) <==> DimensionKey(dim, c) == Some(key) {
      DimensionKeyExactly(dim, c, key);
    }
  }

  ghost function TotalPenalty(cfg: Config, dims: Dims, c: Classification, ds: set<string>): (r: real)
    requires ds <= cfg.dimensions.Keys
    ensures ds == {} ==> r == 0.0
  {
    if ds == {} then 0.0
    else
      var d :| d in ds;
      Contribution(cfg, dims, c, d) + TotalPenalty(cfg, dims, c, ds - {d})
  }

  /** The sum may be taken in any order. */
  lemma {:induction false} TotalPenaltyAnyOrder(cfg: Config, dims: Dims, c: Classification, ds: set<string>, d: string)
    requires ds <= cfg.dimensions.Keys && d in ds
    ensures TotalPenalty(cfg, dims, c, ds) == Contribution(cfg, dims, c, d) + TotalPenalty(cfg, dims, c, ds - {d})
  {
    var first :| first in ds && TotalPenalty(cfg, dims, c, ds) ==
                                Contribution(cfg, dims, c, first) + TotalPenalty(cfg, dims, c, ds - {first});
    if first != d {
      TotalPenaltyAnyOrder(cfg, dims, c, ds - {first}, d);
      TotalPenaltyAnyOrder(cfg, dims, c, ds - {d}, first);
      assert ds - {first} - {d} == ds - {d} - {first};
    }
  }

  ghost function Score(cfg: Config, dims: Dims, c: Classification): real {
    Clamp(BaseScoreFor(cfg.baseScores, c.userClass) - TotalPenalty(cfg, dims, c, cfg.dimensions.Keys),
          cfg.minScore, cfg.maxScore)
  }

  /** The base score of a class: its own entry, else that of anonymous users, else 0. */
  ghost predicate IsBase(baseScores: map<string, real>, userClass: string, base: real) {
    if userClass in baseScores then base == baseScores[userClass]
    else if "anonymous" in baseScores then base == baseScores["anonymous"]
    else base == 0.0
  }

  /** The value itself within the bounds, else the bound it misses, min first. */
  ghost predicate IsClamped(v: real, min: real, max: real, r: real) {
    && (min <= v <= max ==> r == v)
    && (v < min ==> r == min)
    && (min <= v && max < v ==> r == max)
  }

  /** How the score came about, as logged. */
  datatype Breakdown = Breakdown(base: real, penalties: map<string, real>, totalPenalty: real, final: real)

  /** The dimensions are visited in whatever order the map yields them. */
  method ComputeScore(s: ScoringState, c: Classification) returns (final: real, b: Breakdown)
    requires s.Valid()
    ensures final == b.final == Score(s.env.cfg, s.dims, c)
    ensures IsBase(s.env.cfg.baseScores, c.userClass, b.base)
    ensures b.totalPenalty == TotalPenalty(s.env.cfg, s.dims, c, s.env.cfg.dimensions.Keys)
    ensures IsClamped(b.base - b.totalPenalty, s.env.cfg.minScore, s.env.cfg.maxScore, final)
    ensures forall d :: d in b.penalties <==> d in s.env.cfg.dimensions && Contribution(s.env.cfg, s.dims, c, d) != 0.0
    ensures forall d :: d in b.penalties ==> b.penalties[d] == Contribution(s.env.cfg, s.dims, c, d)
  {
    var cfg := s.env.cfg;
    var base := BaseScoreFor(cfg.baseScores, c.userClass);
    var total := 0.0;
    var penalties: map<string, real> := map[];
    var rest := cfg.dimensions.Keys;
    while rest != {}
      invariant rest <= cfg.dimensions.Keys
      invariant total + TotalPenalty(cfg, s.dims, c, rest) == TotalPenalty(cfg, s.dims, c, cfg.dimensions.Keys)
      invariant forall d :: d in penalties <==>
                  d in cfg.dimensions && d !in rest && Contribution(cfg, s.dims, c, d) != 0.0
      invariant forall d :: d in penalties ==> penalties[d] == Contribution(cfg, s.dims, c, d)
      decreases |rest|
    {
      var dim :| dim in rest;
      TotalPenaltyAnyOrder(cfg, s.dims, c, rest, dim);
      rest := rest - {dim};
      var key := DimensionKey(dim, c);
      if key.Some? && c.country !in cfg.dimensions[dim].exemptCountries {
        var penalty := PenaltyContribution(cfg.dimensions[dim], EntryEwma(s.dims, dim, key.value));
        if penalty != 0.0 {
          penalties := penalties[dim := penalty];
          total := total + penalty;
        }
      }
    }
    final := Clamp(base - total, cfg.minScore, cfg.maxScore);
    b := Breakdown(base, penalties, total, final);
  }

  // ---------- the clamp and the penalties ----------

  /** The clamp confines every score exactly when min <= max, which the configuration does not check. */
  lemma ScoreConfinedExactly(min: real, max: real)
    ensures (forall v :: min <= Clamp(v, min, max) <= max) <==> min <= max
  {
    assert min <= Clamp(min, min, max) <= max ==> min <= max;
  }

  ghost predicate ClampMonotone(min: real, max: real) {
    forall a, b :: a <= b ==> Clamp(a, min, max) <= Clamp(b, min, max)
  }

  /** A lower score stays the lower one through the clamp exactly when the bounds are in order. */
  lemma ClampMonotoneExactly(min: real, max: real)
    ensures ClampMonotone(min, max) <==> min <= max
  {
    if min > max {
      assert Clamp(min - 1.0, min, max) == min && Clamp(min, min, max) == max;
    }
  }

  ghost predicate NeverRewardsLoad(p: Penalty) {
    forall low, high :: low <= high ==> PenaltyContribution(p, low) <= PenaltyContribution(p, high)
  }

  /** More load never costs less exactly when the tiers in use ascend from 0; the configuration does not check it. */
  lemma NeverRewardsLoadExactly(p: Penalty)
    ensures NeverRewardsLoad(p) <==>
            if p.softThreshold < p.hardThreshold then 0.0 <= p.softPenalty <= p.hardPenalty else 0.0 <= p.hardPenalty
  {
    if p.softThreshold < p.hardThreshold {
      var high := p.hardThreshold + 1.0;
      assert PenaltyContribution(p, p.softThreshold) == 0.0;
      assert PenaltyContribution(p, p.hardThreshold) == p.softPenalty;
      assert PenaltyContribution(p, high) == p.hardPenalty;
    } else {
      assert PenaltyContribution(p, p.hardThreshold) == 0.0;
      assert PenaltyContribution(p, p.hardThreshold + 1.0) == p.hardPenalty;
    }
  }

  /** Every source at least as loaded in `more`. */
  ghost predicate Busier(less: Dims, more: Dims) {
    forall dim, key :: EntryEwma(less, dim, key) <= EntryEwma(more, dim, key)
  }

  lemma {:induction false} PenaltyGrows(cfg: Config, less: Dims, more: Dims, c: Classification, ds: set<string>)
    requires ds <= cfg.dimensions.Keys && Busier(less, more)
    requires forall d :: d in cfg.dimensions ==> NeverRewardsLoad(cfg.dimensions[d])
    ensures TotalPenalty(cfg, less, c, ds) <= TotalPenalty(cfg, more, c, ds)
  {
    if ds != {} {
      var d :| d in ds;
      TotalPenaltyAnyOrder(cfg, less, c, ds, d);
      TotalPenaltyAnyOrder(cfg, more, c, ds, d);
      PenaltyGrows(cfg, less, more, c, ds - {d});
      var key := DimensionKey(d, c);
      if key.Some? {
        assert EntryEwma(less, d, key.value) <= EntryEwma(more, d, key.value);
      }
    }
  }

  /** A busier picture of the same request never raises its score. */
  lemma ScoreAntitone(cfg: Config, less: Dims, more: Dims, c: Classification)
    requires Busier(less, more) && cfg.minScore <= cfg.maxScore
    requires forall d :: d in cfg.dimensions ==> NeverRewardsLoad(cfg.dimensions[d])
    ensures Score(cfg, more, c) <= Score(cfg, less, c)
  {
    PenaltyGrows(cfg, less, more, c, cfg.dimensions.Keys);
  }

  function LowestThreshold(p: Penalty): real {
    if p.softThreshold < p.hardThreshold then p.softThreshold else p.hardThreshold
  }

  ghost predicate QuietNeverCharged(p: Penalty) {
    forall rates :: Ewma.Within(rates, LowestThreshold(p)) ==> PenaltyContribution(p, Ewma.Fold(p.alpha, rates)) == 0.0
  }

  lemma QuietChargedNothing(p: Penalty, ewma: real)
    requires ewma <= LowestThreshold(p)
    ensures PenaltyContribution(p, ewma) == 0.0
  {
  }

  lemma OverLowestCharged(p: Penalty, ewma: real)
    requires p.hardPenalty != 0.0 && (p.softPenalty != 0.0 || p.hardThreshold <= p.softThreshold)
    requires ewma > LowestThreshold(p)
    ensures PenaltyContribution(p, ewma) != 0.0
  {
  }

  /** Where both tiers in use charge something, rates within both thresholds are never charged exactly if the lower
      threshold is 0, or positive with alpha at most 1; a tier that charges nothing can only help. */
  lemma QuietNeverChargedExactly(p: Penalty)
    ensures Ewma.QuietParameters(p.alpha, LowestThreshold(p)) ==> QuietNeverCharged(p)
    ensures p.hardPenalty != 0.0 && (p.softPenalty != 0.0 || p.hardThreshold <= p.softThreshold) ==>
              (QuietNeverCharged(p) <==> Ewma.QuietParameters(p.alpha, LowestThreshold(p)))
  {
    var theta := LowestThreshold(p);
    Ewma.NeverOverExactly(p.alpha, theta);
    if Ewma.QuietParameters(p.alpha, theta) {
      forall rates | Ewma.Within(rates, theta) ensures PenaltyContribution(p, Ewma.Fold(p.alpha, rates)) == 0.0 {
        QuietChargedNothing(p, Ewma.Fold(p.alpha, rates));
      }
    } else if p.hardPenalty != 0.0 && (p.softPenalty != 0.0 || p.hardThreshold <= p.softThreshold) {
      var rates :| Ewma.Within(rates, theta) && Ewma.Fold(p.alpha, rates) > theta;
      OverLowestCharged(p, Ewma.Fold(p.alpha, rates));
    }
  }

  /** With those parameters a source whose completed ticks all stayed within both thresholds pays nothing, after any
      run; so does one without an entry. */
  lemma QuietSourceNotPenalised(env: Env, states: seq<Dims>, log: seq<Event>, dim: string, key: string)
    requires env.tickInterval > 0 && IsRun(env, states, log) && dim in env.cfg.dimensions
    requires var p := env.cfg.dimensions[dim];
             && Ewma.QuietParameters(p.alpha, LowestThreshold(p))
             && var rates := Rates(env, TallyOf(dim, key, Lifetime(env, dim, key, log)).perTick);
                Ewma.Within(rates, p.softThreshold) && Ewma.Within(rates, p.hardThreshold)
    ensures PenaltyContribution(env.cfg.dimensions[dim], EntryEwma(states[|log|], dim, key)) == 0.0
  {
    var p := env.cfg.dimensions[dim];
    if Lookup(states[|log|], dim, key).Some? {
      QuietSourceNeverOverThreshold(env, states, log, dim, key, LowestThreshold(p));
    }
    QuietChargedNothing(p, EntryEwma(states[|log|], dim, key));
  }

  /** A source with enough completed ticks at a rate above a threshold pays that threshold's penalty, after any run:
      over the soft threshold one of the two penalties, over the hard one the hard penalty. */
  lemma HeavySourceCharged(env: Env, states: seq<Dims>, log: seq<Event>, dim: string, key: string, rate: real, theta: real)
    requires env.tickInterval > 0 && IsRun(env, states, log) && dim in env.cfg.dimensions
    requires var p := env.cfg.dimensions[dim];
             var rates := Rates(env, TallyOf(dim, key, Lifetime(env, dim, key, log)).perTick);
             && 0.0 <= p.alpha <= 1.0 && 0.0 <= theta < rate && Ewma.AtLeast(rates, rate)
             && |rates| as real * p.alpha * (rate - theta) > theta
    ensures var p := env.cfg.dimensions[dim];
            var charged := PenaltyContribution(p, EntryEwma(states[|log|], dim, key));
            && (p.softThreshold <= theta ==> charged == p.softPenalty || charged == p.hardPenalty)
            && (p.hardThreshold <= theta ==> charged == p.hardPenalty)
  {
    BusySourceOverThreshold(env, states, log, dim, key, rate, theta);
  }

  // ---------- the priority divisor ----------

  function Times(a: real, b: real): (r: real)
    ensures r == a * b
  {
    a * b
  }

  lemma TimesSwap(a: real, b: real, c: real)
    ensures Times(a, Times(b, c)) == Times(b, Times(a, c))
  {
    assert a * (b * c) == b * (a * c);
  }

  lemma TimesRegroup(a: real, b: real, c: real)
    ensures Times(a, Times(b, c)) == Times(Times(a, b), c)
  {
    assert a * (b * c) == (a * b) * c;
  }

  ghost function Product(divisors: map<string, real>, names: set<string>): (r: real)
    requires names <= divisors.Keys
    ensures names == {} ==> r == 1.0
  {
    if names == {} then 1.0
    else
      var n :| n in names;
      Times(divisors[n], Product(divisors, names - {n}))
  }

  /** The product may be taken in any order. */
  lemma {:induction false} ProductAnyOrder(divisors: map<string, real>, names: set<string>, n: string)
    requires names <= divisors.Keys && n in names
    ensures Product(divisors, names) == Times(divisors[n], Product(divisors, names - {n}))
  {
    hide Times;
    var first :| first in names && Product(divisors, names) == Times(divisors[first], Product(divisors, names - {first}));
    if first != n {
      ProductAnyOrder(divisors, names - {first}, n);
      ProductAnyOrder(divisors, names - {n}, first);
      assert names - {first} - {n} == names - {n} - {first};
      TimesSwap(divisors[first], divisors[n], Product(divisors, names - {n} - {first}));
    }
  }

  function Floored(d: real): (r: real)
    ensures d > 0.0 ==> r == d
    ensures d <= 0.0 ==> r == 1.0
  {
    if d <= 0.0 then 1.0 else d
  }

  method PriorityDivisor(divisors: map<string, real>, query: set<string>) returns (d: real)
    ensures d == Floored(Product(divisors, divisors.Keys * query)) && d > 0.0
  {
    d := 1.0;
    var rest := divisors.Keys;
    assert Times(1.0, Product(divisors, rest * query)) == Product(divisors, rest * query);
    assert Times(d, 1.0) == d;
    while rest != {}
      invariant rest <= divisors.Keys
      invariant Times(d, Product(divisors, rest * query)) == Product(divisors, divisors.Keys * query)
      decreases |rest|
    {
      hide Times;
      var name :| name in rest;
      if name in query {
        ProductAnyOrder(divisors, rest * query, name);
        assert (rest - {name}) * query == rest * query - {name};
        TimesRegroup(d, divisors[name], Product(divisors, rest * query - {name}));
        d := Times(d, divisors[name]);
      } else {
        assert (rest - {name}) * query == rest * query;
      }
      rest := rest - {name};
    }
    assert rest * query == {};
    d := Floored(d);
  }

  /** The score handed on: the division comes after the clamp. */
  function Divided(score: real, divisor: real): (r: real)
    requires divisor > 0.0
    ensures Times(r, divisor) == score
  {
    if divisor != 1.0 then score / divisor else score
  }

  lemma MulPositive(a: real, b: real)
    requires a > 0.0 && b > 0.0
    ensures a * b > 0.0
  {
  }

  /** A divisor above 1 never raises a score exactly when the score is not negative. */
  lemma DivisorLowersExactly(score: real, divisor: real)
    requires divisor > 1.0
    ensures Divided(score, divisor) <= score <==> score >= 0.0
  {
    var q := score / divisor;
    assert q * divisor == score;
    if q < 0.0 {
      MulPositive(-q, divisor);
      MulPositive(-q, divisor - 1.0);
    } else {
      MulNonNeg(q, divisor);
      MulNonNeg(q, divisor - 1.0);
    }
  }

  lemma DividedStaysAboveMinExactly(score: real, min: real, divisor: real)
    requires divisor > 0.0
    ensures Divided(score, divisor) >= min <==> score >= min * divisor
  {
    var q := score / divisor;
    assert q * divisor == score;
    if q >= min {
      MulNonNeg(q - min, divisor);
      assert (q - min) * divisor == q * divisor - min * divisor;
    } else {
      assert (min - q) * divisor > 0.0;
      assert (min - q) * divisor == min * divisor - q * divisor;
    }
  }

  lemma DividedStaysBelowMaxExactly(score: real, max: real, divisor: real)
    requires divisor > 0.0
    ensures Divided(score, divisor) <= max <==> score <= max * divisor
  {
    DividedStaysAboveMinExactly(-score, -max, divisor);
    assert (-max) * divisor == -(max * divisor);
    assert Divided(-score, divisor) == -Divided(score, divisor);
  }

  /** Whatever the base score and the penalties come to, the score handed on lies within the bounds. */
  ghost predicate ConfinesHandedOn(min: real, max: real, divisor: real)
    requires divisor > 0.0
  {
    forall v :: min <= Divided(Clamp(v, min, max), divisor) <= max
  }

  /** The clamp survives the division exactly when the bounds are in order and dividing them moves neither
      outward: for a divisor above 1, when 0 lies between them; for one below 1, when both are 0. */
  lemma ConfinedAfterDivisionExactly(min: real, max: real, divisor: real)
    requires divisor > 0.0
    ensures ConfinesHandedOn(min, max, divisor) <==> min <= max && min * divisor <= min && max <= max * divisor
    ensures divisor > 1.0 ==> (ConfinesHandedOn(min, max, divisor) <==> min <= 0.0 <= max)
    ensures divisor < 1.0 ==> (ConfinesHandedOn(min, max, divisor) <==> min == max == 0.0)
  {
    if min <= max {
      forall v ensures min * divisor <= min && max <= max * divisor ==>
                         min <= Divided(Clamp(v, min, max), divisor) <= max
      {
        DividedStaysAboveMinExactly(Clamp(v, min, max), min, divisor);
        DividedStaysBelowMaxExactly(Clamp(v, min, max), max, divisor);
      }
      DividedStaysAboveMinExactly(min, min, divisor);
      DividedStaysBelowMaxExactly(max, max, divisor);
      assert Clamp(min, min, max) == min && Clamp(max, min, max) == max;
    } else {
      assert !(min <= Divided(Clamp(min, min, max), divisor) <= max);
    }
    ScaledSign(min, divisor);
    ScaledSign(max, divisor);
  }

  lemma ScaledSign(x: real, d: real)
    requires d > 0.0
    ensures d > 1.0 ==> (x * d <= x <==> x <= 0.0) && (x <= x * d <==> 0.0 <= x)
    ensures d < 1.0 ==> (x * d <= x <==> 0.0 <= x) && (x <= x * d <==> x <= 0.0)
  {
    assert x * (d - 1.0) == x * d - x;
    if x > 0.0 && d > 1.0 {
      MulPositive(x, d - 1.0);
    } else if x > 0.0 && d < 1.0 {
      MulPositive(x, 1.0 - d);
    } else if x < 0.0 && d > 1.0 {
      MulPositive(-x, d - 1.0);
    } else if x < 0.0 && d < 1.0 {
      MulPositive(-x, 1.0 - d);
    }
  }

  /** A divided score below min, and one above max. */
  lemma DividedLeavesBounds()
    ensures Clamp(10.0, 10.0, 100.0) == 10.0 && Divided(10.0, 2.0) < 10.0
    ensures Clamp(100.0, 10.0, 100.0) == 100.0 && Divided(100.0, 0.5) > 100.0
  {
  }

  // ---------- the score handed on ----------

  /** What the queue orders by. */
  ghost function HandedOn(cfg: Config, dims: Dims, c: Classification, query: set<string>): real {
    var d := Floored(Product(cfg.divisors, cfg.divisors.Keys * query));
    assert d > 0.0;
    Divided(Score(cfg, dims, c), d)
  }

  /** The fairness handler's part in one request: count it, score it, divide. */
  method ScoreRequest(s: ScoringState, c: Classification, query: set<string>, now: int) returns (score: real, b: Breakdown)
    requires s.Valid()
    modifies s`dims
    ensures s.Valid() && StepsTo(s.env, old(s.dims), Track(c, now), s.dims)
    ensures score == b.final == HandedOn(s.env.cfg, s.dims, c, query)
    ensures IsBase(s.env.cfg.baseScores, c.userClass, b.base)
    ensures b.totalPenalty == TotalPenalty(s.env.cfg, s.dims, c, s.env.cfg.dimensions.Keys)
    ensures IsClamped(b.base - b.totalPenalty, s.env.cfg.minScore, s.env.cfg.maxScore,
                      Times(score, Floored(Product(s.env.cfg.divisors, s.env.cfg.divisors.Keys * query))))
  {
    s.RecordRequest(c, now);
    score, b := ComputeScore(s, c);
    var divisor := PriorityDivisor(s.env.cfg.divisors, query);
    if divisor != 1.0 {
      score := score / divisor;
      b := b.(final := score);
    }
  }

  lemma DividedMonotone(a: real, b: real, divisor: real)
    requires divisor > 0.0 && a <= b
    ensures Divided(a, divisor) <= Divided(b, divisor)
  {
    if divisor != 1.0 {
      var q := b / divisor;
      assert q * divisor == b;
      DividedStaysBelowMaxExactly(a, q, divisor);
    }
  }

  /** A busier picture of the same request never raises the score handed on. */
  lemma HandedOnAntitone(cfg: Config, less: Dims, more: Dims, c: Classification, query: set<string>)
    requires Busier(less, more) && cfg.minScore <= cfg.maxScore
    requires forall d :: d in cfg.dimensions ==> NeverRewardsLoad(cfg.dimensions[d])
    ensures HandedOn(cfg, more, c, query) <= HandedOn(cfg, less, c, query)
  {
    ScoreAntitone(cfg, less, more, c);
    DividedMonotone(Score(cfg, more, c), Score(cfg, less, c), Floored(Product(cfg.divisors, cfg.divisors.Keys * query)));
  }
}
