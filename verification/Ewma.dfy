/**
 The exponentially weighted moving average of per-tick request rates, over
 exact reals.
 */
module Ewma {
  import opened Powers

  /** The value after one tick per rate, starting from 0. */
  function Fold(alpha: real, rates: seq<real>): real {
    if rates == [] then 0.0
    else Next(alpha, rates[|rates| - 1], Fold(alpha, rates[..|rates| - 1]))
  }

  function Next(alpha: real, rate: real, ewma: real): real {
    alpha * rate + (1.0 - alpha) * ewma
  }

  /** The sum of alpha * (1 - alpha)^(n-1-i) * rates[i]. */
  function WeightedSum(alpha: real, rates: seq<real>): real {
    if rates == [] then 0.0
    else alpha * Pow(1.0 - alpha, |rates| - 1) * rates[0] + WeightedSum(alpha, rates[1..])
  }

  lemma Scale(beta: real, a: real, p: real, r: real, rest: real)
    ensures beta * (a * p * r + rest) == a * (beta * p) * r + beta * rest
  {
    assert beta * (a * p * r) == a * (beta * p) * r;
  }

  lemma {:induction false} WeightedSumSnoc(alpha: real, rates: seq<real>, x: real)
    ensures WeightedSum(alpha, rates + [x]) == Next(alpha, x, WeightedSum(alpha, rates))
  {
    var beta := 1.0 - alpha;
    if rates == [] {
      assert rates + [x] == [x] && [x][1..] == [];
    } else {
      WeightedSumSnoc(alpha, rates[1..], x);
      assert (rates + [x])[1..] == rates[1..] + [x];
      Scale(beta, alpha, Pow(beta, |rates| - 1), rates[0], WeightedSum(alpha, rates[1..]));
    }
  }

  /** The closed form of the running average. */
  lemma {:induction false} FoldIsWeightedSum(alpha: real, rates: seq<real>)
    ensures Fold(alpha, rates) == WeightedSum(alpha, rates)
  {
    if rates != [] {
      var front, last := rates[..|rates| - 1], rates[|rates| - 1];
      FoldIsWeightedSum(alpha, front);
      WeightedSumSnoc(alpha, front, last);
      assert rates == front + [last];
    }
  }

  ghost predicate Within(rates: seq<real>, bound: real) {
    forall i :: 0 <= i < |rates| ==> 0.0 <= rates[i] <= bound
  }

  lemma NextWithin(alpha: real, rate: real, ewma: real, bound: real)
    requires 0.0 <= alpha <= 1.0 && 0.0 <= rate <= bound && 0.0 <= ewma <= bound
    ensures 0.0 <= Next(alpha, rate, ewma) <= bound
  {
    MulNonNeg(alpha, rate);
    MulNonNeg(1.0 - alpha, ewma);
    MulNonNeg(alpha, bound - rate);
    MulNonNeg(1.0 - alpha, bound - ewma);
    assert alpha * (bound - rate) == alpha * bound - alpha * rate;
    assert (1.0 - alpha) * (bound - ewma) == (1.0 - alpha) * bound - (1.0 - alpha) * ewma;
    assert alpha * bound + (1.0 - alpha) * bound == bound;
  }

  lemma {:induction false} FoldWithin(alpha: real, rates: seq<real>, bound: real)
    requires 0.0 <= alpha <= 1.0 && 0.0 <= bound && Within(rates, bound)
    ensures 0.0 <= Fold(alpha, rates) <= bound
  {
    if rates != [] {
      FoldWithin(alpha, rates[..|rates| - 1], bound);
      NextWithin(alpha, rates[|rates| - 1], Fold(alpha, rates[..|rates| - 1]), bound);
    }
  }

  ghost predicate NeverLeavesRange(alpha: real) {
    forall rates, bound :: 0.0 <= bound && Within(rates, bound) ==> 0.0 <= Fold(alpha, rates) <= bound
  }

  /** alpha is not validated; the average stays within the range of its rates exactly for alpha in [0, 1]. */
  lemma RangeKeptExactly(alpha: real)
    ensures NeverLeavesRange(alpha) <==> 0.0 <= alpha <= 1.0
  {
    if 0.0 <= alpha <= 1.0 {
      forall rates, bound | 0.0 <= bound && Within(rates, bound) ensures 0.0 <= Fold(alpha, rates) <= bound {
        FoldWithin(alpha, rates, bound);
      }
    } else {
      var rates := [1.0];
      assert rates[..|rates| - 1] == [];
      assert Fold(alpha, rates) == alpha;
      assert Within(rates, 1.0);
    }
  }

  ghost predicate NeverOver(alpha: real, theta: real) {
    forall rates :: Within(rates, theta) ==> Fold(alpha, rates) <= theta
  }

  lemma {:induction false} FoldNotPositive(alpha: real, rates: seq<real>)
    requires alpha <= 0.0 && forall i :: 0 <= i < |rates| ==> rates[i] >= 0.0
    ensures Fold(alpha, rates) <= 0.0
  {
    if rates != [] {
      var front := rates[..|rates| - 1];
      FoldNotPositive(alpha, front);
      MulNonNeg(-alpha, rates[|rates| - 1]);
      MulNonNeg(1.0 - alpha, -Fold(alpha, front));
    }
  }

  lemma {:induction false} FoldOfZeros(alpha: real, rates: seq<real>)
    requires Within(rates, 0.0)
    ensures Fold(alpha, rates) == 0.0
  {
    if rates != [] {
      FoldOfZeros(alpha, rates[..|rates| - 1]);
    }
  }

  /** For which alpha and threshold rates within it keep the average within it. */
  predicate QuietParameters(alpha: real, theta: real) {
    theta == 0.0 || (theta > 0.0 && alpha <= 1.0)
  }

  lemma QuietFold(alpha: real, rates: seq<real>, theta: real)
    requires QuietParameters(alpha, theta) && Within(rates, theta)
    ensures Fold(alpha, rates) <= theta
    ensures 0.0 <= alpha ==> 0.0 <= Fold(alpha, rates)
  {
    if theta == 0.0 {
      FoldOfZeros(alpha, rates);
    } else if alpha < 0.0 {
      FoldNotPositive(alpha, rates);
    } else {
      FoldWithin(alpha, rates, theta);
    }
  }

  lemma FoldOfOne(alpha: real, rate: real)
    ensures Fold(alpha, [rate]) == alpha * rate
  {
    assert [rate][..0] == [];
    assert Fold(alpha, []) == 0.0;
  }

  /** Rates within a threshold never carry the average over it exactly for a zero threshold, or a positive one and
      alpha at most 1; a negative threshold is exceeded without any rate. */
  lemma NeverOverExactly(alpha: real, theta: real)
    ensures NeverOver(alpha, theta) <==> QuietParameters(alpha, theta)
  {
    forall rates | Within(rates, theta) && QuietParameters(alpha, theta) ensures Fold(alpha, rates) <= theta {
      QuietFold(alpha, rates, theta);
    }
    if theta < 0.0 {
      assert Within([], theta) && Fold(alpha, []) == 0.0;
    } else if theta > 0.0 && alpha > 1.0 {
      FoldOfOne(alpha, theta);
      MulGrows(alpha, theta);
      assert Within([theta], theta);
    }
  }

  // ---------- a steady rate ----------

  function Steady(rate: real, n: nat): seq<real> { seq(n, _ => rate) }

  lemma {:induction false} SteadyValue(alpha: real, rate: real, n: nat)
    ensures Fold(alpha, Steady(rate, n)) == rate * (1.0 - Pow(1.0 - alpha, n))
  {
    if n > 0 {
      assert Steady(rate, n)[..n - 1] == Steady(rate, n - 1);
      SteadyValue(alpha, rate, n - 1);
      var beta, p := 1.0 - alpha, Pow(1.0 - alpha, n - 1);
      assert beta * (rate * (1.0 - p)) == rate * (beta - beta * p);
    }
  }

  function Decayed(alpha: real, n: nat, p: real): real { p * (1.0 + n as real * alpha) }

  lemma DecayNext(alpha: real, n: nat, p: real)
    requires p >= 0.0
    ensures Decayed(alpha, n + 1, (1.0 - alpha) * p) <= Decayed(alpha, n, p)
  {
    var m := n as real;
    assert (n + 1) as real == m + 1.0;
    var x, y := 1.0 + m * alpha, (m + 1.0) * (alpha * alpha);
    MulNonNeg(m + 1.0, alpha * alpha);
    MulNonNeg(p, y);
    assert (1.0 - alpha) * (1.0 + (m + 1.0) * alpha) == x - y;
    DecayStep(p, 1.0 - alpha, 1.0 + (m + 1.0) * alpha, x, y);
  }

  /** (1 - a)^n * (1 + n a) <= 1. */
  lemma {:induction false} DecayBound(alpha: real, n: nat)
    requires 0.0 <= alpha <= 1.0
    ensures 0.0 <= Pow(1.0 - alpha, n) && Decayed(alpha, n, Pow(1.0 - alpha, n)) <= 1.0
  {
    if n == 0 {
      assert Pow(1.0 - alpha, 0) == 1.0;
    } else {
      hide Decayed;
      DecayBound(alpha, n - 1);
      MulNonNeg(1.0 - alpha, Pow(1.0 - alpha, n - 1));
      DecayNext(alpha, n - 1, Pow(1.0 - alpha, n - 1));
    }
  }

  lemma DecayStep(p: real, beta: real, z: real, x: real, y: real)
    requires beta * z == x - y && p * y >= 0.0
    ensures (beta * p) * z <= p * x
  {
    assert (beta * p) * z == p * (beta * z);
    assert p * (x - y) == p * x - p * y;
  }

  /** A steady rate above a threshold carries the average over it within a known number of ticks. */
  lemma SteadyRateExceeds(alpha: real, rate: real, theta: real, n: nat)
    requires 0.0 <= alpha <= 1.0 && 0.0 <= theta < rate
    requires n as real * alpha * (rate - theta) > theta
    ensures Fold(alpha, Steady(rate, n)) > theta
  {
    hide Decayed, Fold;
    SteadyValue(alpha, rate, n);
    DecayBound(alpha, n);
    SteadyDecay(alpha, n, Pow(1.0 - alpha, n), rate, theta);
  }

  ghost predicate AtLeast(rates: seq<real>, low: real) {
    forall i :: 0 <= i < |rates| ==> low <= rates[i]
  }

  lemma NextMonotone(alpha: real, r: real, r': real, x: real, x': real)
    requires 0.0 <= alpha <= 1.0 && r <= r' && x <= x'
    ensures Next(alpha, r, x) <= Next(alpha, r', x')
  {
    MulNonNeg(alpha, r' - r);
    MulNonNeg(1.0 - alpha, x' - x);
    assert alpha * (r' - r) == alpha * r' - alpha * r;
    assert (1.0 - alpha) * (x' - x) == (1.0 - alpha) * x' - (1.0 - alpha) * x;
  }

  /** Higher rates never give a lower average. */
  lemma {:induction false} FoldMonotone(alpha: real, low: seq<real>, high: seq<real>)
    requires 0.0 <= alpha <= 1.0 && |low| == |high|
    requires forall i :: 0 <= i < |low| ==> low[i] <= high[i]
    ensures Fold(alpha, low) <= Fold(alpha, high)
  {
    if low != [] {
      var n := |low| - 1;
      FoldMonotone(alpha, low[..n], high[..n]);
      NextMonotone(alpha, low[n], high[n], Fold(alpha, low[..n]), Fold(alpha, high[..n]));
    }
  }

  /** Rates that never fall below one above a threshold carry the average over it within a known number of ticks. */
  lemma RateAtLeastExceeds(alpha: real, rates: seq<real>, rate: real, theta: real)
    requires 0.0 <= alpha <= 1.0 && 0.0 <= theta < rate && AtLeast(rates, rate)
    requires |rates| as real * alpha * (rate - theta) > theta
    ensures Fold(alpha, rates) > theta
  {
    hide Fold;
    SteadyRateExceeds(alpha, rate, theta, |rates|);
    FoldMonotone(alpha, Steady(rate, |rates|), rates);
  }

  lemma SteadyDecay(alpha: real, n: nat, p: real, rate: real, theta: real)
    requires 0.0 <= alpha && Decayed(alpha, n, p) <= 1.0
    requires 0.0 <= theta < rate && n as real * alpha * (rate - theta) > theta
    ensures rate * (1.0 - p) > theta
  {
    MulNonNeg(n as real, alpha);
    SteadyArithmetic(p, n as real * alpha, rate, theta);
  }

  lemma PositiveFactor(a: real, d: real)
    requires a >= 0.0 && a * d > 0.0
    ensures d > 0.0
  {
    if d <= 0.0 {
      MulNonNeg(a, -d);
    }
  }

  lemma SteadyArithmetic(p: real, k: real, rate: real, theta: real)
    requires k >= 0.0 && p * (1.0 + k) <= 1.0 && 0.0 <= theta < rate && k * (rate - theta) > theta
    ensures rate * (1.0 - p) > theta
  {
    var q := p * (1.0 + k);
    MulNonNeg(rate, 1.0 - q);
    assert (1.0 + k) * (rate * (1.0 - p)) == rate * ((1.0 + k) - q);
    assert rate * ((1.0 + k) - q) == rate * k + rate * (1.0 - q);
    assert k * (rate - theta) == rate * k - k * theta;
    var d := rate * (1.0 - p) - theta;
    assert (1.0 + k) * d == (1.0 + k) * (rate * (1.0 - p)) - (theta + k * theta);
    PositiveFactor(1.0 + k, d);
  }
}
