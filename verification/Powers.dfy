/** Powers, and the monotonicity facts about products that the other modules use. */
module Powers {

  function Pow(f: real, n: nat): real {
    if n == 0 then 1.0 else f * Pow(f, n - 1)
  }

  lemma MulMono(a: int, b: int, c: nat)
    requires a <= b
    ensures a * c <= b * c
  {
  }

  lemma MulGrows(f: real, p: real)
    requires f > 1.0 && p > 0.0
    ensures f * p > p
  {
    assert (f - 1.0) * p > 0.0;
  }

  lemma MulMonoReal(f: real, a: real, b: real)
    requires f > 0.0 && a < b
    ensures f * a < f * b
  {
    assert f * (b - a) > 0.0;
  }

  lemma MulNonNeg(a: real, b: real)
    requires a >= 0.0 && b >= 0.0
    ensures a * b >= 0.0
  {
  }

  lemma {:induction false} PowPositive(f: real, n: nat)
    requires f > 1.0
    ensures Pow(f, n) > 0.0
  {
    if n > 0 {
      PowPositive(f, n - 1);
      MulGrows(f, Pow(f, n - 1));
    }
  }
}
