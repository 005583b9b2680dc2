/** Integration of sin(a*x)^n * cos(a*x)^m with integer exponents: the
    power-reduction recursions for sin^n and cos^n, and the exponent dispatch
    of `trigintegrate` (odd substitution, even-even binomial expansion, one
    negative-exponent reduction step, final x -> a*x rescaling). The pattern
    match that finds a, n and m is not modelled: they are the inputs. */
module Trigonometry {
  import opened Arith
  import opened Terms

  /** `_sin_pow_integrate(n, x)`: an antiderivative of sin(x)^n, by the
      reduction formula, stopping at n in {-1, 0, 1}. */
  function SinPow(n: int): (r: seq<Term>)
    decreases Abs(n)
    ensures AllAtFreq(r, 1.0) && NoXIntegrals(r)
  {
    if n > 0 then
      (if n == 1 then [Trig(-1.0, 1.0, 0, 1)]
       else Step(Trig(Ratio(-1, n), 1.0, n - 1, 1), SinPow(n - 2), Ratio(n - 1, n)))
    else if n < 0 then
      (if n == -1 then OddIntegrate(1.0, -1, 0)
       else Step(Trig(Ratio(1, n + 1), 1.0, n + 1, 1), SinPow(n + 2), Ratio(n + 2, n + 1)))
    else [X(1.0)]
  }

  /** `_cos_pow_integrate(n, x)`: an antiderivative of cos(x)^n, the mirror
      image of `SinPow`. */
  function CosPow(n: int): (r: seq<Term>)
    decreases Abs(n)
    ensures AllAtFreq(r, 1.0) && NoXIntegrals(r)
  {
    if n > 0 then
      (if n == 1 then [Trig(1.0, 1.0, 1, 0)]
       else Step(Trig(Ratio(1, n), 1.0, 1, n - 1), CosPow(n - 2), Ratio(n - 1, n)))
    else if n < 0 then
      (if n == -1 then OddIntegrate(1.0, 0, -1)
       else Step(Trig(Ratio(-1, n + 1), 1.0, 1, n + 1), CosPow(n + 2), Ratio(n + 2, n + 1)))
    else [X(1.0)]
  }

  /** The substitution the odd case picks. Of two odd exponents the smaller one
      is substituted away; on a tie u = sin(a*x) is used. */
  function OddSubstitution(n: int, m: int): (s: Sub)
    requires Odd(n) || Odd(m)
    ensures s == CosSub <==> Odd(n) && (!Odd(m) || n < m)
    ensures s == SinSub <==> Odd(m) && (!Odd(n) || m <= n)
  {
    var nOdd, mOdd := Odd(n), Odd(m);
    var nPick := if nOdd && mOdd then nOdd && n < m else nOdd;
    var mPick := if nOdd && mOdd then mOdd && !(n < m) else mOdd;
    if nPick then CosSub
    else if mPick then SinSub
    else assert false; SinSub
  }

  /** `zz`: the value of the integral when the frequency is zero. */
  function Zz(n: int): seq<Term> {
    if n == 0 then [X(1.0)] else []
  }

  /** `Piecewise((zz, Eq(a, 0)), (body.subs(x, a*x)/a, True))` for a concrete a.
      For a != 0 the substitution moves every term from frequency 1 to
      frequency a and keeps the number of terms and the coefficient of x. */
  function Guard(a: real, zz: seq<Term>, body: seq<Term>): (r: seq<Term>)
    ensures a == 0.0 ==> r == zz
    ensures a != 0.0 ==> |r| == |body| && XCoef(r) == XCoef(body)
    ensures a != 0.0 && AllAtFreq(body, 1.0) ==> AllAtFreq(r, a)
  {
    if a == 0.0 then zz
    else
      XCoefRescale(body, a);
      Rescale(body, a)
  }

  /** The odd-exponent case of `trigintegrate`: one substituted integral,
      at frequency a and divided by a. */
  function OddIntegrate(a: real, n: int, m: int): (r: seq<Term>)
    requires Odd(n) || Odd(m)
    ensures a != 0.0 ==> r == [Substituted(1.0 / a, a, OddSubstitution(n, m), n, m)]
    ensures a == 0.0 ==> r == Zz(n)
  {
    Guard(a, Zz(n), [Substituted(1.0, 1.0, OddSubstitution(n, m), n, m)])
  }

  /** `trigintegrate(sin(a*x)**n * cos(a*x)**m, x)` with the default
      piecewise conditions. Every term is at frequency a. `integrate` is called
      on an integrand in x only when |n| == |m| with both even; every odd
      case, the n == -1 breaks of the power recursions included, calls it on
      an integrand in u instead (a `Substituted` term): a polynomial for
      nonnegative exponents, a rational function such as -1/(1-u^2) at the
      n == -1 breaks. */
  function TrigIntegrate(a: real, n: int, m: int): (r: seq<Term>)
    decreases MinAbs(n, m), 1
    ensures a != 0.0 ==> AllAtFreq(r, a)
    ensures NoXIntegrals(r) || (Abs(n) == Abs(m) && Even(n) && Even(m))
  {
    if n == 0 && m == 0 then [X(1.0)]
    else if Odd(n) || Odd(m) then OddIntegrate(a, n, m)
    else Guard(a, Zz(n), EvenBody(n, m))
  }

  /** The even-even part of `trigintegrate`, before rescaling. */
  function EvenBody(n: int, m: int): (r: seq<Term>)
    requires Even(n) && Even(m)
    decreases MinAbs(n, m), 0
    ensures AllAtFreq(r, 1.0)
    ensures NoXIntegrals(r) || Abs(n) == Abs(m)
  {
    var nBig := Abs(n) > Abs(m);
    var mBig := Abs(m) > Abs(n);
    if nBig then
      if m > 0 then SinExpansion(n, m / 2, 0)
      else if m == 0 then SinPow(n)
      else
        assert MinAbs(n - 2, m + 2) < MinAbs(n, m);
        [Trig(Ratio(-1, m + 1), 1.0, n - 1, m + 1)]
          + Scale(TrigIntegrate(1.0, n - 2, m + 2), Ratio(n - 1, m + 1))
    else if mBig then
      if n > 0 then CosExpansion(m, n / 2, 0)
      else if n == 0 then CosPow(m)
      else
        assert MinAbs(n + 2, m - 2) < MinAbs(n, m);
        [Trig(Ratio(1, n + 1), 1.0, n + 1, m - 1)]
          + Scale(TrigIntegrate(1.0, n + 2, m - 2), Ratio(m - 1, n + 1))
    else if m == n then
      [HalfSinDouble(1.0, 1.0, m)]
    else if m == -n then
      if n < 0 then
        [Trig(Ratio(1, n + 1), 1.0, n + 1, m - 1), Integral(Ratio(m - 1, n + 1), 1.0, n + 2, m - 2)]
      else
        [Trig(Ratio(-1, m + 1), 1.0, n - 1, m + 1), Integral(Ratio(n - 1, m + 1), 1.0, n - 2, m + 2)]
    else []
  }

  /** sum over j = i..k of (-1)^j * binomial(k, j) * SinPow(n + 2j); from i = 0 it is
      sin^n * cos^(2k) with cos^2 written as 1 - sin^2, so no cosine power above 1 remains. */
  function SinExpansion(n: int, k: nat, i: nat): (r: seq<Term>)
    decreases k + 1 - i
    ensures AllAtFreq(r, 1.0) && NoXIntegrals(r)
  {
    if i > k then []
    else Scale(SinPow(n + 2 * i), (Sign(i) * Binomial(k, i)) as real) + SinExpansion(n, k, i + 1)
  }

  /** The mirror sum over j = i..k of CosPow(m + 2j), with sin^2 written as 1 - cos^2. */
  function CosExpansion(m: int, k: nat, i: nat): (r: seq<Term>)
    decreases k + 1 - i
    ensures AllAtFreq(r, 1.0) && NoXIntegrals(r)
  {
    if i > k then []
    else Scale(CosPow(m + 2 * i), (Sign(i) * Binomial(k, i)) as real) + CosExpansion(m, k, i + 1)
  }
}
