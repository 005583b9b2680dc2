/** Properties of the integration rules: shape and coefficients of the
    reduction recursions, the sin/cos mirror symmetry of the dispatch, the
    documented examples. */
module TrigProperties {
  import opened Arith
  import opened Terms
  import opened Trigonometry

  /** A trigonometric term of a reduction result for exponent n: the reduced
      function (sin when `ofSin`) keeps a power j with |j| < |n| of the other
      parity than n, the other function appears to the first power. */
  predicate ReducedTerm(t: Term, n: int, ofSin: bool) {
    t.Trig? ==>
      var (j, other) := if ofSin then (t.sinPow, t.cosPow) else (t.cosPow, t.sinPow);
      other == 1 && Abs(j) < Abs(n) && Odd(j) != Odd(n)
  }

  predicate ReducedShape(ts: seq<Term>, n: int, ofSin: bool) {
    forall i :: 0 <= i < |ts| ==> ReducedTerm(ts[i], n, ofSin)
  }

  lemma ShapeStep(lead: Term, rest: seq<Term>, k: real, n: int, n': int, ofSin: bool)
    requires lead.Trig? && ReducedTerm(lead, n, ofSin)
    requires ReducedShape(rest, n', ofSin) && Abs(n') < Abs(n) && Odd(n') == Odd(n)
    ensures ReducedShape(Step(lead, rest, k), n, ofSin)
  {
    var r := Step(lead, rest, k);
    forall i | 0 <= i < |r|
      ensures ReducedTerm(r[i], n, ofSin)
    {
      if i > 0 {
        assert r[i] == ScaleTerm(rest[i - 1], k);
        assert ReducedTerm(rest[i - 1], n', ofSin);
      }
    }
  }

  /** The recursion stops after |n|/2 steps: one term per step plus the base. */
  lemma {:induction false} SinPowLength(n: int)
    ensures |SinPow(n)| == (Abs(n) + 2) / 2
    decreases Abs(n)
  {
    if n >= 2 {
      SinPowLength(n - 2);
    } else if n <= -2 {
      SinPowLength(n + 2);
    }
  }

  /** The defining equations of the sin^n recursion at exponent n, for any
      family f of sums: the inductions below run over such an f, so that they
      see the recursion one step at a time. */
  predicate SinRec(f: int -> seq<Term>, n: int) {
    if n >= 2 then f(n) == Step(Trig(Ratio(-1, n), 1.0, n - 1, 1), f(n - 2), Ratio(n - 1, n))
    else if n <= -2 then f(n) == Step(Trig(Ratio(1, n + 1), 1.0, n + 1, 1), f(n + 2), Ratio(n + 2, n + 1))
    else if n == 1 then f(n) == [Trig(-1.0, 1.0, 0, 1)]
    else if n == -1 then f(n) == [Substituted(1.0, 1.0, CosSub, -1, 0)]
    else f(n) == [X(1.0)]
  }

  /** The same for the cos^n recursion. */
  predicate CosRec(g: int -> seq<Term>, n: int) {
    if n >= 2 then g(n) == Step(Trig(Ratio(1, n), 1.0, 1, n - 1), g(n - 2), Ratio(n - 1, n))
    else if n <= -2 then g(n) == Step(Trig(Ratio(-1, n + 1), 1.0, 1, n + 1), g(n + 2), Ratio(n + 2, n + 1))
    else if n == 1 then g(n) == [Trig(1.0, 1.0, 1, 0)]
    else if n == -1 then g(n) == [Substituted(1.0, 1.0, SinSub, 0, -1)]
    else g(n) == [X(1.0)]
  }

  ghost predicate SinFamily(f: int -> seq<Term>) {
    forall n :: SinRec(f, n)
  }

  ghost predicate CosFamily(g: int -> seq<Term>) {
    forall n :: CosRec(g, n)
  }

  /** `_sin_pow_integrate` and `_cos_pow_integrate` satisfy their recursions,
      with the n = -1 break written out. */
  lemma PowFamilies()
    ensures SinFamily(SinPow) && CosFamily(CosPow)
  {
    forall n
      ensures SinRec(SinPow, n) && CosRec(CosPow, n)
    {
      if n == -1 {
        assert SinPow(n) == [Substituted(1.0 / 1.0, 1.0 * 1.0, CosSub, -1, 0)];
        assert CosPow(n) == [Substituted(1.0 / 1.0, 1.0 * 1.0, SinSub, 0, -1)];
      }
    }
  }

  /** Every trigonometric term of the sin^n antiderivative is sin^j * cos with
      |j| < |n| and j of the other parity than n. */
  lemma SinPowShape(n: int)
    ensures ReducedShape(SinPow(n), n, true)
  {
    PowFamilies();
    ShapeInduction(SinPow, n);
  }

  lemma ShapeInduction(f: int -> seq<Term>, n: int)
    requires SinFamily(f)
    ensures ReducedShape(f(n), n, true)
  {
    if n >= 0 {
      ShapeUp(f, n);
    } else {
      ShapeDown(f, n);
    }
  }

  lemma {:induction false} ShapeUp(f: int -> seq<Term>, n: int)
    requires SinFamily(f) && n >= 0
    ensures ReducedShape(f(n), n, true)
    decreases n
  {
    assert SinRec(f, n);
    if n >= 2 {
      ShapeUp(f, n - 2);
      ShapeStep(Trig(Ratio(-1, n), 1.0, n - 1, 1), f(n - 2), Ratio(n - 1, n), n, n - 2, true);
    }
  }

  lemma {:induction false} ShapeDown(f: int -> seq<Term>, n: int)
    requires SinFamily(f) && n < 0
    ensures ReducedShape(f(n), n, true)
    decreases -n
  {
    assert SinRec(f, n);
    if n <= -2 {
      if n == -2 {
        ShapeUp(f, 0);
      } else {
        ShapeDown(f, n + 2);
      }
      ShapeStep(Trig(Ratio(1, n + 1), 1.0, n + 1, 1), f(n + 2), Ratio(n + 2, n + 1), n, n + 2, true);
    }
  }

  /** An x term is present exactly for even n (the recursion ends at n = 0);
      the substituted integral of 1/sin exactly for negative odd n (it ends at
      n = -1). */
  lemma SinPowKinds(n: int)
    ensures HasX(SinPow(n)) <==> Even(n)
    ensures HasSubstituted(SinPow(n)) <==> (n < 0 && Odd(n))
  {
    PowFamilies();
    KindsInduction(SinPow, n);
  }

  lemma KindsInduction(f: int -> seq<Term>, n: int)
    requires SinFamily(f)
    ensures HasX(f(n)) <==> Even(n)
    ensures HasSubstituted(f(n)) <==> (n < 0 && Odd(n))
  {
    if n >= 0 {
      KindsUp(f, n);
    } else {
      KindsDown(f, n);
    }
  }

  lemma {:induction false} KindsUp(f: int -> seq<Term>, n: int)
    requires SinFamily(f) && n >= 0
    ensures HasX(f(n)) <==> Even(n)
    ensures !HasSubstituted(f(n))
    decreases n
  {
    assert SinRec(f, n);
    if n >= 2 {
      KindsOfStep(Trig(Ratio(-1, n), 1.0, n - 1, 1), f(n - 2), Ratio(n - 1, n));
      KindsUp(f, n - 2);
    } else {
      assert f(n)[0] in f(n);
    }
  }

  lemma {:induction false} KindsDown(f: int -> seq<Term>, n: int)
    requires SinFamily(f) && n < 0
    ensures HasX(f(n)) <==> Even(n)
    ensures HasSubstituted(f(n)) <==> Odd(n)
    decreases -n
  {
    assert SinRec(f, n);
    if n <= -2 {
      KindsOfStep(Trig(Ratio(1, n + 1), 1.0, n + 1, 1), f(n + 2), Ratio(n + 2, n + 1));
      if n == -2 {
        KindsUp(f, 0);
      } else {
        KindsDown(f, n + 2);
      }
    } else {
      assert f(n)[0] in f(n);
    }
  }

  /** (2j)!/(j!^2 4^j) = (2j-1)/(2j) * (2j-2)!/((j-1)!^2 4^(j-1)) */
  lemma WallisStep(j: nat)
    requires j >= 1
    ensures Wallis(j) == Ratio(2 * j - 1, 2 * j) * Wallis(j - 1)
  {
    var a, b, c := Fact(2 * j - 2), Fact(j - 1), Pow4(j - 1);
    WallisUnfold(j);
    assert Wallis(j - 1) == (a as real) / ((b * b * c) as real) by {
      assert 2 * (j - 1) == 2 * j - 2;
    }
    assert b * b * c >= 1 by {
      IntPos(b, b);
      IntPos(b * b, c);
    }
    WallisCombine(j, a, b * b * c, (2 * j - 1) * a);
  }

  /** Wallis(j) with one factor of each factorial and of 4^j peeled off. */
  lemma WallisUnfold(j: nat)
    requires j >= 1
    ensures var a, b, c := Fact(2 * j - 2), Fact(j - 1), Pow4(j - 1);
      Wallis(j) == (((2 * j - 1) * a) as real) / ((2 * j * (b * b * c)) as real)
  {
    var a, b, c := Fact(2 * j - 2), Fact(j - 1), Pow4(j - 1);
    var k, l := (2 * j - 1) * a, b * b * c;
    assert l >= 1 by {
      IntPos(b, b);
      IntPos(b * b, c);
    }
    assert Fact(2 * j) == (2 * j) * k;
    assert Fact(j) * Fact(j) * Pow4(j) == (2 * j) * (2 * j * l) by {
      assert Fact(j) == j * b;
      assert Pow4(j) == 4 * c;
      SquareQuad(j, b, c);
    }
    CancelCast(Fact(2 * j), Fact(j) * Fact(j) * Pow4(j), 2 * j, k, l);
  }

  lemma CancelCast(num: int, den: int, c: int, k: int, l: int)
    requires c >= 1 && l >= 1 && num == c * k && den == c * (c * l)
    ensures (num as real) / (den as real) == (k as real) / ((c * l) as real)
  {
    CastMul(c, k);
    CastMul(c, c * l);
    IntPos(c, l);
    Cancel(k as real, (c * l) as real, c as real);
  }

  lemma WallisCombine(j: int, a: int, l: int, k: int)
    requires j >= 1 && l >= 1 && k == (2 * j - 1) * a
    ensures (k as real) / ((2 * j * l) as real) == Ratio(2 * j - 1, 2 * j) * ((a as real) / (l as real))
  {
    var P, Q, A, L := (2 * j - 1) as real, (2 * j) as real, a as real, l as real;
    FracMul(P, Q, A, L);
    assert P * A == k as real by {
      CastMul(2 * j - 1, a);
    }
    assert Q * L == (2 * j * l) as real by {
      CastMul(2 * j, l);
    }
  }

  lemma IntPos(x: int, y: int)
    requires x >= 1 && y >= 1
    ensures x * y >= 1
  {
  }

  lemma SquareQuad(j: int, b: int, c: int)
    ensures (j * b) * (j * b) * (4 * c) == (2 * j) * (2 * j * (b * b * c))
  {
  }

  lemma Cancel(x: real, y: real, c: real)
    requires y != 0.0 && c != 0.0
    ensures (c * x) / (c * y) == x / y
  {
    FracEq(c * x, c * y, x, y);
  }

  lemma CastMul(x: int, y: int)
    ensures (x * y) as real == (x as real) * (y as real)
  {
  }

  lemma FracMul(p: real, q: real, r: real, s: real)
    requires q != 0.0 && s != 0.0
    ensures (p / q) * (r / s) == (p * r) / (q * s)
  {
    var x, y := p / q, r / s;
    assert x * q == p && y * s == r;
    assert (x * y) * (q * s) == (x * q) * (y * s);
    assert q * s != 0.0;
  }

  lemma FracEq(x: real, y: real, u: real, v: real)
    requires y != 0.0 && v != 0.0 && x * v == u * y
    ensures x / y == u / v
  {
    var p, q := x / y, u / v;
    assert p * y == x && q * v == u;
    assert p * y * v == q * v * y;
    assert (p - q) * (y * v) == 0.0;
    assert y * v != 0.0;
  }

  /** The secular part of the sin^n antiderivative: for even n >= 0 the
      coefficient of x is the mean value of sin^n over a period,
      binomial(n, n/2) / 2^n; for negative n there is none (the recursion
      multiplies it by (n+2)/(n+1), which vanishes at n = -2). */
  lemma SinPowSecular(n: int)
    ensures XCoef(SinPow(n)) == if n >= 0 && Even(n) then WallisProduct(n / 2) else 0.0
  {
    if n >= 0 && Even(n) {
      assert 2 * (n / 2) == n;
      SinPowSecularEven(n / 2);
    } else {
      SinPowSecularNone(n);
    }
  }

  /** For n = 2j each step multiplies the secular part by (2j-1)/(2j). */
  lemma SinPowSecularEven(j: nat)
    ensures XCoef(SinPow(2 * j)) == WallisProduct(j)
  {
    PowFamilies();
    SecularInduction(SinPow, j);
  }

  lemma {:induction false} SecularInduction(f: int -> seq<Term>, j: nat)
    requires SinFamily(f)
    ensures XCoef(f(2 * j)) == WallisProduct(j)
    decreases j
  {
    assert SinRec(f, 2 * j);
    if j > 0 {
      SecularInduction(f, j - 1);
      assert 2 * (j - 1) == 2 * j - 2;
      SecularStep(Trig(Ratio(-1, 2 * j), 1.0, 2 * j - 1, 1), f(2 * j - 2), Ratio(2 * j - 1, 2 * j), WallisProduct(j - 1));
      WallisProductStep(j);
    } else {
      assert f(0)[1..] == [];
    }
  }

  /** One reduction step multiplies the secular part by its factor. */
  lemma SecularStep(lead: Term, prev: seq<Term>, k: real, w: real)
    requires lead.Trig? && XCoef(prev) == w
    ensures XCoef(Step(lead, prev, k)) == k * w
  {
    XCoefStep(lead, prev, k);
  }

  /** Odd and negative exponents leave no secular part. */
  lemma SinPowSecularNone(n: int)
    requires n < 0 || !Even(n)
    ensures XCoef(SinPow(n)) == 0.0
  {
    PowFamilies();
    if n >= 0 {
      SecularOddUp(SinPow, n);
    } else {
      SecularDown(SinPow, n);
    }
  }

  lemma {:induction false} SecularOddUp(f: int -> seq<Term>, n: int)
    requires SinFamily(f) && n >= 0 && !Even(n)
    ensures XCoef(f(n)) == 0.0
    decreases n
  {
    assert SinRec(f, n);
    if n >= 2 {
      SecularOddUp(f, n - 2);
      SecularStep(Trig(Ratio(-1, n), 1.0, n - 1, 1), f(n - 2), Ratio(n - 1, n), 0.0);
    } else {
      assert f(n)[1..] == [];
    }
  }

  lemma {:induction false} SecularDown(f: int -> seq<Term>, n: int)
    requires SinFamily(f) && n < 0
    ensures XCoef(f(n)) == 0.0
    decreases -n
  {
    assert SinRec(f, n);
    if n == -2 {
      assert Ratio(n + 2, n + 1) == 0.0;
      assert SinRec(f, 0);
      SecularStep(Trig(Ratio(1, n + 1), 1.0, n + 1, 1), f(n + 2), Ratio(n + 2, n + 1), 1.0);
    } else if n < -2 {
      SecularDown(f, n + 2);
      SecularStep(Trig(Ratio(1, n + 1), 1.0, n + 1, 1), f(n + 2), Ratio(n + 2, n + 1), 0.0);
    } else {
      assert f(n)[1..] == [];
    }
  }

  /** The product form of the Wallis constant equals the factorial form. */
  lemma {:induction false} WallisProductClosed(k: nat)
    ensures WallisProduct(k) == Wallis(k)
    decreases k
  {
    if k > 0 {
      WallisProductClosed(k - 1);
      WallisStep(k);
    }
  }

  /** Every factor (2i-1)/(2i) is positive, so the product is. */
  lemma {:induction false} WallisProductPositive(k: nat)
    ensures WallisProduct(k) > 0.0
    decreases k
  {
    if k > 0 {
      WallisProductPositive(k - 1);
      WallisProductStep(k);
      assert Ratio(2 * k - 1, 2 * k) > 0.0;
    }
  }

  /** Once SymPy has dropped the 0*x term that the n == -2 step produces,
      x survives in the antiderivative of sin^n or cos^n exactly for even
      n >= 0. */
  lemma LiveXTerm(n: int)
    ensures XCoef(SinPow(n)) != 0.0 <==> n >= 0 && Even(n)
    ensures XCoef(CosPow(n)) != 0.0 <==> n >= 0 && Even(n)
  {
    SinPowSecular(n);
    CosPowFromSinPow(n);
    if n >= 0 && Even(n) {
      WallisProductPositive(n / 2);
    }
  }

  /** The mean value of sin^(2k) over a period, binomial(2k, k) / 4^k, is the
      coefficient of x in its antiderivative, and the same for cos^(2k). */
  lemma SecularIsWallis(k: nat)
    ensures XCoef(SinPow(2 * k)) == Wallis(k)
    ensures XCoef(CosPow(2 * k)) == Wallis(k)
  {
    SinPowSecular(2 * k);
    assert Even(2 * k) && (2 * k) / 2 == k;
    WallisProductClosed(k);
    CosPowFromSinPow(2 * k);
  }

  /** cos^n is integrated by the mirror image of the sin^n recursion. */
  lemma MirrorSinPow(n: int)
    ensures Mirror(SinPow(n)) == CosPow(n)
  {
    PowFamilies();
    if n >= 0 {
      MirrorUp(SinPow, CosPow, n);
    } else {
      MirrorDown(SinPow, CosPow, n);
    }
  }

  lemma {:induction false} MirrorUp(f: int -> seq<Term>, g: int -> seq<Term>, n: int)
    requires SinFamily(f) && CosFamily(g) && n >= 0
    ensures Mirror(f(n)) == g(n)
    decreases n
  {
    assert SinRec(f, n) && CosRec(g, n);
    if n >= 2 {
      MirrorUp(f, g, n - 2);
      MirrorStep(Trig(Ratio(-1, n), 1.0, n - 1, 1), f(n - 2), Ratio(n - 1, n));
      NegRatio(-1, n);
    } else if n == 0 {
      assert f(n) == [X(1.0)] == g(n);
    } else {
      assert f(n) == [Trig(-1.0, 1.0, 0, 1)] && g(n) == [Trig(1.0, 1.0, 1, 0)];
    }
  }

  lemma {:induction false} MirrorDown(f: int -> seq<Term>, g: int -> seq<Term>, n: int)
    requires SinFamily(f) && CosFamily(g) && n < 0
    ensures Mirror(f(n)) == g(n)
    decreases -n
  {
    assert SinRec(f, n) && CosRec(g, n);
    if n <= -2 {
      if n == -2 {
        MirrorUp(f, g, 0);
      } else {
        MirrorDown(f, g, n + 2);
      }
      MirrorStep(Trig(Ratio(1, n + 1), 1.0, n + 1, 1), f(n + 2), Ratio(n + 2, n + 1));
      NegRatio(1, n + 1);
    } else {
      assert f(n) == [Substituted(1.0, 1.0, CosSub, -1, 0)] && g(n) == [Substituted(1.0, 1.0, SinSub, 0, -1)];
    }
  }

  lemma NegRatio(p: int, q: int)
    requires q != 0
    ensures -Ratio(p, q) == Ratio(-p, q)
  {
  }

  /** The cosine expansion is the mirror image of the sine expansion. */
  lemma {:induction false} MirrorExpansion(n: int, k: nat, i: nat)
    ensures Mirror(SinExpansion(n, k, i)) == CosExpansion(n, k, i)
    decreases k + 1 - i
  {
    if i <= k {
      var c := (Sign(i) * Binomial(k, i)) as real;
      MirrorExpansion(n, k, i + 1);
      MirrorSinPow(n + 2 * i);
      MirrorScale(SinPow(n + 2 * i), c);
      MirrorConcat(Scale(SinPow(n + 2 * i), c), SinExpansion(n, k, i + 1));
    }
  }

  /** The cases in which integrating sin^m cos^n is the mirror image of
      integrating sin^n cos^m: all but the odd tie n == m, where both
      orders take u = sin. */
  predicate MirrorCase(n: int, m: int) {
    !(Odd(n) && n == m)
  }

  /** Swapping the exponents mirrors the result: the dispatch treats sin and
      cos symmetrically outside the odd tie. */
  lemma {:induction false} MirrorSymmetry(a: real, n: int, m: int)
    requires a != 0.0 && MirrorCase(n, m)
    ensures TrigIntegrate(a, m, n) == Mirror(TrigIntegrate(a, n, m))
    decreases MinAbs(n, m), 4
  {
    if n == 0 && m == 0 {
    } else if Odd(n) || Odd(m) {
      assert OddSubstitution(m, n) != OddSubstitution(n, m);
    } else {
      MirrorBody(n, m);
      MirrorRescale(EvenBody(n, m), a);
    }
  }

  lemma {:induction false} MirrorBody(n: int, m: int)
    requires Even(n) && Even(m)
    ensures EvenBody(m, n) == Mirror(EvenBody(n, m))
    decreases MinAbs(n, m), 3
  {
    if Abs(n) > Abs(m) {
      MirrorBodyBig(n, m);
    } else if Abs(m) > Abs(n) {
      MirrorBodyBig(m, n);
      MirrorInvolution(EvenBody(m, n));
    } else {
      MirrorBodyEqual(n, m);
    }
  }

  /** Equal absolute exponents: sin^n cos^n becomes (sin(2x)/2)^n, which the
      reflection leaves alone, and sin^n cos^-n takes one reduction step of
      the positive exponent, whose mirror is the step of the other order. */
  lemma MirrorBodyEqual(n: int, m: int)
    requires Even(n) && Even(m) && Abs(n) == Abs(m)
    ensures EvenBody(m, n) == Mirror(EvenBody(n, m))
  {
    if m != n {
      if n < 0 {
        NegRatio(1, n + 1);
      } else {
        NegRatio(1, m + 1);
      }
    }
  }

  lemma {:induction false} MirrorBodyBig(n: int, m: int)
    requires Even(n) && Even(m) && Abs(n) > Abs(m)
    ensures EvenBody(m, n) == Mirror(EvenBody(n, m))
    decreases MinAbs(n, m), 2
  {
    if m > 0 {
      MirrorExpansion(n, m / 2, 0);
    } else if m == 0 {
      MirrorSinPow(n);
    } else {
      MirrorBodyStep(n, m);
    }
  }

  /** The negative-exponent step of the even case: one reduction of the
      larger exponent, then the dispatch again on (n - 2, m + 2). */
  lemma {:induction false} MirrorBodyStep(n: int, m: int)
    requires Even(n) && Even(m) && Abs(n) > Abs(m) && m < 0
    ensures EvenBody(m, n) == Mirror(EvenBody(n, m))
    decreases MinAbs(n, m), 1
  {
    assert MinAbs(n - 2, m + 2) < MinAbs(n, m);
    assert Abs(n - 2) > Abs(m + 2) && Even(n - 2) && Even(m + 2);
    MirrorRest(n - 2, m + 2);
    var rest := TrigIntegrate(1.0, n - 2, m + 2);
    var k := Ratio(n - 1, m + 1);
    var lead := Trig(Ratio(-1, m + 1), 1.0, n - 1, m + 1);
    NegRatio(-1, m + 1);
    MirrorOfStep(EvenBody(n, m), EvenBody(m, n), lead, Trig(Ratio(1, m + 1), 1.0, m + 1, n - 1),
      rest, TrigIntegrate(1.0, m + 2, n - 2), k);
  }

  /** The recursive call of the step mirrors, by induction on min(|n|, |m|). */
  lemma {:induction false} MirrorRest(n: int, m: int)
    requires Even(n) && Even(m) && Abs(n) > Abs(m)
    ensures TrigIntegrate(1.0, m, n) == Mirror(TrigIntegrate(1.0, n, m))
    decreases MinAbs(n, m), 5
  {
    MirrorSymmetry(1.0, n, m);
  }

  lemma MirrorOfStep(b: seq<Term>, b': seq<Term>, lead: Term, lead': Term, rest: seq<Term>, rest': seq<Term>, k: real)
    requires lead.Trig? && lead' == MirrorTerm(lead) && rest' == Mirror(rest)
    requires b == [lead] + Scale(rest, k) && b' == [lead'] + Scale(rest', k)
    ensures b' == Mirror(b)
  {
    MirrorStep(lead, rest, k);
  }

  /** The n == -1 break of the sin^n recursion is `trigintegrate(1/sin(x))`,
      and likewise for cos. */
  lemma PowMinusOne()
    ensures SinPow(-1) == TrigIntegrate(1.0, -1, 0)
    ensures CosPow(-1) == TrigIntegrate(1.0, 0, -1)
    ensures SinPow(-1) == [Substituted(1.0, 1.0, CosSub, -1, 0)]
    ensures CosPow(-1) == [Substituted(1.0, 1.0, SinSub, 0, -1)]
  {
    assert Odd(-1);
    assert 1.0 / 1.0 == 1.0 && 1.0 * 1.0 == 1.0;
  }

  /** At frequency zero the integrand sin(0)^n cos(0)^m is 1 when n == 0 and
      is taken as 0 otherwise: the result is x or nothing. */
  lemma ZeroFrequency(n: int, m: int)
    ensures TrigIntegrate(0.0, n, m) == if n == 0 then [X(1.0)] else []
    ensures XCoef(TrigIntegrate(0.0, n, m)) == if n == 0 then 1.0 else 0.0
  {
  }

  /** For a != 0 the result is the a == 1 result with x -> a*x, divided by a. */
  lemma FrequencyScaling(a: real, n: int, m: int)
    requires a != 0.0
    ensures TrigIntegrate(a, n, m) == if n == 0 && m == 0 then [X(1.0)] else Rescale(TrigIntegrate(1.0, n, m), a)
    ensures XCoef(TrigIntegrate(a, n, m)) == XCoef(TrigIntegrate(1.0, n, m))
  {
    if n == 0 && m == 0 {
    } else if Odd(n) || Odd(m) {
      var s := OddSubstitution(n, m);
      assert TrigIntegrate(1.0, n, m) == [Substituted(1.0 / 1.0, 1.0, s, n, m)];
      assert 1.0 / 1.0 / a == 1.0 / a && 1.0 * a == a;
      XCoefRescale(TrigIntegrate(1.0, n, m), a);
    } else {
      RescaleByOne(EvenBody(n, m));
      XCoefRescale(EvenBody(n, m), a);
    }
  }

  /** The odd tie: with n == m odd both exponents are odd and u = sin(a*x) is
      substituted, so the result is not the mirror of itself. */
  lemma OddTie(a: real, n: int)
    requires a != 0.0 && Odd(n)
    ensures TrigIntegrate(a, n, n) == [Substituted(1.0 / a, a, SinSub, n, n)]
    ensures TrigIntegrate(a, n, n) != Mirror(TrigIntegrate(a, n, n))
  {
    assert Mirror(TrigIntegrate(a, n, n))[0].sub == CosSub;
  }

  /** `trigintegrate(sin(x)*cos(x), x)` substitutes u = sin(x). */
  lemma SinCosExample()
    ensures TrigIntegrate(1.0, 1, 1) == [Substituted(1.0, 1.0, SinSub, 1, 1)]
  {
    OddTie(1.0, 1);
  }

  /** `trigintegrate(sin(x)**2, x)` is x/2 - sin(x)*cos(x)/2. */
  lemma SinSquaredExample()
    ensures TrigIntegrate(1.0, 2, 0) == [Trig(-0.5, 1.0, 1, 1), X(0.5)]
  {
    assert SinPow(2) == [Trig(Ratio(-1, 2), 1.0, 1, 1), X(1.0 * Ratio(1, 2))];
    RescaleByOne(SinPow(2));
  }

  /** The cos^n recursion keeps the length, the kinds of terms and the secular
      part of the sin^n recursion. */
  lemma CosPowFromSinPow(n: int)
    ensures |CosPow(n)| == (Abs(n) + 2) / 2
    ensures HasX(CosPow(n)) <==> Even(n)
    ensures XCoef(CosPow(n)) == XCoef(SinPow(n))
  {
    var s := SinPow(n);
    MirrorSinPow(n);
    SinPowLength(n);
    SinPowKinds(n);
    MirrorKeeps(s);
  }
}
