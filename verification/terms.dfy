/** Antiderivatives as the integration rules build them: a formal sum (a
    list, in the order the rules add the summands) of terms with exact
    rational coefficients. Every term except `X` carries the frequency f of
    its argument, so that `sin` below means sin(f*x). */
module Terms {
  import opened Arith

  /** The substitution of the odd-exponent case: u = sin(f*x) or u = cos(f*x). */
  datatype Sub = SinSub | CosSub

  datatype Term =
      /** coef * sin(freq*x)^sinPow * cos(freq*x)^cosPow */
    | Trig(coef: real, freq: real, sinPow: int, cosPow: int)
      /** coef * x */
    | X(coef: real)
      /** coef * F(u) with u = sin(freq*x) (SinSub) or u = cos(freq*x) (CosSub),
          where F is the library's `integrate(ff, u)` of the
          integrand of the odd case:
            CosSub: ff = -(1 - u^2)^((sinPow - 1)/2) * u^cosPow
            SinSub: ff = u^sinPow * (1 - u^2)^((cosPow - 1)/2) */
    | Substituted(coef: real, freq: real, sub: Sub, sinPow: int, cosPow: int)
      /** coef * G(freq*x), G the library's `integrate(sin(y)^sinPow * cos(y)^cosPow, y)` */
    | Integral(coef: real, freq: real, sinPow: int, cosPow: int)
      /** coef * H(freq*x), H the library's `integrate((sin(2y)/2)^pow, y)` */
    | HalfSinDouble(coef: real, freq: real, pow: int)

  /** A term whose argument is freq*x (the x term has none and fits every frequency). */
  predicate AtFreq(t: Term, f: real) {
    t.X? || t.freq == f
  }

  /** Not a call of `integrate` on an integrand in x: a trigonometric
      power, x, or a substituted integral. The last is itself a call of
      `integrate`, but on an integrand in u after the odd substitution: a
      polynomial for nonnegative exponents, a rational function such as
      -1/(1-u^2) at the n == -1 breaks. */
  predicate NoXIntegral(t: Term) {
    t.Trig? || t.X? || t.Substituted?
  }

  predicate AllAtFreq(ts: seq<Term>, f: real) {
    forall i :: 0 <= i < |ts| ==> AtFreq(ts[i], f)
  }

  /** No term of ts calls `integrate` on an integrand in x. */
  predicate NoXIntegrals(ts: seq<Term>) {
    forall i :: 0 <= i < |ts| ==> NoXIntegral(ts[i])
  }

  predicate HasX(ts: seq<Term>) {
    exists i :: 0 <= i < |ts| && ts[i].X?
  }

  predicate HasSubstituted(ts: seq<Term>) {
    exists i :: 0 <= i < |ts| && ts[i].Substituted?
  }

  /** k * t */
  function ScaleTerm(t: Term, k: real): Term {
    match t
    case X(c) => X(c * k)
    case Trig(c, f, s, m) => Trig(c * k, f, s, m)
    case Substituted(c, f, sub, s, m) => Substituted(c * k, f, sub, s, m)
    case Integral(c, f, s, m) => Integral(c * k, f, s, m)
    case HalfSinDouble(c, f, p) => HalfSinDouble(c * k, f, p)
  }

  /** k * (sum of ts) */
  function Scale(ts: seq<Term>, k: real): (r: seq<Term>)
    ensures |r| == |ts|
    ensures forall i :: 0 <= i < |ts| ==> r[i] == ScaleTerm(ts[i], k)
  {
    seq(|ts|, i requires 0 <= i < |ts| => ScaleTerm(ts[i], k))
  }

  /** `t.subs(x, a*x) / a` */
  function RescaleTerm(t: Term, a: real): (r: Term)
    requires a != 0.0
  {
    match t
    case X(c) => X(c)
    case Trig(c, f, s, k) => Trig(c / a, f * a, s, k)
    case Substituted(c, f, sub, s, k) => Substituted(c / a, f * a, sub, s, k)
    case Integral(c, f, s, k) => Integral(c / a, f * a, s, k)
    case HalfSinDouble(c, f, p) => HalfSinDouble(c / a, f * a, p)
  }

  /** `res.subs(x, a*x) / a` applied to a sum. */
  function Rescale(ts: seq<Term>, a: real): (r: seq<Term>)
    requires a != 0.0
    ensures |r| == |ts|
    ensures forall i :: 0 <= i < |ts| ==> r[i] == RescaleTerm(ts[i], a)
  {
    seq(|ts|, i requires 0 <= i < |ts| => RescaleTerm(ts[i], a))
  }

  /** The reflection x -> pi/(2f) - x, F -> -F, which swaps the roles of sin and
      cos: it maps an antiderivative of sin^n cos^m to one of sin^m cos^n. It is
      exact on Trig and Substituted terms and holds up to an additive constant
      on the others. */
  function MirrorTerm(t: Term): (r: Term) {
    match t
    case Trig(c, f, s, k) => Trig(-c, f, k, s)
    case X(c) => X(c)
    case Substituted(c, f, sub, s, k) =>
      Substituted(c, f, if sub == SinSub then CosSub else SinSub, k, s)
    case Integral(c, f, s, k) => Integral(c, f, k, s)
    case HalfSinDouble(c, f, p) => HalfSinDouble(c, f, p)
  }

  function Mirror(ts: seq<Term>): (r: seq<Term>)
    ensures |r| == |ts|
    ensures forall i :: 0 <= i < |ts| ==> r[i] == MirrorTerm(ts[i])
  {
    seq(|ts|, i requires 0 <= i < |ts| => MirrorTerm(ts[i]))
  }

  /** The coefficient of x in a sum (the secular part of an antiderivative). */
  function XCoef(ts: seq<Term>): real {
    if |ts| == 0 then 0.0
    else (if ts[0].X? then ts[0].coef else 0.0) + XCoef(ts[1..])
  }

  lemma MirrorInvolution(ts: seq<Term>)
    ensures Mirror(Mirror(ts)) == ts
  {
  }

  lemma MirrorConcat(a: seq<Term>, b: seq<Term>)
    ensures Mirror(a + b) == Mirror(a) + Mirror(b)
  {
  }

  lemma MirrorScale(ts: seq<Term>, k: real)
    ensures Mirror(Scale(ts, k)) == Scale(Mirror(ts), k)
  {
    forall i | 0 <= i < |ts|
      ensures MirrorTerm(ScaleTerm(ts[i], k)) == ScaleTerm(MirrorTerm(ts[i]), k)
    {
      match ts[i]
      case Trig(c, f, s, m) => assert -(c * k) == (-c) * k;
      case _ =>
    }
  }

  lemma MirrorRescale(ts: seq<Term>, a: real)
    requires a != 0.0
    ensures Mirror(Rescale(ts, a)) == Rescale(Mirror(ts), a)
  {
    forall i | 0 <= i < |ts|
      ensures MirrorTerm(RescaleTerm(ts[i], a)) == RescaleTerm(MirrorTerm(ts[i]), a)
    {
      match ts[i]
      case Trig(c, f, s, m) => NegDiv(c, a);
      case _ =>
    }
  }

  /** Substituting x -> 1*x and dividing by 1 changes nothing. */
  lemma RescaleByOne(ts: seq<Term>)
    ensures Rescale(ts, 1.0) == ts
  {
  }

  /** One reduction step, `lead + k * rest`: a Trig term in front of a scaled
      recursive result. */
  function Step(lead: Term, rest: seq<Term>, k: real): (r: seq<Term>)
    requires lead.Trig?
    ensures |r| == |rest| + 1 && r[0] == lead && r[1..] == Scale(rest, k)
  {
    [lead] + Scale(rest, k)
  }

  /** A step adds no x term and no substituted integral: the kinds of terms
      present are those of the recursive result. */
  lemma KindsOfStep(t: Term, ts: seq<Term>, k: real)
    requires t.Trig?
    ensures HasX(Step(t, ts, k)) <==> HasX(ts)
    ensures HasSubstituted(Step(t, ts, k)) <==> HasSubstituted(ts)
  {
    XOfStep(t, ts, k);
    SubstitutedOfStep(t, ts, k);
  }

  lemma XOfStep(t: Term, ts: seq<Term>, k: real)
    requires t.Trig?
    ensures HasX(Step(t, ts, k)) <==> HasX(ts)
  {
    var r := Step(t, ts, k);
    if HasX(ts) {
      var i :| 0 <= i < |ts| && ts[i].X?;
      assert r[i + 1] == ScaleTerm(ts[i], k);
    }
    if HasX(r) {
      var i :| 0 <= i < |r| && r[i].X?;
      assert r[i] == ScaleTerm(ts[i - 1], k);
    }
  }

  lemma SubstitutedOfStep(t: Term, ts: seq<Term>, k: real)
    requires t.Trig?
    ensures HasSubstituted(Step(t, ts, k)) <==> HasSubstituted(ts)
  {
    var r := Step(t, ts, k);
    if HasSubstituted(ts) {
      var i :| 0 <= i < |ts| && ts[i].Substituted?;
      assert r[i + 1] == ScaleTerm(ts[i], k);
    }
    if HasSubstituted(r) {
      var i :| 0 <= i < |r| && r[i].Substituted?;
      assert r[i] == ScaleTerm(ts[i - 1], k);
    }
  }

  lemma MirrorStep(lead: Term, rest: seq<Term>, k: real)
    requires lead.Trig?
    ensures Mirror(Step(lead, rest, k)) == Step(MirrorTerm(lead), Mirror(rest), k)
  {
    MirrorConcat([lead], Scale(rest, k));
    MirrorScale(rest, k);
  }

  /** The leading Trig term of a step carries no x part. */
  lemma XCoefStep(lead: Term, rest: seq<Term>, k: real)
    requires lead.Trig?
    ensures XCoef(Step(lead, rest, k)) == k * XCoef(rest)
  {
    var r := Step(lead, rest, k);
    assert r[1..] == Scale(rest, k);
    XCoefScale(rest, k);
  }

  lemma NegDiv(c: real, a: real)
    requires a != 0.0
    ensures -(c / a) == (-c) / a
  {
    var q := c / a;
    assert q * a == c;
    assert (-q) * a == -c;
  }

  lemma {:induction false} XCoefScale(ts: seq<Term>, k: real)
    ensures XCoef(Scale(ts, k)) == k * XCoef(ts)
    decreases |ts|
  {
    if |ts| > 0 {
      assert Scale(ts, k)[1..] == Scale(ts[1..], k);
      XCoefScale(ts[1..], k);
    }
  }

  /** The secular part survives `subs(x, a*x) / a` unchanged: x becomes a*x and
      is divided by a again. */
  lemma {:induction false} XCoefRescale(ts: seq<Term>, a: real)
    requires a != 0.0
    ensures XCoef(Rescale(ts, a)) == XCoef(ts)
    decreases |ts|
  {
    if |ts| > 0 {
      assert Rescale(ts, a)[1..] == Rescale(ts[1..], a);
      XCoefRescale(ts[1..], a);
    }
  }

  /** The reflection keeps the secular part. */
  lemma {:induction false} XCoefMirror(ts: seq<Term>)
    ensures XCoef(Mirror(ts)) == XCoef(ts)
    decreases |ts|
  {
    if |ts| > 0 {
      assert Mirror(ts)[1..] == Mirror(ts[1..]);
      XCoefMirror(ts[1..]);
    }
  }

  /** The reflection keeps the number of terms, whether an x term is
      present, and the secular part. */
  lemma MirrorKeeps(ts: seq<Term>)
    ensures |Mirror(ts)| == |ts|
    ensures HasX(Mirror(ts)) <==> HasX(ts)
    ensures XCoef(Mirror(ts)) == XCoef(ts)
  {
    XCoefMirror(ts);
    if HasX(ts) {
      var i :| 0 <= i < |ts| && ts[i].X?;
      assert Mirror(ts)[i].X?;
    }
    if HasX(Mirror(ts)) {
      var i :| 0 <= i < |ts| && Mirror(ts)[i].X?;
      assert ts[i].X?;
    }
  }
}
