/** Relations between the set-membership handlers: the hermitian and
    antihermitian products, the real and imaginary products and powers, and
    the consequences of the integer product's closed form. */
module SetProperties {
  import opened Wrappers
  import opened Arith
  import opened Facts
  import opened SetHandlers

  /** The hermitian and antihermitian Mul handlers run one loop from
      opposite starting values: on the same facts they are both unknown or
      exact negations, and more than one noncommutative factor leaves both
      unknown. */
  lemma HermitianAntiHermitianMul(args: seq<Facts>)
    ensures HermitianMul(None, args) == Not3(AntiHermitianMul(None, args))
    ensures Count(args, IsNoncommutative) > 1 ==>
      HermitianMul(None, args) == None && AntiHermitianMul(None, args) == None
  {
  }

  /** No factor is reported both real and imaginary. */
  predicate RealImaginaryExclusive(args: seq<Facts>) {
    forall i :: 0 <= i < |args| ==> !(Truthy(args[i].realValued) && Truthy(args[i].imaginary))
  }

  /** When no factor is reported both real and imaginary, the real and the
      imaginary Mul handlers are both unknown or exact negations, the empty
      product included (real: True, imaginary: False). */
  lemma RealImaginaryMul(args: seq<Facts>)
    requires RealImaginaryExclusive(args)
    ensures RealMul(None, args) == Not3(ImaginaryMul(None, args))
  {
    CountSame(args, ImaginaryOnly, IsImaginary);
  }

  /** Powers of an imaginary base with a real exponent: odd is not real but
      imaginary, even is real and not imaginary, and otherwise both are
      unknown. */
  lemma ImaginaryBasePow(base: Facts, exp: Facts)
    requires Truthy(base.imaginary) && Truthy(exp.realValued)
    ensures RealPow(None, base, exp) == Not3(ImaginaryPow(None, base, exp))
    ensures Truthy(exp.odd) ==> RealPow(None, base, exp) == Some(false)
    ensures !Truthy(exp.odd) && Truthy(exp.even) ==> RealPow(None, base, exp) == Some(true)
  {
  }

  /** Powers of a real base with a real exponent whose denominator is not
      even: an integer exponent gives real and not imaginary, and in every
      case the two handlers are both unknown or exact negations. */
  lemma RealBasePow(base: Facts, exp: Facts)
    requires !Truthy(base.imaginary) && Truthy(base.realValued) && Truthy(exp.realValued)
    requires !EvenDenominator(exp)
    ensures RealPow(None, base, exp) == Not3(ImaginaryPow(None, base, exp))
    ensures Truthy(exp.integer) ==>
      RealPow(None, base, exp) == Some(true) && ImaginaryPow(None, base, exp) == Some(false)
  {
  }

  /** A real base under an exponent with an even denominator (a square root,
      say) is real when positive and imaginary when negative; as long as the
      base is not reported both positive and negative, the two handlers
      never both answer True. */
  lemma EvenRootPow(base: Facts, exp: Facts)
    requires !Truthy(base.imaginary) && Truthy(base.realValued) && Truthy(exp.realValued)
    requires EvenDenominator(exp)
    requires !(Truthy(base.positive) && Truthy(base.negative))
    ensures RealPow(None, base, exp) == base.positive
    ensures ImaginaryPow(None, base, exp) == base.negative
    ensures !(Truthy(RealPow(None, base, exp)) && Truthy(ImaginaryPow(None, base, exp)))
  {
  }

  /** A hermitian base to an integer power is hermitian and not
      antihermitian; the two Pow handlers never both answer True. */
  lemma HermitianAntiHermitianPow(base: Facts, exp: Facts)
    ensures Truthy(base.hermitian) && Truthy(exp.integer) ==>
      HermitianPow(None, base, exp) == Some(true) && AntiHermitianPow(None, base, exp) == Some(false)
    ensures !(Truthy(HermitianPow(None, base, exp)) && Truthy(AntiHermitianPow(None, base, exp)))
  {
  }

  /** A product of known integers is an integer. */
  lemma IntegerMulAllIntegers(args: seq<Facts>, evenOfDouble: Tri)
    requires All(args, IsInteger)
    ensures IntegerMul(None, args, evenOfDouble) == Some(true)
  {
    assert args[..|args|] == args;
    CountNone(args, IrrationalFactor);
    IntegerMulClosedForm(args, evenOfDouble, |args|);
  }

  /** Integers times exactly one irrational is not an integer. */
  lemma IntegerMulOneIrrational(args: seq<Facts>, evenOfDouble: Tri, j: nat)
    requires j < |args| && IrrationalFactor(args[j])
    requires forall i :: 0 <= i < |args| && i != j ==> IsInteger(args[i])
    ensures IntegerMul(None, args, evenOfDouble) == Some(false)
  {
    assert args[..|args|] == args;
    CountSingle(args, IrrationalFactor, j);
    IntegerMulClosedForm(args, evenOfDouble, |args|);
  }

  /** Two irrational factors among integers leave the answer unknown. */
  lemma IntegerMulTwoIrrationals(args: seq<Facts>, evenOfDouble: Tri, j: nat, k: nat)
    requires j < k < |args| && IrrationalFactor(args[j]) && IrrationalFactor(args[k])
    requires All(args, PassedOver)
    ensures IntegerMul(None, args, evenOfDouble) == None
  {
    assert args[..|args|] == args;
    CountTwo(args, IrrationalFactor, j, k);
    IntegerMulClosedForm(args, evenOfDouble, |args|);
  }

  /** The first non-integer rational literal among integer factors decides:
      denominator 2 defers to `even(2*expr)`, any other denominator gives
      None, because `~(q & 1)` is never 0. */
  lemma IntegerMulRationalFactor(args: seq<Facts>, evenOfDouble: Tri, s: nat)
    requires s < |args| && !IsInteger(args[s]) && args[s].den.Some?
    requires forall i :: 0 <= i < s ==> IsInteger(args[i])
    ensures IntegerMul(None, args, evenOfDouble) ==
      if args[s].den.value == 2 then evenOfDouble else None
  {
    CountNone(args[..s], IrrationalFactor);
    IntegerMulClosedForm(args, evenOfDouble, s);
  }

  lemma {:induction false} CountTwo(args: seq<Facts>, p: Facts -> bool, j: nat, k: nat)
    requires j < k < |args| && p(args[j]) && p(args[k])
    ensures Count(args, p) >= 2
    decreases |args|
  {
    if j == 0 {
      CountSingleAtLeast(args[1..], p, k - 1);
    } else {
      CountTwo(args[1..], p, j - 1, k - 1);
    }
  }

  lemma {:induction false} CountSingleAtLeast(args: seq<Facts>, p: Facts -> bool, k: nat)
    requires k < |args| && p(args[k])
    ensures Count(args, p) >= 1
    decreases |args|
  {
    if k > 0 {
      CountSingleAtLeast(args[1..], p, k - 1);
    }
  }

  /** Irrationality is three-valued negation of rationality on reals: the
      answer is True exactly for a real known not rational, False for a
      known non-real or a real known rational, and unknown otherwise. */
  lemma IrrationalOfReal(e: Facts)
    ensures IrrationalBasic(e) == Some(true) <==> Truthy(e.realValued) && e.rational == Some(false)
    ensures IrrationalBasic(e) == Some(false) <==>
      e.realValued == Some(false) || (Truthy(e.realValued) && e.rational == Some(true))
    ensures Truthy(e.realValued) ==> IrrationalBasic(e) == Not3(e.rational)
    ensures !Truthy(e.realValued) ==> IrrationalBasic(e) == e.realValued
  {
  }

  /** The irrational handler on a real power base**exp, given the rational
      Pow handler's answer for it. An integer power of a real base known
      rational (or known not rational) is not irrational (is irrational); a
      prime to a non-integer rational power, like sqrt(2), is irrational;
      anything else leaves the irrational question unknown too. */
  lemma PowIrrationality(base: Facts, exp: Facts, pow: Facts)
    requires pow.rational == RationalPow(base, exp) && Truthy(pow.realValued)
    ensures Truthy(exp.integer) ==> IrrationalBasic(pow) == Not3(base.rational)
    ensures !Truthy(exp.integer) && Truthy(exp.rational) && Truthy(base.prime) ==>
      IrrationalBasic(pow) == Some(true)
    ensures !Truthy(exp.integer) && !(Truthy(exp.rational) && Truthy(base.prime)) ==>
      IrrationalBasic(pow) == None
    ensures IrrationalBasic(pow) == Some(true) <==>
      (Truthy(exp.integer) && base.rational == Some(false))
      || (!Truthy(exp.integer) && Truthy(exp.rational) && Truthy(base.prime))
  {
  }

  /** A number with a nonzero imaginary part (so not real) is answered
      neither rational nor irrational: the irrational answer is not the
      negation of the rational one off the reals. */
  lemma NonRealNumberNeither(e: Facts, closedGroup: Tri)
    requires e.rational == RationalAdd(true, true, closedGroup)
    requires e.realValued == Some(false)
    ensures e.rational == Some(false) && IrrationalBasic(e) == Some(false)
    ensures IrrationalBasic(e) != Not3(e.rational)
  {
  }

  /** A canonical rational literal p/q that is not an integer (q >= 2) is
      algebraic but not an integer, and every integer literal (q == 1) is
      algebraic as well. */
  lemma RationalLiteralAnswers(p: int, q: int)
    requires q >= 2 && forall d :: 2 <= d <= q && q % d == 0 ==> p % d != 0
    ensures IntegerRational(p, q) == Some(false)
    ensures AlgebraicRational(q) == Some(true) && AlgebraicRational(1) == Some(true)
  {
    assert q % q == 0;
  }

  /** The algebraic and rational Pow handlers agree on a rational-literal
      exponent as long as every base known rational is known algebraic.
      They disagree on an exponent that is an integer but not a literal: a
      rational base to such a power is answered rational but not algebraic,
      because Python's `and` returns False for the non-literal exponent. */
  lemma AlgebraicVsRationalPow(base: Facts, exp: Facts)
    requires Truthy(base.rational) ==> Truthy(base.algebraic)
    ensures exp.den.Some? && Truthy(RationalPow(base, exp)) ==> Truthy(AlgebraicPow(base, exp))
    ensures exp.den.None? && Truthy(exp.integer) && Truthy(base.rational) ==>
      RationalPow(base, exp) == Some(true) && AlgebraicPow(base, exp) == Some(false)
  {
  }
}
