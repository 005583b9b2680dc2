/** The Mul, Add, Pow, Basic and Rational handlers of the set-membership
    predicates (integer, rational, irrational, real, hermitian, imaginary,
    antihermitian, algebraic). Each is a three-valued decision over the facts
    the assumption system reports for the subexpressions; those facts, the
    answer of the numeric evaluation helper when the expression is a number
    (`numeric`), and the answer of the closed-group test are inputs. A
    `for ... else` loop over the arguments is a recursive function over the
    remaining arguments that carries the loop's state. */
module SetHandlers {
  import opened Wrappers
  import opened Arith
  import opened Facts

  /* ---------- per-argument classifications ---------- */

  predicate IsInteger(f: Facts) { Truthy(f.integer) }

  /** A factor the integer Mul loop treats as irrational: not known integer,
      not a rational literal, known irrational. */
  predicate IrrationalFactor(f: Facts) {
    !Truthy(f.integer) && f.den.None? && Truthy(f.irrational)
  }

  /** A factor the integer Mul loop steps over without returning. */
  predicate PassedOver(f: Facts) {
    Truthy(f.integer) || IrrationalFactor(f)
  }

  predicate RealOrImaginary(f: Facts) { Truthy(f.realValued) || Truthy(f.imaginary) }

  /** Known imaginary and not known real: the real Mul loop flips on these. */
  predicate ImaginaryOnly(f: Facts) { !Truthy(f.realValued) && Truthy(f.imaginary) }

  predicate IsImaginary(f: Facts) { Truthy(f.imaginary) }

  /** Known real and not known imaginary: the terms the imaginary Add loop counts. */
  predicate RealOnly(f: Facts) { !Truthy(f.imaginary) && Truthy(f.realValued) }

  predicate HermitianOrAnti(f: Facts) { Truthy(f.antihermitian) || Truthy(f.hermitian) }

  predicate IsAntihermitian(f: Facts) { Truthy(f.antihermitian) }

  predicate IsNoncommutative(f: Facts) { Truthy(f.noncommutative) }

  /** `expr.exp.is_Rational and ask(Q.even(expr.exp.q))`: the denominator of a
      rational-literal exponent is an integer, so its evenness is decided. */
  predicate EvenDenominator(exp: Facts) {
    exp.den.Some? && Even(exp.den.value)
  }

  /* ---------- AskIntegerHandler ---------- */

  /** The loop of the integer Mul handler, with `output` its flag. A factor
      that is not known integer ends the loop unless it is the first
      irrational one; a rational literal with denominator 2 hands the
      question to `even(2*expr)` (`evenOfDouble`). */
  function IntegerMulLoop(args: seq<Facts>, output: bool, evenOfDouble: Tri): Tri
    decreases |args|
  {
    if |args| == 0 then Some(output)
    else
      var f, rest := args[0], args[1..];
      var next := IntegerMulLoop(rest, output, evenOfDouble);
      if Truthy(f.integer) then next
      else if f.den.Some? then
        (if f.den.value == 2 then evenOfDouble
         else if BitNot(LowBit(f.den.value)) != 0 then None
         else next)
      else if Truthy(f.irrational) then
        (if output then IntegerMulLoop(rest, false, evenOfDouble) else None)
      else None
  }

  /** `AskIntegerHandler.Mul`. */
  function IntegerMul(numeric: Option<Tri>, args: seq<Facts>, evenOfDouble: Tri): Tri {
    if numeric.Some? then numeric.value else IntegerMulLoop(args, true, evenOfDouble)
  }

  /** Python's `~(q & 1)` is -1 or -2, never 0: the test guarding the
      early `return None` always passes. */
  lemma TildeAlwaysTruthy(q: int)
    ensures BitNot(LowBit(q)) == -1 || BitNot(LowBit(q)) == -2
    ensures BitNot(LowBit(q)) != 0
  {
  }

  /** The integer Mul loop in closed form: s is the first factor it does not
      step over. Two irrationals before it give None; reaching the end gives
      True when no irrational was seen and False after exactly one; stopping
      at a rational literal with denominator 2 gives `evenOfDouble`; any
      other stop gives None. */
  lemma {:induction false} IntegerMulLoopStops(args: seq<Facts>, output: bool, evenOfDouble: Tri, s: nat)
    requires s <= |args|
    requires forall i :: 0 <= i < s ==> PassedOver(args[i])
    requires s < |args| ==> !PassedOver(args[s])
    ensures var k := Count(args[..s], IrrationalFactor) + (if output then 0 else 1);
      IntegerMulLoop(args, output, evenOfDouble) ==
        if k >= 2 then None
        else if s == |args| then Some(k == 0)
        else if args[s].den == Some(2) then evenOfDouble
        else None
    decreases s
  {
    if s == 0 {
      assert args[..0] == [];
      if |args| > 0 && args[0].den.Some? {
        TildeAlwaysTruthy(args[0].den.value);
      }
    } else {
      var rest := args[1..];
      assert args[..s][1..] == rest[..s - 1];
      if Truthy(args[0].integer) {
        IntegerMulLoopStops(rest, output, evenOfDouble, s - 1);
      } else if output {
        IntegerMulLoopStops(rest, false, evenOfDouble, s - 1);
      } else {
        assert Count(args[..s], IrrationalFactor) >= 1;
      }
    }
  }

  /** `AskIntegerHandler.Mul` on a non-numeric product, in closed form. */
  lemma IntegerMulClosedForm(args: seq<Facts>, evenOfDouble: Tri, s: nat)
    requires s <= |args|
    requires forall i :: 0 <= i < s ==> PassedOver(args[i])
    requires s < |args| ==> !PassedOver(args[s])
    ensures var k := Count(args[..s], IrrationalFactor);
      IntegerMul(None, args, evenOfDouble) ==
        if k >= 2 then None
        else if s == |args| then Some(k == 0)
        else if args[s].den == Some(2) then evenOfDouble
        else None
  {
    IntegerMulLoopStops(args, true, evenOfDouble, s);
  }

  /** `AskIntegerHandler.Rational` answers False: a canonical rational whose
      denominator is not 1 is never an integer. */
  function IntegerRational(p: int, q: int): (r: Tri)
    requires q >= 2 && forall d :: 2 <= d <= q && q % d == 0 ==> p % d != 0
    ensures r == Some(p % q == 0)
  {
    assert p % q != 0;
    Some(false)
  }

  /* ---------- AskRationalHandler ---------- */

  /** `AskRationalHandler.Add`, which is also its Mul: a number with a
      nonzero imaginary part is not rational; otherwise the closed-group
      test decides. */
  function RationalAdd(isNumber: bool, imagPartNonzero: bool, closedGroup: Tri): (r: Tri)
    ensures isNumber && imagPartNonzero ==> r == Some(false)
    ensures !(isNumber && imagPartNonzero) ==> r == closedGroup
  {
    if isNumber && imagPartNonzero then Some(false) else closedGroup
  }

  /** `AskRationalHandler.Pow`. */
  function RationalPow(base: Facts, exp: Facts): Tri {
    if Truthy(exp.integer) then base.rational
    else if Truthy(exp.rational) then
      (if Truthy(base.prime) then Some(false) else None)
    else None
  }

  /* ---------- AskIrrationalHandler ---------- */

  /** `AskIrrationalHandler.Basic` on an expression with facts e. */
  function IrrationalBasic(e: Facts): Tri {
    if Truthy(e.realValued) then
      (if e.rational.None? then None else Some(!e.rational.value))
    else e.realValued
  }

  /* ---------- AskRealHandler ---------- */

  /** The loop of the real Mul handler: real factors pass, imaginary ones
      flip the result, any other factor breaks out (None). */
  function RealMulLoop(args: seq<Facts>, result: bool): Tri
    decreases |args|
  {
    if |args| == 0 then Some(result)
    else if Truthy(args[0].realValued) then RealMulLoop(args[1..], result)
    else if Truthy(args[0].imaginary) then RealMulLoop(args[1..], result != true)
    else None
  }

  lemma {:induction false} RealMulLoopClosed(args: seq<Facts>, result: bool)
    ensures RealMulLoop(args, result) ==
      if All(args, RealOrImaginary) then Some(result != Odd(Count(args, ImaginaryOnly))) else None
    decreases |args|
  {
    if |args| > 0 {
      var rest := args[1..];
      RealMulLoopClosed(rest, result);
      RealMulLoopClosed(rest, !result);
      assert All(args, RealOrImaginary) <==> RealOrImaginary(args[0]) && All(rest, RealOrImaginary) by {
        if RealOrImaginary(args[0]) && All(rest, RealOrImaginary) {
          forall i | 0 <= i < |args| ensures RealOrImaginary(args[i]) {
            if i > 0 { assert args[i] == rest[i - 1]; }
          }
        }
      }
    }
  }

  /** `AskRealHandler.Mul`: a product whose factors are all known real or
      known imaginary is real exactly when an even number of them are
      imaginary (and not known real); any other factor makes it unknown. */
  function RealMul(numeric: Option<Tri>, args: seq<Facts>): (r: Tri)
    ensures numeric.Some? ==> r == numeric.value
    ensures numeric.None? && All(args, RealOrImaginary) ==> r == Some(!Odd(Count(args, ImaginaryOnly)))
    ensures numeric.None? && !All(args, RealOrImaginary) ==> r == None
  {
    RealMulLoopClosed(args, true);
    if numeric.Some? then numeric.value else RealMulLoop(args, true)
  }

  /** `AskRealHandler.Pow`. */
  function RealPow(numeric: Option<Tri>, base: Facts, exp: Facts): Tri {
    if numeric.Some? then numeric.value
    else if Truthy(base.imaginary) then
      (if Truthy(exp.realValued) then
         (if Truthy(exp.odd) then Some(false)
          else if Truthy(exp.even) then Some(true)
          else None)
       else None)
    else if Truthy(base.realValued) then
      (if Truthy(exp.realValued) then
         (if EvenDenominator(exp) then base.positive
          else if Truthy(exp.integer) then Some(true)
          else if Truthy(base.positive) then Some(true)
          else if Truthy(base.negative) then Some(false)
          else None)
       else None)
    else None
  }

  /* ---------- AskHermitianHandler and AskAntiHermitianHandler ---------- */

  /** The loop shared by the hermitian and antihermitian Mul handlers:
      antihermitian factors flip the result, factors known to be neither
      break out, and a second noncommutative factor breaks out. */
  function HermitianLoop(args: seq<Facts>, nccount: nat, result: bool): Tri
    decreases |args|
  {
    if |args| == 0 then Some(result)
    else
      var f, rest := args[0], args[1..];
      if !Truthy(f.antihermitian) && !Truthy(f.hermitian) then None
      else
        var flipped := if Truthy(f.antihermitian) then result != true else result;
        if Truthy(f.noncommutative) then
          (if nccount + 1 > 1 then None else HermitianLoop(rest, nccount + 1, flipped))
        else HermitianLoop(rest, nccount, flipped)
  }

  lemma {:induction false} HermitianLoopClosed(args: seq<Facts>, nccount: nat, result: bool)
    requires nccount <= 1
    ensures HermitianLoop(args, nccount, result) ==
      if All(args, HermitianOrAnti) && nccount + Count(args, IsNoncommutative) <= 1
      then Some(result != Odd(Count(args, IsAntihermitian)))
      else None
    decreases |args|
  {
    if |args| > 0 {
      var f, rest := args[0], args[1..];
      assert All(args, HermitianOrAnti) <==> HermitianOrAnti(f) && All(rest, HermitianOrAnti) by {
        if HermitianOrAnti(f) && All(rest, HermitianOrAnti) {
          forall i | 0 <= i < |args| ensures HermitianOrAnti(args[i]) {
            if i > 0 { assert args[i] == rest[i - 1]; }
          }
        }
      }
      assert Count(args, IsNoncommutative) == (if IsNoncommutative(f) then 1 else 0) + Count(rest, IsNoncommutative);
      assert Count(args, IsAntihermitian) == (if IsAntihermitian(f) then 1 else 0) + Count(rest, IsAntihermitian);
      var flipped := if Truthy(f.antihermitian) then !result else result;
      if !HermitianOrAnti(f) {
      } else if Truthy(f.noncommutative) {
        if nccount == 0 {
          HermitianLoopClosed(rest, 1, flipped);
        }
      } else {
        HermitianLoopClosed(rest, nccount, flipped);
      }
    }
  }

  /** `AskHermitianHandler.Mul`: with at most one noncommutative factor and
      every factor hermitian or antihermitian, the product is hermitian
      exactly when the number of antihermitian factors is even. */
  function HermitianMul(numeric: Option<Tri>, args: seq<Facts>): (r: Tri)
    ensures numeric.Some? ==> r == numeric.value
    ensures numeric.None? ==> (r ==
      if All(args, HermitianOrAnti) && Count(args, IsNoncommutative) <= 1
      then Some(!Odd(Count(args, IsAntihermitian)))
      else None)
  {
    HermitianLoopClosed(args, 0, true);
    if numeric.Some? then numeric.value else HermitianLoop(args, 0, true)
  }

  /** `AskAntiHermitianHandler.Mul`: the same loop started from False, so
      the product is antihermitian exactly when the count is odd. */
  function AntiHermitianMul(numeric: Option<Tri>, args: seq<Facts>): (r: Tri)
    ensures numeric.Some? ==> r == numeric.value
    ensures numeric.None? ==> (r ==
      if All(args, HermitianOrAnti) && Count(args, IsNoncommutative) <= 1
      then Some(Odd(Count(args, IsAntihermitian)))
      else None)
  {
    HermitianLoopClosed(args, 0, false);
    if numeric.Some? then numeric.value else HermitianLoop(args, 0, false)
  }

  /** `AskHermitianHandler.Pow`. */
  function HermitianPow(numeric: Option<Tri>, base: Facts, exp: Facts): Tri {
    if numeric.Some? then numeric.value
    else if Truthy(base.hermitian) && Truthy(exp.integer) then Some(true)
    else None
  }

  /** `AskAntiHermitianHandler.Pow`. */
  function AntiHermitianPow(numeric: Option<Tri>, base: Facts, exp: Facts): Tri {
    if numeric.Some? then numeric.value
    else if Truthy(base.hermitian) then
      (if Truthy(exp.integer) then Some(false) else None)
    else if Truthy(base.antihermitian) then
      (if Truthy(exp.even) then Some(false)
       else if Truthy(exp.odd) then Some(true)
       else None)
    else None
  }

  /* ---------- AskImaginaryHandler ---------- */

  /** The loop of the imaginary Add handler: imaginary terms pass, real ones
      are counted, any other term breaks out (None). The answer is the
      count of real terms when the loop runs to the end. */
  function ImaginaryAddLoop(args: seq<Facts>, reals: nat): Option<nat>
    decreases |args|
  {
    if |args| == 0 then Some(reals)
    else if Truthy(args[0].imaginary) then ImaginaryAddLoop(args[1..], reals)
    else if Truthy(args[0].realValued) then ImaginaryAddLoop(args[1..], reals + 1)
    else None
  }

  lemma {:induction false} ImaginaryAddLoopClosed(args: seq<Facts>, reals: nat)
    ensures ImaginaryAddLoop(args, reals) ==
      if All(args, RealOrImaginary) then Some(reals + Count(args, RealOnly)) else None
    decreases |args|
  {
    if |args| > 0 {
      var rest := args[1..];
      ImaginaryAddLoopClosed(rest, reals);
      ImaginaryAddLoopClosed(rest, reals + 1);
      assert All(args, RealOrImaginary) <==> RealOrImaginary(args[0]) && All(rest, RealOrImaginary) by {
        if RealOrImaginary(args[0]) && All(rest, RealOrImaginary) {
          forall i | 0 <= i < |args| ensures RealOrImaginary(args[i]) {
            if i > 0 { assert args[i] == rest[i - 1]; }
          }
        }
      }
    }
  }

  /** `AskImaginaryHandler.Add`: when every term is known imaginary or known
      real, no real term gives True, one real term or only real terms give
      False (two reals could cancel), and anything else is unknown. */
  function ImaginaryAdd(numeric: Option<Tri>, args: seq<Facts>): (r: Tri)
    ensures numeric.Some? ==> r == numeric.value
    ensures numeric.None? && !All(args, RealOrImaginary) ==> r == None
    ensures numeric.None? && All(args, RealOrImaginary) ==>
      var n := Count(args, RealOnly);
      r == if n == 0 then Some(true) else if n == 1 || n == |args| then Some(false) else None
  {
    ImaginaryAddLoopClosed(args, 0);
    if numeric.Some? then numeric.value
    else match ImaginaryAddLoop(args, 0)
      case None => None
      case Some(reals) =>
        if reals == 0 then Some(true)
        else if reals == 1 || |args| == reals then Some(false)
        else None
  }

  /** The loop of the imaginary Mul handler: imaginary factors flip the
      result, factors not known real break out (None). */
  function ImaginaryMulLoop(args: seq<Facts>, result: bool): Tri
    decreases |args|
  {
    if |args| == 0 then Some(result)
    else if Truthy(args[0].imaginary) then ImaginaryMulLoop(args[1..], result != true)
    else if !Truthy(args[0].realValued) then None
    else ImaginaryMulLoop(args[1..], result)
  }

  lemma {:induction false} ImaginaryMulLoopClosed(args: seq<Facts>, result: bool)
    ensures ImaginaryMulLoop(args, result) ==
      if All(args, RealOrImaginary) then Some(result != Odd(Count(args, IsImaginary))) else None
    decreases |args|
  {
    if |args| > 0 {
      var rest := args[1..];
      ImaginaryMulLoopClosed(rest, result);
      ImaginaryMulLoopClosed(rest, !result);
      assert All(args, RealOrImaginary) <==> RealOrImaginary(args[0]) && All(rest, RealOrImaginary) by {
        if RealOrImaginary(args[0]) && All(rest, RealOrImaginary) {
          forall i | 0 <= i < |args| ensures RealOrImaginary(args[i]) {
            if i > 0 { assert args[i] == rest[i - 1]; }
          }
        }
      }
    }
  }

  /** `AskImaginaryHandler.Mul`. Its `reals` counter is never incremented,
      so the `reals == len(args)` test fires only on the empty product, where
      it answers False, which is also what the parity rule gives: the
      product is imaginary exactly when an odd number of factors are. */
  function ImaginaryMul(numeric: Option<Tri>, args: seq<Facts>): (r: Tri)
    ensures numeric.Some? ==> r == numeric.value
    ensures numeric.None? && All(args, RealOrImaginary) ==> r == Some(Odd(Count(args, IsImaginary)))
    ensures numeric.None? && !All(args, RealOrImaginary) ==> r == None
  {
    ImaginaryMulLoopClosed(args, false);
    var reals := 0;
    if numeric.Some? then numeric.value
    else match ImaginaryMulLoop(args, false)
      case None => None
      case Some(result) => if reals == |args| then Some(false) else Some(result)
  }

  /** `AskImaginaryHandler.Pow`. */
  function ImaginaryPow(numeric: Option<Tri>, base: Facts, exp: Facts): Tri {
    if numeric.Some? then numeric.value
    else if Truthy(base.imaginary) then
      (if Truthy(exp.realValued) then
         (if Truthy(exp.odd) then Some(true)
          else if Truthy(exp.even) then Some(false)
          else None)
       else None)
    else if Truthy(base.realValued) then
      (if Truthy(exp.realValued) then
         (if EvenDenominator(exp) then base.negative
          else if Truthy(exp.integer) then Some(false)
          else if Truthy(base.positive) then Some(false)
          else if Truthy(base.negative) then Some(true)
          else None)
       else None)
    else None
  }

  /* ---------- AskAlgebraicHandler ---------- */

  /** `AskAlgebraicHandler.Pow`: Python's `and` yields False itself when the
      exponent is not a rational literal, else the base's answer. */
  function AlgebraicPow(base: Facts, exp: Facts): Tri {
    if exp.den.None? then Some(false) else base.algebraic
  }

  /** `AskAlgebraicHandler.Rational`: a rational literal p/q is algebraic
      whenever it exists, that is whenever q != 0. */
  function AlgebraicRational(q: int): (r: Tri)
    ensures Truthy(r) <==> q != 0
    ensures r.Some?
  {
    Some(q != 0)
  }
}
