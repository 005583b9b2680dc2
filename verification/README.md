# Trigonometric power integration and set-membership handlers

This project models two pieces of SymPy, as shipped in a Pythonista app
template. It proves properties about both.

**`trigintegrate`** integrates `sin(a*x)**n * cos(a*x)**m` for integer
exponents n and m. The model covers:

- the case where both exponents are zero;
- the odd case, with its choice of substitution (`u = cos(a*x)` or `u = sin(a*x)`, the smaller odd exponent goes);
- the even-even case:
  - the binomial expansion when the larger exponent is paired with a positive one;
  - the plain reduction recursions `_sin_pow_integrate` and `_cos_pow_integrate`;
  - one reduction step when the smaller exponent is negative;
  - the `integrate` fall-backs when |n| == |m|;
- the final `Piecewise((zz, Eq(a, 0)), (res.subs(x, a*x)/a, True))`.

An antiderivative is a formal sum of `Term`s:

- `c * sin(f x)^j * cos(f x)^k`;
- `c * x`;
- a substituted integral (the result of `integrate(ff, u).subs(u, uu)` on an integrand ff in u (a polynomial for nonnegative exponents, a rational function such as -1/(1-u^2) at the n == -1 breaks), which is left opaque; every odd case produces one);
- a call of `integrate` on an integrand in x (the fall-back of lines 216-222);
- the integral of `(sin(2fx)/2)^m`.

Each term carries its coefficient and its frequency f.

**The `Q.integer`, `Q.rational`, `Q.irrational`, `Q.real`, `Q.hermitian`, `Q.imaginary`, `Q.antihermitian` and `Q.algebraic` handlers** are modelled for Mul, Add, Pow, Basic and Rational expressions. An answer is three-valued: `Tri`, which is `Some(true)`, `Some(false)` or `None`.

- **Truthiness.** Python's `if ask(...)` treats None like False. So only `Some(true)` is truthy (`Facts.Truthy`).
- **Recursive questions.** What `ask` answers about a factor, term, base or exponent is an input: one `Facts` record per argument.
- **Number paths.** The answer of each handler's `_number` path is an input too: `numeric: Option<Tri>`, where None means the expression is not a number.
- **Python loops.** A `for ... else` loop is a recursive function over the argument list. Its closed form is proved by induction.

The Mul handler of `Q.integer` tests `~(arg.q & 1)`. It is modelled exactly as written. Python's `~` of 0 or 1 is -1 or -2, which is always truthy (`SetHandlers.TildeAlwaysTruthy`). So when the loop reaches a non-integer rational factor with only integers (and at most one irrational) before it, that factor decides: denominator 2 defers to `ask(Q.even(2*expr))`, and every other denominator gives None.

## Model

| member | source | states |
|---|---|---|
| Trigonometry.SinPow | PythonistaAppTemplate/PythonistaKit.framework/pylib_ext/sympy/integrals/trigonometry.py:228-270 | `_sin_pow_integrate`: the recursion terminates for every integer n (down to 1 or 0 from above, up to -1 or 0 from below) and every term is at frequency 1 and is a trigonometric power, x, or (at n == -1, through line 252) the substituted integral of the odd case; no term integrates in x |
| Trigonometry.CosPow | PythonistaAppTemplate/PythonistaKit.framework/pylib_ext/sympy/integrals/trigonometry.py:273-312 | `_cos_pow_integrate`: terminates for every integer n; every term is at frequency 1 and is a trigonometric power, x, or (at n == -1, through line 295) the substituted integral of the odd case |
| Trigonometry.OddSubstitution | PythonistaAppTemplate/PythonistaKit.framework/pylib_ext/sympy/integrals/trigonometry.py:72-91 | u = cos is chosen exactly when n is odd and m is even or larger; u = sin exactly when m is odd and n is even or not smaller (the tie goes to sin); one of the two always holds |
| Trigonometry.Guard | PythonistaAppTemplate/PythonistaKit.framework/pylib_ext/sympy/integrals/trigonometry.py:223-225 | the piecewise result is `zz` when a == 0; otherwise `subs(x, a*x)/a` keeps the number of terms and the coefficient of x, and moves every term from frequency 1 to frequency a |
| Trigonometry.OddIntegrate | PythonistaAppTemplate/PythonistaKit.framework/pylib_ext/sympy/integrals/trigonometry.py:93-97 | the odd case is one substituted integral with coefficient 1/a at frequency a, or `zz` when a == 0 |
| Trigonometry.TrigIntegrate | PythonistaAppTemplate/PythonistaKit.framework/pylib_ext/sympy/integrals/trigonometry.py:66-72 | for a != 0 every term is at frequency a; `integrate` is called on an integrand in x (`integrate(sin^n cos^m, x)`) only when abs(n) == abs(m) with both even, while every odd case, the n == -1 breaks included, calls it on an integrand in u (line 93, the `Substituted` term: a polynomial for nonnegative exponents, a rational function such as -1/(1-u^2) at the n == -1 breaks); the recursion through the negative step terminates |
| Trigonometry.EvenBody | PythonistaAppTemplate/PythonistaKit.framework/pylib_ext/sympy/integrals/trigonometry.py:114-222 | the even-even body is at frequency 1 and calls `integrate` on an integrand in x only when abs(n) == abs(m) |
| Trigonometry.SinExpansion | PythonistaAppTemplate/PythonistaKit.framework/pylib_ext/sympy/integrals/trigonometry.py:121-124 | the binomial expansion of cos^(2k) in powers of sin yields only trigonometric powers, x terms and substituted integrals at frequency 1, never an integral in x |
| Trigonometry.CosExpansion | PythonistaAppTemplate/PythonistaKit.framework/pylib_ext/sympy/integrals/trigonometry.py:168-170 | the expansion of sin^(2k) in powers of cos yields only trigonometric powers, x terms and substituted integrals at frequency 1, never an integral in x |
| TrigProperties.SinPowLength | PythonistaAppTemplate/PythonistaKit.framework/pylib_ext/sympy/integrals/trigonometry.py:245-265 | the recursion takes abs(n)/2 steps, one term each, plus the base: (abs(n) + 2) / 2 terms in the formal sum, counting the 0*x term the n == -2 step leaves |
| TrigProperties.SinPowShape | PythonistaAppTemplate/PythonistaKit.framework/pylib_ext/sympy/integrals/trigonometry.py:245-246 | every trigonometric term is sin(x)^j * cos(x) with abs(j) < abs(n) and j of the other parity than n, for positive and negative n alike |
| TrigProperties.SinPowKinds | PythonistaAppTemplate/PythonistaKit.framework/pylib_ext/sympy/integrals/trigonometry.py:248-270 | an x term (coefficient 0 for negative n, see LiveXTerm) appears in the formal sum exactly for even n, from the n == 0 break; a substituted integral appears exactly for negative odd n, from the n == -1 break |
| TrigProperties.ShapeInduction | PythonistaAppTemplate/PythonistaKit.framework/pylib_ext/sympy/integrals/trigonometry.py:245-265 | for any function obeying the sin^n reduction formulas (as `_sin_pow_integrate` does), every trigonometric term is sin^j * cos with abs(j) < abs(n) and j of the other parity than n |
| TrigProperties.KindsInduction | PythonistaAppTemplate/PythonistaKit.framework/pylib_ext/sympy/integrals/trigonometry.py:248-270 | for any function obeying the sin^n reduction formulas, an x term (possibly 0*x) appears exactly for even n and a substituted integral exactly for negative odd n |
| TrigProperties.LiveXTerm | PythonistaAppTemplate/PythonistaKit.framework/pylib_ext/sympy/integrals/trigonometry.py:264-265 | x keeps a nonzero coefficient in the antiderivative of sin^n and of cos^n exactly for even n >= 0; for negative even n the only x term is the 0*x that SymPy drops |
| TrigProperties.SinPowSecular | PythonistaAppTemplate/PythonistaKit.framework/pylib_ext/sympy/integrals/trigonometry.py:245-270 | the coefficient of x is the product of the factors (2i-1)/(2i), i = 1..n/2, for even n >= 0, and 0 for odd or negative n |
| TrigProperties.SinPowSecularEven | PythonistaAppTemplate/PythonistaKit.framework/pylib_ext/sympy/integrals/trigonometry.py:245-246 | the coefficient of x for sin^(2j) is the product of the step factors (2i-1)/(2i), i = 1..j, one per reduction step |
| TrigProperties.SinPowSecularNone | PythonistaAppTemplate/PythonistaKit.framework/pylib_ext/sympy/integrals/trigonometry.py:264-265 | odd and negative exponents leave no x term with a nonzero coefficient (the step factor (n+2)/(n+1) vanishes at n == -2) |
| TrigProperties.SecularInduction | PythonistaAppTemplate/PythonistaKit.framework/pylib_ext/sympy/integrals/trigonometry.py:245-246 | for any function obeying the sin^n reduction formulas, the coefficient of x at n = 2j is the product of (2i-1)/(2i) for i = 1..j |
| TrigProperties.SecularDown | PythonistaAppTemplate/PythonistaKit.framework/pylib_ext/sympy/integrals/trigonometry.py:264-265 | for any function obeying the formulas, negative n leaves a zero coefficient of x, because the factor (n+2)/(n+1) is 0 at n == -2 |
| TrigProperties.WallisProductClosed | PythonistaAppTemplate/PythonistaKit.framework/pylib_ext/sympy/integrals/trigonometry.py:245-246 | the product of the step factors equals (2k)! / (k!^2 4^k) |
| TrigProperties.SecularIsWallis | PythonistaAppTemplate/PythonistaKit.framework/pylib_ext/sympy/integrals/trigonometry.py:228-312 | the coefficient of x in the antiderivatives of sin^(2k) and cos^(2k) is binomial(2k, k) / 4^k, the mean value over a period |
| TrigProperties.MirrorSinPow | PythonistaAppTemplate/PythonistaKit.framework/pylib_ext/sympy/integrals/trigonometry.py:273-312 | `_cos_pow_integrate` is the sin <-> cos mirror image of `_sin_pow_integrate` term by term, at every n |
| TrigProperties.MirrorUp | PythonistaAppTemplate/PythonistaKit.framework/pylib_ext/sympy/integrals/trigonometry.py:289-290 | for n >= 0, any pair of functions obeying the sin^n and cos^n formulas (lines 245-246) are mirror images term by term |
| TrigProperties.MirrorDown | PythonistaAppTemplate/PythonistaKit.framework/pylib_ext/sympy/integrals/trigonometry.py:307-308 | for n < 0 the same, through the n == -1 breaks, which substitute u = cos and u = sin respectively |
| TrigProperties.MirrorExpansion | PythonistaAppTemplate/PythonistaKit.framework/pylib_ext/sympy/integrals/trigonometry.py:150-170 | the cos-side expansion is the mirror image of the sin-side expansion |
| TrigProperties.MirrorBody | PythonistaAppTemplate/PythonistaKit.framework/pylib_ext/sympy/integrals/trigonometry.py:114-222 | for all even n, m, swapping the exponents mirrors the even-even body |
| TrigProperties.MirrorBodyEqual | PythonistaAppTemplate/PythonistaKit.framework/pylib_ext/sympy/integrals/trigonometry.py:206-222 | for even n, m with abs(n) == abs(m): the (sin(2x)/2)^n integral is its own mirror, and the two m == -n steps of lines 216-222 mirror each other |
| TrigProperties.MirrorBodyStep | PythonistaAppTemplate/PythonistaKit.framework/pylib_ext/sympy/integrals/trigonometry.py:146-148 | the negative-exponent step on the sin side mirrors the one on the cos side (lines 202-204), including the recursive `trigintegrate` |
| TrigProperties.MirrorBodyBig | PythonistaAppTemplate/PythonistaKit.framework/pylib_ext/sympy/integrals/trigonometry.py:118-148 | when abs(n) > abs(m), the cos-side body for (m, n) (lines 150-204) is the mirror image of the sin-side body for (n, m), in all three branches m > 0, m == 0 and m < 0 |
| TrigProperties.MirrorSymmetry | PythonistaAppTemplate/PythonistaKit.framework/pylib_ext/sympy/integrals/trigonometry.py:66-225 | for a != 0 and every n, m except the odd tie n == m, `trigintegrate` with the exponents swapped is the mirror image of the original |
| TrigProperties.OddTie | PythonistaAppTemplate/PythonistaKit.framework/pylib_ext/sympy/integrals/trigonometry.py:77-79 | with n == m odd, u = sin(a*x) is substituted, so the result is not its own mirror image: the symmetry has this exception |
| TrigProperties.PowMinusOne | PythonistaAppTemplate/PythonistaKit.framework/pylib_ext/sympy/integrals/trigonometry.py:249-252 | the n == -1 break of each power recursion is `trigintegrate(1/sin(x))` (resp. 1/cos(x)), one substituted integral, so the recursion does not come back |
| TrigProperties.ZeroFrequency | PythonistaAppTemplate/PythonistaKit.framework/pylib_ext/sympy/integrals/trigonometry.py:66-68 | at a == 0 the result is x when n == 0 and nothing otherwise |
| TrigProperties.FrequencyScaling | PythonistaAppTemplate/PythonistaKit.framework/pylib_ext/sympy/integrals/trigonometry.py:223-225 | for a != 0 the result is the a == 1 result with x -> a*x divided by a, and the coefficient of x does not depend on a |
| TrigProperties.SinCosExample | PythonistaAppTemplate/PythonistaKit.framework/pylib_ext/sympy/integrals/trigonometry.py:36-37 | `trigintegrate(sin(x)*cos(x), x)` substitutes u = sin(x) |
| TrigProperties.SinSquaredExample | PythonistaAppTemplate/PythonistaKit.framework/pylib_ext/sympy/integrals/trigonometry.py:39-40 | `trigintegrate(sin(x)**2, x)` is x/2 - sin(x)*cos(x)/2 |
| TrigProperties.CosPowFromSinPow | PythonistaAppTemplate/PythonistaKit.framework/pylib_ext/sympy/integrals/trigonometry.py:273-312 | the cos^n recursion has the length and the x term of the sin^n recursion (both counting the 0*x term at negative even n) and the same coefficient of x |
| SetHandlers.TildeAlwaysTruthy | PythonistaAppTemplate/PythonistaKit.framework/pylib_ext/sympy/assumptions/handlers/sets.py:57-58 | `~(q & 1)` is -1 or -2, never 0, so the guard always returns None |
| SetHandlers.IntegerMulClosedForm | PythonistaAppTemplate/PythonistaKit.framework/pylib_ext/sympy/assumptions/handlers/sets.py:42-67 | Integer Mul, with s the first factor the loop does not step over: two irrationals before s give None; reaching the end gives True with no irrational and False with one; stopping at a rational with denominator 2 gives `ask(Q.even(2*expr))`; any other stop gives None |
| SetHandlers.IntegerMulLoopStops | PythonistaAppTemplate/PythonistaKit.framework/pylib_ext/sympy/assumptions/handlers/sets.py:51-67 | the same closed form for the loop from any state of the `_output` flag |
| SetHandlers.IntegerRational | PythonistaAppTemplate/PythonistaKit.framework/pylib_ext/sympy/assumptions/handlers/sets.py:77-80 | a canonical rational p/q with q >= 2 gets the answer "p/q is an integer", which is False |
| SetProperties.NonRealNumberNeither | PythonistaAppTemplate/PythonistaKit.framework/pylib_ext/sympy/assumptions/handlers/sets.py:110-112 | a number with a nonzero imaginary part is answered not rational, and, being not real, not irrational either (lines 162-169): off the reals the irrational answer is not the negation of the rational one |
| SetHandlers.RealMulLoopClosed | PythonistaAppTemplate/PythonistaKit.framework/pylib_ext/sympy/assumptions/handlers/sets.py:205-216 | the loop answers from the parity of the imaginary factors when every factor is real or imaginary, else None |
| SetHandlers.RealMul | PythonistaAppTemplate/PythonistaKit.framework/pylib_ext/sympy/assumptions/handlers/sets.py:199-216 | a product of real-or-imaginary factors is real exactly when the number of imaginary ones is even; any other factor gives None; numbers go to the numeric path |
| SetHandlers.HermitianLoopClosed | PythonistaAppTemplate/PythonistaKit.framework/pylib_ext/sympy/assumptions/handlers/sets.py:313-328 | the shared loop flips once per antihermitian factor and gives None at a second noncommutative factor or a factor neither hermitian nor antihermitian |
| SetHandlers.HermitianMul | PythonistaAppTemplate/PythonistaKit.framework/pylib_ext/sympy/assumptions/handlers/sets.py:307-328 | with at most one noncommutative factor and all factors hermitian or antihermitian, the product is hermitian exactly for an even count of antihermitian factors; else None |
| SetHandlers.AntiHermitianMul | PythonistaAppTemplate/PythonistaKit.framework/pylib_ext/sympy/assumptions/handlers/sets.py:484-505 | the same conditions, antihermitian exactly for an odd count |
| SetHandlers.ImaginaryAddLoopClosed | PythonistaAppTemplate/PythonistaKit.framework/pylib_ext/sympy/assumptions/handlers/sets.py:392-407 | the loop counts the real terms when every term is real or imaginary, else stops with None |
| SetHandlers.ImaginaryAdd | PythonistaAppTemplate/PythonistaKit.framework/pylib_ext/sympy/assumptions/handlers/sets.py:386-407 | no real term gives True; exactly one real term, or only real terms, give False; several real terms among imaginary ones give None |
| SetHandlers.ImaginaryMulLoopClosed | PythonistaAppTemplate/PythonistaKit.framework/pylib_ext/sympy/assumptions/handlers/sets.py:416-427 | the loop answers from the parity of the imaginary factors when every factor is real or imaginary, else None |
| SetHandlers.ImaginaryMul | PythonistaAppTemplate/PythonistaKit.framework/pylib_ext/sympy/assumptions/handlers/sets.py:410-427 | a product of real-or-imaginary factors is imaginary exactly when the number of imaginary ones is odd (the `reals` counter never moves); anything else gives None |
| SetProperties.RationalLiteralAnswers | PythonistaAppTemplate/PythonistaKit.framework/pylib_ext/sympy/assumptions/handlers/sets.py:543-544 | a canonical literal p/q with q >= 2 is algebraic but not an integer (lines 77-80), and an integer literal is algebraic too |
| SetProperties.HermitianAntiHermitianMul | PythonistaAppTemplate/PythonistaKit.framework/pylib_ext/sympy/assumptions/handlers/sets.py:307-328 | the hermitian and antihermitian Mul answers are both unknown or exact negations, and both unknown with two noncommutative factors (lines 484-505 are the other half) |
| SetProperties.RealImaginaryMul | PythonistaAppTemplate/PythonistaKit.framework/pylib_ext/sympy/assumptions/handlers/sets.py:199-216 | when no factor is both real and imaginary, the real Mul answer is the three-valued negation of the imaginary Mul answer (lines 410-427) |
| SetProperties.ImaginaryBasePow | PythonistaAppTemplate/PythonistaKit.framework/pylib_ext/sympy/assumptions/handlers/sets.py:219-247 | an imaginary base to a real power: an odd exponent gives not real, an even exponent gives real, and the real answer negates the imaginary one (lines 430-455) |
| SetProperties.RealBasePow | PythonistaAppTemplate/PythonistaKit.framework/pylib_ext/sympy/assumptions/handlers/sets.py:219-247 | a real base to a real power with no even denominator: an integer exponent gives real and not imaginary, and the two handlers always negate each other |
| SetProperties.EvenRootPow | PythonistaAppTemplate/PythonistaKit.framework/pylib_ext/sympy/assumptions/handlers/sets.py:236-241 | a real base under an even-denominator exponent is real when positive and imaginary when negative (lines 444-449), and never both |
| SetProperties.HermitianAntiHermitianPow | PythonistaAppTemplate/PythonistaKit.framework/pylib_ext/sympy/assumptions/handlers/sets.py:331-339 | a hermitian base to an integer power is hermitian and not antihermitian, and the two Pow handlers (lines 508-523) never both answer True |
| SetProperties.IntegerMulAllIntegers | PythonistaAppTemplate/PythonistaKit.framework/pylib_ext/sympy/assumptions/handlers/sets.py:44 | Integer*Integer is an integer |
| SetProperties.IntegerMulOneIrrational | PythonistaAppTemplate/PythonistaKit.framework/pylib_ext/sympy/assumptions/handlers/sets.py:45 | integers times exactly one irrational are not an integer |
| SetProperties.IntegerMulTwoIrrationals | PythonistaAppTemplate/PythonistaKit.framework/pylib_ext/sympy/assumptions/handlers/sets.py:59-63 | a second irrational factor leaves the answer unknown |
| SetProperties.IntegerMulRationalFactor | PythonistaAppTemplate/PythonistaKit.framework/pylib_ext/sympy/assumptions/handlers/sets.py:54-58 | the first non-integer rational literal decides: denominator 2 defers to `Q.even(2*expr)`, every other denominator gives None |
| SetProperties.IrrationalOfReal | PythonistaAppTemplate/PythonistaKit.framework/pylib_ext/sympy/assumptions/handlers/sets.py:161-169 | irrational is True exactly for a real known not rational, False exactly for a known non-real or a real known rational, and otherwise unknown |
| SetProperties.PowIrrationality | PythonistaAppTemplate/PythonistaKit.framework/pylib_ext/sympy/assumptions/handlers/sets.py:118-128 | feeding the rational Pow answer into the irrational handler (lines 161-169) for a real power: an integer power of a base known not rational is irrational and of a base known rational is not; a prime to a non-integer rational power is irrational; otherwise unknown; True in exactly those two cases |
| SetProperties.AlgebraicVsRationalPow | PythonistaAppTemplate/PythonistaKit.framework/pylib_ext/sympy/assumptions/handlers/sets.py:538-540 | with every rational base algebraic, a rational-literal exponent never makes the rational Pow handler (lines 118-128) say True while this one does not; a non-literal integer exponent of a rational base is answered rational but not algebraic |

## Left out

- The pattern match that finds a, n and m (`_pat_sincos`, `rewrite('sincos')`, `match`): n, m and a are inputs. The None result when the integrand does not match is not modelled.
- `integrate` and `subs` are not computed. A substituted integral and the fall-back integrals are opaque terms that carry their inputs.
- The `conds` argument other than 'piecewise' (lines 97 and 225) is not modelled. The Piecewise is resolved at a concrete real a, since a is a number here rather than a symbol.
- Antiderivatives are formal sums. Like terms are not collected, so equality of results is equality of term lists.
- Terms with a zero coefficient are kept: the n == -2 step multiplies the n == 0 result x by (n+2)/(n+1) = 0, and SymPy's Mul evaluates that to 0 and drops it, while the model keeps X(0.0).
- TrigProperties.SinPowLength: counts the kept 0*x term, so for negative even n it is one more than the number of terms SymPy returns.
- TrigProperties.SinPowKinds: its x-term clause counts the kept 0*x term; TrigProperties.LiveXTerm states the program's x term, with a nonzero coefficient.
- TrigProperties.KindsInduction: the same kept 0*x term at negative even n.
- TrigProperties.CosPowFromSinPow: its length and x-term clauses count the same kept 0*x term.
- Whether the antiderivatives are correct as calculus (that their derivative is the integrand) is not modelled.
- Trigonometry.TrigIntegrate: the contract does not state the antiderivative itself. Its content is stated by the SinPow/CosPow, mirror and scaling lemmas.
- TrigProperties.MirrorSymmetry: excludes the odd tie n == m, where the source itself is not symmetric (OddTie).
- Each handler's `_number` helper (sets.py lines 20-28, 179-186, 381-383) and the Float handler (lines 82-84) evaluate numerically. They are inputs or left out.
- `ask`, `test_closed_group` and the `CommonHandler` always-true/always-false entries are not modelled. Their answers are inputs (`Facts`, `closedGroup`).
- The handlers that only delegate to `test_closed_group` or are aliases of such a handler (integer Add and Pow, real, hermitian and antihermitian Add, algebraic Add and Mul) are not modelled, and neither are the exp/log/trigonometric, matrix and Abs handlers.
- SetHandlers.RationalAdd and SetHandlers.AlgebraicRational: their own contracts only spell out the handler; what they mean is stated by NonRealNumberNeither and RationalLiteralAnswers.
- SetHandlers.IntegerRational: requires a canonical p/q with q >= 2, which SymPy's Rational guarantees; the source answers False without looking.
- Floating-point and integer-width effects are not modelled. SymPy's rationals are exact, and so are Dafny's `real` and `int`.
