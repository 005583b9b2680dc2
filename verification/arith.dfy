/** Integer helpers shared by the integration rules: parity as sympy's
    `is_odd`/`is_even` decide it, exact rationals, binomial coefficients. */
module Arith {

  function Abs(n: int): nat {
    if n < 0 then -n else n
  }

  /** The smaller of |n| and |m|: the measure the even-even reduction steps decrease. */
  function MinAbs(n: int, m: int): nat {
    if Abs(n) < Abs(m) then Abs(n) else Abs(m)
  }

  /** `n.is_odd` for an integer; Dafny's `%` never returns a negative remainder,
      so this agrees with Python for negative n as well. */
  predicate Odd(n: int) {
    n % 2 == 1
  }

  predicate Even(n: int) {
    n % 2 == 0
  }

  /** sympy's `Rational(p, q)`: an exact quotient, defined only for q != 0. */
  function Ratio(p: int, q: int): real
    requires q != 0
  {
    p as real / q as real
  }

  /** (-1)**i */
  function Sign(i: nat): int {
    if i % 2 == 0 then 1 else -1
  }

  /** `binomial(k, i)` for 0 <= i <= k, by Pascal's rule. */
  function Binomial(k: nat, i: nat): nat
    decreases k
  {
    if i > k then 0
    else if i == 0 || i == k then 1
    else Binomial(k - 1, i - 1) + Binomial(k - 1, i)
  }

  function Fact(n: nat): (r: nat)
    ensures r >= 1
  {
    if n == 0 then 1 else n * Fact(n - 1)
  }

  function Pow4(k: nat): (r: nat)
    ensures r >= 1
  {
    if k == 0 then 1 else 4 * Pow4(k - 1)
  }

  /** The Wallis constant (2k)! / (k!^2 4^k) = binomial(2k, k) / 4^k: the mean
      value of sin^(2k) over a period. */
  function Wallis(k: nat): real {
    (Fact(2 * k) as real) / ((Fact(k) * Fact(k) * Pow4(k)) as real)
  }

  /** The same constant as the product of (2i-1)/(2i) for i = 1..k, the form
      in which the sin^n reduction recursion builds it. */
  function WallisProduct(k: nat): real {
    if k == 0 then 1.0 else Ratio(2 * k - 1, 2 * k) * WallisProduct(k - 1)
  }

  lemma WallisProductStep(k: nat)
    requires k >= 1
    ensures WallisProduct(k) == Ratio(2 * k - 1, 2 * k) * WallisProduct(k - 1)
  {
  }

  /** Python's `~x` on an unbounded integer. */
  function BitNot(x: int): int {
    -x - 1
  }

  /** Python's `q & 1`: the lowest bit of the two's-complement representation,
      which for every integer (negative ones included) is the non-negative
      remainder modulo 2. */
  function LowBit(q: int): int {
    q % 2
  }
}
