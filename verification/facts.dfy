/** What the set-membership handlers know about a subexpression: the answers
    the assumption system gives for it, each three-valued. */
module Facts {
  import opened Wrappers

  /** A three-valued answer: Some(true), Some(false) or None (unknown). */
  type Tri = Option<bool>

  /** Python truthiness of an answer: only a definite True passes an `if`,
      so `if ask(...)` and `not ask(...)` treat None like False. */
  predicate Truthy(t: Tri) {
    t == Some(true)
  }

  /** Three-valued negation: True and False swap, None stays None. */
  function Not3(t: Tri): (r: Tri)
    ensures r.None? <==> t.None?
    ensures r.Some? ==> r.value != t.value
  {
    match t
    case None => None
    case Some(b) => Some(!b)
  }

  /** The facts the handlers ask about one argument (a factor, a term, the
      base or the exponent of a power). `realValued` is the answer to
      `Q.real` and `noncommutative` the answer to `~Q.commutative`. `den` is Some(q) exactly when the expression is a
      rational literal (an integer literal included) with denominator q. */
  datatype Facts = Facts(
    integer: Tri,
    rational: Tri,
    irrational: Tri,
    realValued: Tri,
    imaginary: Tri,
    hermitian: Tri,
    antihermitian: Tri,
    noncommutative: Tri,
    positive: Tri,
    negative: Tri,
    odd: Tri,
    even: Tri,
    prime: Tri,
    algebraic: Tri,
    den: Option<int>)

  /** How many of the arguments satisfy p. */
  function Count(args: seq<Facts>, p: Facts -> bool): (r: nat)
    ensures r <= |args|
  {
    if |args| == 0 then 0 else (if p(args[0]) then 1 else 0) + Count(args[1..], p)
  }

  /** Every argument satisfies p. */
  predicate All(args: seq<Facts>, p: Facts -> bool) {
    forall i :: 0 <= i < |args| ==> p(args[i])
  }

  /** Two properties that agree on every argument are counted alike. */
  lemma {:induction false} CountSame(args: seq<Facts>, p: Facts -> bool, q: Facts -> bool)
    requires forall i :: 0 <= i < |args| ==> p(args[i]) == q(args[i])
    ensures Count(args, p) == Count(args, q)
    decreases |args|
  {
    if |args| > 0 {
      CountSame(args[1..], p, q);
    }
  }

  /** Nothing is counted when no argument satisfies p. */
  lemma {:induction false} CountNone(args: seq<Facts>, p: Facts -> bool)
    requires forall i :: 0 <= i < |args| ==> !p(args[i])
    ensures Count(args, p) == 0
    decreases |args|
  {
    if |args| > 0 {
      CountNone(args[1..], p);
    }
  }

  /** Exactly one argument satisfying p is counted once. */
  lemma {:induction false} CountSingle(args: seq<Facts>, p: Facts -> bool, j: nat)
    requires j < |args| && p(args[j])
    requires forall i :: 0 <= i < |args| && i != j ==> !p(args[i])
    ensures Count(args, p) == 1
    decreases |args|
  {
    if j == 0 {
      CountNone(args[1..], p);
    } else {
      CountSingle(args[1..], p, j - 1);
    }
  }
}
