/** How pyrand.py propagates the probability that a bit is 1 through the
    gates, next to an independent reference: the exact probability of the
    gate's output when its inputs are Bernoulli bits that are either
    independent or one and the same bit. */
module Probability {
  import opened Bits

  /** A probability: a real in the closed interval [0, 1]. */
  predicate InUnit(p: real) {
    0.0 <= p <= 1.0
  }

  /** The probability that a bit which is 1 with probability `p` takes the value `x`. */
  function Weight(p: real, x: bool): (r: real) {
    if x then p else 1.0 - p
  }

  /** The probability of a bit that is known with certainty. */
  function Certain(b: bool): (r: real) {
    if b then 1.0 else 0.0
  }

  /** Reference: the probability that `g(x, y)` is 1 when `x` and `y` are
      independent bits that are 1 with probabilities `p` and `q`. */
  function Independent(g: Gate, p: real, q: real): (r: real) {
    (if g.Eval(true, true) then Weight(p, true) * Weight(q, true) else 0.0) +
    (if g.Eval(true, false) then Weight(p, true) * Weight(q, false) else 0.0) +
    (if g.Eval(false, true) then Weight(p, false) * Weight(q, true) else 0.0) +
    (if g.Eval(false, false) then Weight(p, false) * Weight(q, false) else 0.0)
  }

  /** Reference: the probability that `g(x, x)` is 1 for a single bit `x`
      that is 1 with probability `p` (both gate inputs are the same bit). */
  function Correlated(g: Gate, p: real): (r: real) {
    (if g.Eval(true, true) then Weight(p, true) else 0.0) +
    (if g.Eval(false, false) then Weight(p, false) else 0.0)
  }

  /** The update for a literal (known) other bit `b`, as the operators'
      bitarray branches write it. */
  function LiteralRule(g: Gate, p: real, b: bool): (r: real) {
    match g
    case AndGate => if !b then 0.0 else p
    case OrGate => if b then 1.0 else p
    case XorGate => if b then 1.0 - p else p
  }

  /** The update for an operand that is a different buffer. */
  function IndependentRule(g: Gate, p: real, q: real): (r: real) {
    match g
    case AndGate => p * q
    case OrGate => 1.0 - (1.0 - p) * (1.0 - q)
    case XorGate => p * (1.0 - q) + q * (1.0 - p)
  }

  /** The update when both operands are the same buffer object. */
  function SameRule(g: Gate, p: real): (r: real) {
    match g
    case AndGate => p
    case OrGate => p
    case XorGate => 0.0
  }

  /** The update of `~`. */
  function NotRule(p: real): (r: real) {
    1.0 - p
  }

  /** The literal-operand rule is the exact probability for a certain other bit. */
  lemma LiteralRuleExact(g: Gate, p: real, b: bool)
    ensures LiteralRule(g, p, b) == Independent(g, p, Certain(b))
  {
  }

  /** The buffer-operand rule is the exact probability for independent bits. */
  lemma IndependentRuleExact(g: Gate, p: real, q: real)
    ensures IndependentRule(g, p, q) == Independent(g, p, q)
  {
  }

  /** The same-object rule is the exact probability for one bit used twice. */
  lemma SameRuleExact(g: Gate, p: real)
    ensures SameRule(g, p) == Correlated(g, p)
  {
  }

  /** The `~` rule is the probability that the bit is 0. */
  lemma NotRuleExact(p: real)
    ensures NotRule(p) == Weight(p, false)
  {
  }

  /** Applying the independent rule to a bit and itself would be wrong for
      AND: `p * p` agrees with the correct `p` only on certain bits. */
  lemma IndependentRuleMisfitsSame(p: real)
    ensures IndependentRule(AndGate, p, p) == SameRule(AndGate, p) <==> p == 0.0 || p == 1.0
  {
  }

  /** A product of two probabilities is a probability. */
  lemma ProductInUnit(p: real, q: real)
    requires InUnit(p) && InUnit(q)
    ensures InUnit(p * q)
  {
    assert 0.0 <= p * q by {
      if p > 0.0 {
        assert p * q >= p * 0.0;
      }
    }
    assert p * q <= p * 1.0;
  }

  /** The complement of the XOR rule is the probability that both bits agree. */
  lemma XorComplement(p: real, q: real)
    ensures 1.0 - (p * (1.0 - q) + q * (1.0 - p)) == (1.0 - p) * (1.0 - q) + p * q
  {
  }

  /** Two non-negative sums that add up to 1 each lie in [0, 1]. */
  lemma ComplementarySumsInUnit(a: real, b: real, c: real, d: real)
    requires 0.0 <= a && 0.0 <= b && 0.0 <= c && 0.0 <= d
    requires 1.0 - (a + b) == c + d
    ensures InUnit(a + b)
  {
  }

  /** The source's rule for two buffers yields a probability for any gate. */
  lemma IndependentRuleInUnit(g: Gate, p: real, q: real)
    requires InUnit(p) && InUnit(q)
    ensures InUnit(IndependentRule(g, p, q))
  {
    match g
    case AndGate =>
      ProductInUnit(p, q);
    case OrGate =>
      ProductInUnit(1.0 - p, 1.0 - q);
    case XorGate =>
      ProductInUnit(p, 1.0 - q);
      ProductInUnit(q, 1.0 - p);
      ProductInUnit(1.0 - p, 1.0 - q);
      ProductInUnit(p, q);
      XorComplement(p, q);
      ComplementarySumsInUnit(p * (1.0 - q), q * (1.0 - p), (1.0 - p) * (1.0 - q), p * q);
  }

  /** The independent reference yields a probability for any gate. */
  lemma IndependentInUnit(g: Gate, p: real, q: real)
    requires InUnit(p) && InUnit(q)
    ensures InUnit(Independent(g, p, q))
  {
    IndependentRuleExact(g, p, q);
    IndependentRuleInUnit(g, p, q);
  }

  /** Every rule keeps probabilities in [0, 1]. */
  lemma RulesInUnit(g: Gate, p: real, q: real, b: bool)
    requires InUnit(p) && InUnit(q)
    ensures InUnit(LiteralRule(g, p, b))
    ensures InUnit(IndependentRule(g, p, q))
    ensures InUnit(SameRule(g, p))
    ensures InUnit(NotRule(p))
  {
    IndependentRuleInUnit(g, p, q);
  }

  /** XOR with an independent uniformly random bit gives a uniformly random
      bit, whatever the other bit's distribution: the one-time pad. */
  lemma XorWithUniform(p: real)
    ensures IndependentRule(XorGate, p, 0.5) == 0.5
    ensures IndependentRule(XorGate, 0.5, p) == 0.5
  {
  }
}
