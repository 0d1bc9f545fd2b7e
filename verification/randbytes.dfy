/** The probabilistic bit buffer `RandBytes` of pyrand.py.

    A buffer holds `n` bytes as `8 * n` big-endian bits, a parallel list of
    the probabilities that each bit is 1, and the one-shot `_wrapped` flag
    (`live` here). The source mutates the flag in place; here every
    operation returns the new state of its operands next to its result, so
    that "the operands are consumed" and "nothing changes on failure" are
    statements about values. Object identity (`id(self) == id(other)`)
    becomes the `SameBuffer` operand. */
module RandBytes {
  import opened Wrappers
  import opened Bits
  import opened Probability
  import opened Information

  /** The exceptions the source raises. */
  datatype Error =
    | Consumed            // RuntimeError: the buffer was already used
    | LengthMismatch      // ValueError: operands of different lengths
    | UnsupportedOperand  // TypeError: the other operand is neither a bitarray nor a RandBytes
    | NegativeLength      // ValueError from `os.urandom` for a negative byte count

  /** A buffer: byte length `n` (`_n`), bits (`_i`), probabilities of 1
      (`_pr_one`) and whether it may still be used (`_wrapped`). */
  datatype Buf = Buf(n: nat, bits: seq<bool>, pr: seq<real>, live: bool) {
    /** The representation invariant every constructor establishes. */
    predicate WellFormed() {
      |bits| == 8 * n && |pr| == 8 * n
    }

    /** Every entry of `pr` is a probability. */
    predicate Calibrated() {
      forall i :: 0 <= i < |pr| ==> InUnit(pr[i])
    }
  }

  /** The right operand of `&`, `|` and `^`. */
  datatype Operand =
    | Literal(bits: seq<bool>)  // a plain bitarray
    | Buffer(buf: Buf)          // a different RandBytes object
    | SameBuffer                // the left operand itself
    | Unsupported               // any other Python value

  /** The outcome of a binary operator and the state of both operands after it. */
  datatype Step = Step(result: Result<Buf, Error>, lhs: Buf, rhs: Operand)

  /** The outcome of `~` and the state of its operand after it. */
  datatype Unary = Unary(result: Result<Buf, Error>, operand: Buf)

  /** The bits the right operand contributes at each index. */
  function OtherBits(lhs: Buf, rhs: Operand): (r: seq<bool>)
  {
    match rhs
    case Literal(bits) => bits
    case Buffer(o) => o.bits
    case SameBuffer => lhs.bits
    case Unsupported => []
  }

  /** `RandBytes(n)`; `random` stands for the bytes `os.urandom(n)` returns. */
  function New(n: int, random: seq<byte>): (r: Result<Buf, Error>)
    requires n >= 0 ==> |random| == n
    ensures r.Failure? <==> n < 0
    ensures r.Failure? ==> r.error == NegativeLength
    ensures r.Success? ==> var b := r.value;
      && b.live && b.n == n && b.WellFormed() && b.Calibrated()
      && ToBytes(b.bits) == random
      && forall i :: 0 <= i < |b.pr| ==> b.pr[i] == 0.5
  {
    if n < 0 then Failure(NegativeLength)
    else
      ToBytesFromBytes(random);
      Success(Buf(n, FromBytes(random), seq(n * 8, _ => 0.5), true))
  }

  /** `len(buf)`: the byte length, refused once the buffer is consumed. */
  function Len(b: Buf): (r: Result<nat, Error>)
    requires b.live ==> b.WellFormed()
    ensures r.Success? <==> b.live
    ensures r.Failure? ==> r.error == Consumed
    ensures r.Success? ==> 8 * r.value == |b.bits|
  {
    if !b.live then Failure(Consumed) else Success(b.n)
  }

  /** `buf.entropy()`: total min-entropy; neither checks nor changes `live`.
      With a base-2 logarithm a calibrated buffer holds between 0 and one
      bit per bit of the buffer. */
  function Entropy(b: Buf, log2: real -> real): (r: real)
    ensures b.Calibrated() && HalfToOneBounded(log2) ==> 0.0 <= r <= |b.pr| as real
  {
    TotalMinEntropy(b.pr, log2)
  }

  /** `buf.unwrap()`: hands out the bits and consumes the buffer, without
      checking whether it was already consumed. */
  function Unwrap(b: Buf): (r: (seq<bool>, Buf))
    ensures r.0 == b.bits && !r.1.live
    ensures r.1.n == b.n && r.1.bits == b.bits && r.1.pr == b.pr
  {
    (b.bits, b.(live := false))
  }

  /** The probabilities after combining with a literal: the exact output
      probabilities for certain other bits. */
  function LiteralProbs(g: Gate, pr: seq<real>, lit: seq<bool>): (r: seq<real>)
    requires |lit| == |pr|
    ensures |r| == |pr|
    ensures forall i :: 0 <= i < |r| ==> r[i] == Independent(g, pr[i], Certain(lit[i]))
  {
    seq(|pr|, i requires 0 <= i < |pr| => LiteralRule(g, pr[i], lit[i]))
  }

  /** The probabilities after combining with a different buffer: the exact
      output probabilities for independent bits. */
  function IndependentProbs(g: Gate, pr: seq<real>, qr: seq<real>): (r: seq<real>)
    requires |qr| == |pr|
    ensures |r| == |pr|
    ensures forall i :: 0 <= i < |r| ==> r[i] == Independent(g, pr[i], qr[i])
  {
    seq(|pr|, i requires 0 <= i < |pr| => IndependentRule(g, pr[i], qr[i]))
  }

  /** The probabilities after combining a buffer with itself: the exact
      output probabilities for one bit used twice. */
  function SameProbs(g: Gate, pr: seq<real>): (r: seq<real>)
    ensures |r| == |pr|
    ensures forall i :: 0 <= i < |r| ==> r[i] == Correlated(g, pr[i])
  {
    seq(|pr|, i requires 0 <= i < |pr| => SameRule(g, pr[i]))
  }

  /** The common body of `__and__`, `__or__` and `__xor__`. */
  function Apply(g: Gate, lhs: Buf, rhs: Operand): (s: Step)
    requires lhs.live ==> lhs.WellFormed()
    requires rhs.Buffer? && rhs.buf.live ==> rhs.buf.WellFormed()
    // Which calls fail, and with which error.
    ensures s.result == Failure(Consumed) <==> !lhs.live || (rhs.Buffer? && !rhs.buf.live)
    ensures s.result == Failure(UnsupportedOperand) <==> lhs.live && rhs.Unsupported?
    ensures s.result == Failure(LengthMismatch) <==>
      && lhs.live
      && ((rhs.Literal? && |rhs.bits| != |lhs.bits|) || (rhs.Buffer? && rhs.buf.live && rhs.buf.n != lhs.n))
    // Every other call succeeds.
    ensures s.result.Success? <==>
      && lhs.live && !rhs.Unsupported?
      && (rhs.Literal? ==> |rhs.bits| == |lhs.bits|)
      && (rhs.Buffer? ==> rhs.buf.live && rhs.buf.n == lhs.n)
    // A failed call leaves both operands as they were.
    ensures s.result.Failure? ==> s.lhs == lhs && s.rhs == rhs
    // A successful call consumes the buffer operands and nothing else.
    ensures s.result.Success? ==>
      && s.lhs == lhs.(live := false)
      && (rhs.Buffer? ==> s.rhs == Buffer(rhs.buf.(live := false)))
      && (!rhs.Buffer? ==> s.rhs == rhs)
    // The result is a fresh live buffer of the same length whose bits are the gate applied index by index.
    ensures s.result.Success? ==> var r := s.result.value;
      && r.live && r.n == lhs.n && r.WellFormed()
      && |OtherBits(lhs, rhs)| == |lhs.bits|
      && forall i :: 0 <= i < |r.bits| ==> r.bits[i] == g.Eval(lhs.bits[i], OtherBits(lhs, rhs)[i])
    // Its probabilities are the exact output probabilities of the gate.
    ensures s.result.Success? ==> var r := s.result.value;
      && (rhs.Literal? ==> forall i :: 0 <= i < |r.pr| ==> r.pr[i] == Independent(g, lhs.pr[i], Certain(rhs.bits[i])))
      && (rhs.Buffer? ==> forall i :: 0 <= i < |r.pr| ==> r.pr[i] == Independent(g, lhs.pr[i], rhs.buf.pr[i]))
      && (rhs.SameBuffer? ==> forall i :: 0 <= i < |r.pr| ==> r.pr[i] == Correlated(g, lhs.pr[i]))
  {
    if !lhs.live then Step(Failure(Consumed), lhs, rhs)
    else match rhs
      case Unsupported => Step(Failure(UnsupportedOperand), lhs, rhs)
      case Literal(lit) =>
        if |lhs.bits| != |lit| then Step(Failure(LengthMismatch), lhs, rhs)
        else
          Step(Success(Buf(lhs.n, Zip(g, lhs.bits, lit), LiteralProbs(g, lhs.pr, lit), true)), lhs.(live := false), rhs)
      case Buffer(o) =>
        if !o.live then Step(Failure(Consumed), lhs, rhs)
        else if lhs.n != o.n then Step(Failure(LengthMismatch), lhs, rhs)
        else
          Step(Success(Buf(lhs.n, Zip(g, lhs.bits, o.bits), IndependentProbs(g, lhs.pr, o.pr), true)), lhs.(live := false), Buffer(o.(live := false)))
      case SameBuffer =>
        Step(Success(Buf(lhs.n, Zip(g, lhs.bits, lhs.bits), SameProbs(g, lhs.pr), true)), lhs.(live := false), rhs)
  }

  /** `buf & other`: a literal 0 forces a certain 0, two buffers multiply,
      and a buffer ANDed with itself is unchanged. */
  function And(lhs: Buf, rhs: Operand): (s: Step)
    requires lhs.live ==> lhs.WellFormed()
    requires rhs.Buffer? && rhs.buf.live ==> rhs.buf.WellFormed()
    ensures s.result.Success? ==>
      && lhs.live && lhs.WellFormed() && (rhs.Buffer? ==> rhs.buf.live && rhs.buf.WellFormed())
      && s.result.value.WellFormed() && s.result.value.n == lhs.n && |OtherBits(lhs, rhs)| == 8 * lhs.n
    ensures s.result.Success? ==> var r := s.result.value;
      && (forall i :: 0 <= i < |r.bits| ==> r.bits[i] == (lhs.bits[i] && OtherBits(lhs, rhs)[i]))
      && (rhs.Literal? ==> forall i :: 0 <= i < |r.pr| ==> r.pr[i] == if rhs.bits[i] then lhs.pr[i] else 0.0)
      && (rhs.Buffer? ==> forall i :: 0 <= i < |r.pr| ==> r.pr[i] == lhs.pr[i] * rhs.buf.pr[i])
      && (rhs.SameBuffer? ==> r.bits == lhs.bits && r.pr == lhs.pr)
  {
    Apply(AndGate, lhs, rhs)
  }

  /** `buf | other`: a literal 1 forces a certain 1, two buffers combine as
      `1 - (1-p)(1-q)`, and a buffer ORed with itself is unchanged. */
  function Or(lhs: Buf, rhs: Operand): (s: Step)
    requires lhs.live ==> lhs.WellFormed()
    requires rhs.Buffer? && rhs.buf.live ==> rhs.buf.WellFormed()
    ensures s.result.Success? ==>
      && lhs.live && lhs.WellFormed() && (rhs.Buffer? ==> rhs.buf.live && rhs.buf.WellFormed())
      && s.result.value.WellFormed() && s.result.value.n == lhs.n && |OtherBits(lhs, rhs)| == 8 * lhs.n
    ensures s.result.Success? ==> var r := s.result.value;
      && (forall i :: 0 <= i < |r.bits| ==> r.bits[i] == (lhs.bits[i] || OtherBits(lhs, rhs)[i]))
      && (rhs.Literal? ==> forall i :: 0 <= i < |r.pr| ==> r.pr[i] == if rhs.bits[i] then 1.0 else lhs.pr[i])
      && (rhs.Buffer? ==> forall i :: 0 <= i < |r.pr| ==>
            r.pr[i] == 1.0 - (1.0 - lhs.pr[i]) * (1.0 - rhs.buf.pr[i]))
      && (rhs.SameBuffer? ==> r.bits == lhs.bits && r.pr == lhs.pr)
  {
    Apply(OrGate, lhs, rhs)
  }

  /** `buf ^ other`: a literal 1 flips the probability, two buffers combine
      as `p(1-q) + q(1-p)`, and a buffer XORed with itself is all certain zeros. */
  function Xor(lhs: Buf, rhs: Operand): (s: Step)
    requires lhs.live ==> lhs.WellFormed()
    requires rhs.Buffer? && rhs.buf.live ==> rhs.buf.WellFormed()
    ensures s.result.Success? ==>
      && lhs.live && lhs.WellFormed() && (rhs.Buffer? ==> rhs.buf.live && rhs.buf.WellFormed())
      && s.result.value.WellFormed() && s.result.value.n == lhs.n && |OtherBits(lhs, rhs)| == 8 * lhs.n
    ensures s.result.Success? ==> var r := s.result.value;
      && (forall i :: 0 <= i < |r.bits| ==> r.bits[i] == (lhs.bits[i] != OtherBits(lhs, rhs)[i]))
      && (rhs.Literal? ==> forall i :: 0 <= i < |r.pr| ==> r.pr[i] == if rhs.bits[i] then 1.0 - lhs.pr[i] else lhs.pr[i])
      && (rhs.Buffer? ==> forall i :: 0 <= i < |r.pr| ==>
            r.pr[i] == lhs.pr[i] * (1.0 - rhs.buf.pr[i]) + rhs.buf.pr[i] * (1.0 - lhs.pr[i]))
      && (rhs.SameBuffer? ==> forall i :: 0 <= i < |r.bits| ==> !r.bits[i] && r.pr[i] == 0.0)
  {
    Apply(XorGate, lhs, rhs)
  }

  /** `~buf`: every bit negated, every probability of 1 replaced by the
      probability of 0; consumes the operand. */
  function Invert(b: Buf): (u: Unary)
    requires b.live ==> b.WellFormed()
    ensures u.result.Failure? <==> !b.live
    ensures u.result.Failure? ==> u.result.error == Consumed && u.operand == b
    ensures u.result.Success? ==> var r := u.result.value;
      && u.operand == b.(live := false)
      && r.live && r.n == b.n && r.WellFormed()
      && forall i :: 0 <= i < |r.bits| ==> r.bits[i] == !b.bits[i] && r.pr[i] == Weight(b.pr[i], false)
  {
    if !b.live then Unary(Failure(Consumed), b)
    else
      var pr := seq(|b.pr|, i requires 0 <= i < |b.pr| => NotRule(b.pr[i]));
      Unary(Success(Buf(b.n, Negate(b.bits), pr, true)), b.(live := false))
  }

  /** A consumed buffer refuses `len`, every operator and being negated, and
      stays as it is. */
  lemma ConsumedIsInert(g: Gate, b: Buf, rhs: Operand)
    requires !b.live
    requires rhs.Buffer? && rhs.buf.live ==> rhs.buf.WellFormed()
    ensures Len(b) == Failure(Consumed)
    ensures Apply(g, b, rhs) == Step(Failure(Consumed), b, rhs)
    ensures Invert(b) == Unary(Failure(Consumed), b)
  {
  }

  /** A consumed buffer passed as the right operand is refused (through
      `len(other)`), even when the lengths differ. */
  lemma ConsumedOperandRefused(g: Gate, lhs: Buf, o: Buf)
    requires lhs.WellFormed() && lhs.live
    requires !o.live
    ensures Apply(g, lhs, Buffer(o)) == Step(Failure(Consumed), lhs, Buffer(o))
  {
  }

  /** After a successful operator neither buffer operand can be used again,
      on either side of a further operator. */
  lemma UsedOnce(g: Gate, lhs: Buf, rhs: Operand, g': Gate, other: Buf, rhs': Operand)
    requires lhs.WellFormed()
    requires rhs.Buffer? ==> rhs.buf.WellFormed()
    requires other.WellFormed()
    requires rhs'.Buffer? ==> rhs'.buf.WellFormed()
    requires Apply(g, lhs, rhs).result.Success?
    ensures var s := Apply(g, lhs, rhs);
      && Len(s.lhs).Failure?
      && Apply(g', s.lhs, rhs').result == Failure(Consumed)
      && Apply(g', other, Buffer(s.lhs)).result == Failure(Consumed)
      && (rhs.Buffer? ==>
            && Len(s.rhs.buf).Failure?
            && Apply(g', s.rhs.buf, rhs').result == Failure(Consumed)
            && Apply(g', other, s.rhs).result == Failure(Consumed))
  {
  }

  /** The binary operators keep every probability in [0, 1]. */
  lemma ApplyKeepsCalibration(g: Gate, lhs: Buf, rhs: Operand)
    requires lhs.WellFormed() && lhs.Calibrated()
    requires rhs.Buffer? ==> rhs.buf.WellFormed() && rhs.buf.Calibrated()
    ensures var s := Apply(g, lhs, rhs);
      s.result.Success? ==> s.result.value.Calibrated()
  {
    var s := Apply(g, lhs, rhs);
    if s.result.Success? {
      var r := s.result.value;
      forall i | 0 <= i < |r.pr|
        ensures InUnit(r.pr[i])
      {
        var p := lhs.pr[i];
        match rhs
        case Literal(lit) =>
          IndependentInUnit(g, p, Certain(lit[i]));
        case Buffer(o) =>
          IndependentInUnit(g, p, o.pr[i]);
        case SameBuffer =>
          SameRuleExact(g, p);
          RulesInUnit(g, p, p, false);
      }
    }
  }

  /** `~` keeps every probability in [0, 1]. */
  lemma InvertKeepsCalibration(b: Buf)
    requires b.WellFormed() && b.Calibrated()
    ensures Invert(b).result.Success? ==> Invert(b).result.value.Calibrated()
  {
  }

  /** Negating twice gives back the bits and probabilities. */
  lemma InvertTwice(b: Buf)
    requires b.WellFormed() && b.live
    ensures var once := Invert(b).result.value;
      && Invert(once).result.Success?
      && Invert(once).result.value.bits == b.bits
      && Invert(once).result.value.pr == b.pr
  {
  }

  /** `~` does not change the buffer's min-entropy. */
  lemma InvertKeepsEntropy(b: Buf, log2: real -> real)
    requires b.WellFormed() && b.live
    ensures Entropy(Invert(b).result.value, log2) == Entropy(b, log2)
  {
    var r := Invert(b).result.value;
    forall i | 0 <= i < |r.pr|
      ensures MinEntropy(r.pr[i], log2) == MinEntropy(b.pr[i], log2)
    {
      MinEntropySymmetric(b.pr[i], log2);
    }
    TotalPointwise(r.pr, b.pr, log2);
  }

  /** XOR with a literal does not change the buffer's min-entropy. */
  lemma XorLiteralKeepsEntropy(b: Buf, lit: seq<bool>, log2: real -> real)
    requires b.WellFormed() && b.live && |lit| == |b.bits|
    ensures Xor(b, Literal(lit)).result.Success?
    ensures Entropy(Xor(b, Literal(lit)).result.value, log2) == Entropy(b, log2)
  {
    var r := Xor(b, Literal(lit)).result.value;
    forall i | 0 <= i < |r.pr|
      ensures MinEntropy(r.pr[i], log2) == MinEntropy(b.pr[i], log2)
    {
      MinEntropySymmetric(b.pr[i], log2);
    }
    TotalPointwise(r.pr, b.pr, log2);
  }

  /** A live buffer XORed with itself is all certain zeros and has no entropy. */
  lemma SelfXorIsCertain(b: Buf, log2: real -> real)
    requires b.WellFormed() && b.live
    ensures Xor(b, SameBuffer).result.Success?
    ensures Entropy(Xor(b, SameBuffer).result.value, log2) == 0.0
  {
    TotalOfCertain(Xor(b, SameBuffer).result.value.pr, log2);
  }

  /** A live buffer ANDed or ORed with itself reproduces itself. */
  lemma SelfAndOrIsIdentity(b: Buf)
    requires b.WellFormed() && b.live
    ensures And(b, SameBuffer).result == Success(b)
    ensures Or(b, SameBuffer).result == Success(b)
  {
  }

  /** XOR with an independent fresh buffer makes every bit uniformly random,
      whatever the left operand was. */
  lemma XorWithFreshIsUniform(lhs: Buf, key: Buf)
    requires lhs.WellFormed() && lhs.live
    requires key.WellFormed() && key.live && key.n == lhs.n
    requires forall i :: 0 <= i < |key.pr| ==> key.pr[i] == 0.5
    ensures Xor(lhs, Buffer(key)).result.Success?
    ensures forall i :: 0 <= i < 8 * lhs.n ==> Xor(lhs, Buffer(key)).result.value.pr[i] == 0.5
  {
  }

  /** A length mismatch is refused before any flag changes: both operands
      stay live and unchanged. */
  lemma MismatchKeepsOperandsLive(g: Gate, lhs: Buf, rhs: Operand)
    requires lhs.WellFormed() && lhs.live
    requires rhs.Buffer? ==> rhs.buf.WellFormed()
    requires (rhs.Literal? && |rhs.bits| != |lhs.bits|) || (rhs.Buffer? && rhs.buf.live && rhs.buf.n != lhs.n)
    ensures Apply(g, lhs, rhs) == Step(Failure(LengthMismatch), lhs, rhs)
    ensures Apply(g, lhs, rhs).lhs.live && (rhs.Buffer? ==> Apply(g, lhs, rhs).rhs.buf.live)
  {
  }

  /** `unwrap()` consumes without checking: the entropy can still be read,
      `len` is refused, and a second `unwrap()` hands out the same bits. */
  lemma UnwrapConsumes(b: Buf, log2: real -> real)
    ensures Entropy(Unwrap(b).1, log2) == Entropy(b, log2)
    ensures Len(Unwrap(b).1) == Failure(Consumed)
    ensures Unwrap(Unwrap(b).1).0 == b.bits
  {
  }
}
