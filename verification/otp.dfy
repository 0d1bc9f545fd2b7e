/** The one-time-pad demo of otp.py: byte-wise XOR of byte strings (`bxor`)
    and the probability-level content of the demo's assertions. */
module Otp {
  import opened Wrappers
  import opened Bits
  import opened Information
  import opened RandBytes

  /** `bxor(a, b)`: a copy of `a` whose first `|b|` bytes are XORed with
      `b`; `None` is the `IndexError` raised when `b` is longer than `a`. */
  function Bxor(a: seq<byte>, b: seq<byte>): (r: Option<seq<byte>>)
    ensures r.Some? <==> |b| <= |a|
    ensures r.Some? ==> |r.value| == |a|
    ensures r.Some? ==> forall i :: 0 <= i < |a| ==>
      r.value[i] == if i < |b| then XorByte(a[i], b[i]) else a[i]
    decreases |b|
  {
    if |b| == 0 then Some(a)
    else if |a| == 0 then None
    else match Bxor(a[1..], b[1..])
      case None => None
      case Some(t) => Some([XorByte(a[0], b[0])] + t)
  }

  /** The loop of `bxor` as written: copy `a`, then XOR in `b` byte by byte. */
  method BxorLoop(a: seq<byte>, b: seq<byte>) returns (r: Option<seq<byte>>)
    ensures r == Bxor(a, b)
  {
    var result := a;
    var i := 0;
    while i < |b|
      invariant 0 <= i <= |b| && i <= |a|
      invariant |result| == |a|
      invariant forall j :: 0 <= j < i ==> result[j] == XorByte(a[j], b[j])
      invariant forall j :: i <= j < |a| ==> result[j] == a[j]
    {
      if i >= |result| {
        assert |b| > |a|;
        return None;
      }
      result := result[i := XorByte(result[i], b[i])];
      i := i + 1;
    }
    assert result == Bxor(a, b).value;
    r := Some(result);
  }

  /** XOR-ing with the same key twice restores the message. */
  lemma {:induction false} BxorRoundTrip(m: seq<byte>, k: seq<byte>)
    requires |k| <= |m|
    ensures Bxor(m, k).Some?
    ensures Bxor(Bxor(m, k).value, k) == Some(m)
  {
    var c := Bxor(m, k).value;
    var d := Bxor(c, k).value;
    forall i | 0 <= i < |m|
      ensures d[i] == m[i]
    {
      if i < |k| {
        XorByteTwice(m[i], k[i]);
      }
    }
    assert d == m;
  }

  /** For whole bytes of equal length, XOR-ing the packed bytes packs the
      bitwise XOR of the bits. */
  lemma BxorPacked(rc: seq<bool>, rkey: seq<bool>)
    requires |rc| % 8 == 0 && |rc| == |rkey|
    ensures Bxor(ToBytes(rc), ToBytes(rkey)) == Some(ToBytes(Zip(XorGate, rc, rkey)))
  {
    var c, k := ToBytes(rc), ToBytes(rkey);
    FromBytesToBytes(rc);
    FromBytesToBytes(rkey);
    XorFromBytes(c, k);
    ToBytesFromBytes(XorBytes(c, k));
    assert Bxor(c, k).value == XorBytes(c, k);
  }

  /** Decryption with both unwrapped bit sequences packed back into bytes.
      It fails only for a key longer than the ciphertext, and for equal
      lengths it packs the bitwise XOR of the two bit sequences. */
  function Decrypt(rc: seq<bool>, rkey: seq<bool>): (r: Option<seq<byte>>)
    requires |rc| % 8 == 0 && |rkey| % 8 == 0
    ensures r.Some? <==> |rkey| <= |rc|
    ensures |rc| == |rkey| ==> r == Some(ToBytes(Zip(XorGate, rc, rkey)))
  {
    if |rc| == |rkey| then BxorPacked(rc, rkey); Bxor(ToBytes(rc), ToBytes(rkey))
    else Bxor(ToBytes(rc), ToBytes(rkey))
  }

  /** What iterating a bitarray yields: one value, 0 or 1, per bit. */
  function BitValues(s: seq<bool>): (r: seq<byte>)
    ensures |r| == |s|
    ensures forall i :: 0 <= i < |s| ==> r[i] == if s[i] then 1 else 0
  {
    seq(|s|, i requires 0 <= i < |s| => if s[i] then 1 as byte else 0)
  }

  /** Decryption as otp.py calls it: `bxor(rc, rkey)` on the bitarrays
      themselves. `bytearray(rc)` packs the bits when bitarray exports its
      buffer (`bufferProtocol`), and otherwise holds one 0/1 value per bit;
      `enumerate(rkey)` always yields one 0/1 value per bit. */
  function DecryptAsWritten(rc: seq<bool>, rkey: seq<bool>, bufferProtocol: bool): (r: Option<seq<byte>>)
    requires |rc| % 8 == 0
    ensures var width := if bufferProtocol then |rc| / 8 else |rc|;
      && (r.Some? <==> |rkey| <= width)
      && (r.Some? ==> |r.value| == width)
  {
    Bxor(if bufferProtocol then ToBytes(rc) else BitValues(rc), BitValues(rkey))
  }

  /** As written, decryption of a non-empty message never yields a byte
      string of the message's length: it either raises `IndexError` or
      returns one value per bit. */
  lemma DecryptAsWrittenMissesLength(rc: seq<bool>, rkey: seq<bool>, bufferProtocol: bool)
    requires |rc| == |rkey| && |rc| % 8 == 0 && |rc| > 0
    ensures var d := DecryptAsWritten(rc, rkey, bufferProtocol);
      d.None? || |d.value| != |rc| / 8
    ensures bufferProtocol ==> DecryptAsWritten(rc, rkey, bufferProtocol).None?
  {
  }

  /** Unwrapping the ciphertext `key ^ m` and the key and XOR-ing their
      bytes restores the message bytes. */
  lemma {:induction false} CiphertextDecrypts(msg: seq<byte>, random: seq<byte>)
    requires |random| == |msg|
    ensures Decrypt(Zip(XorGate, FromBytes(random), FromBytes(msg)), FromBytes(random)) == Some(msg)
  {
    var x := XorBytes(random, msg);
    XorFromBytes(random, msg);
    ToBytesFromBytes(x);
    ToBytesFromBytes(random);
    var d := Bxor(x, random).value;
    forall i | 0 <= i < |msg|
      ensures d[i] == msg[i]
    {
      XorByteTwice(msg[i], random[i]);
    }
    assert d == msg;
  }

  /** Uniformly random bits carry one bit of min-entropy each. */
  lemma UniformEntropy(ps: seq<real>, log2: real -> real)
    requires log2(0.5) == -1.0
    requires forall i :: 0 <= i < |ps| ==> ps[i] == 0.5
    ensures TotalMinEntropy(ps, log2) == |ps| as real
  {
    HalfIsOneBit(log2);
    TotalOfConstant(ps, 0.5, log2);
  }

  /** The ciphertext `key ^ m` unwraps, together with the key, to bits that
      decrypt to the message. */
  lemma OtpCiphertextDecrypts(msg: seq<byte>, random: seq<byte>)
    requires |random| == |msg|
    ensures New(|msg|, random).Success?
    ensures var s := Xor(New(|msg|, random).value, Literal(FromBytes(msg)));
      && s.result.Success?
      && Decrypt(Unwrap(s.result.value).0, Unwrap(s.lhs).0) == Some(msg)
  {
    var s := Xor(New(|msg|, random).value, Literal(FromBytes(msg)));
    assert s.result.value.bits == Zip(XorGate, FromBytes(random), FromBytes(msg));
    CiphertextDecrypts(msg, random);
  }

  /** The fresh key and the ciphertext `key ^ m` each carry one bit of
      min-entropy per message bit, every ciphertext bit staying uniform. */
  lemma OtpEntropies(msg: seq<byte>, random: seq<byte>, log2: real -> real)
    requires |random| == |msg|
    requires log2(0.5) == -1.0
    ensures New(|msg|, random).Success?
    ensures var key := New(|msg|, random).value;
      var s := Xor(key, Literal(FromBytes(msg)));
      && Entropy(key, log2) == (8 * |msg|) as real
      && s.result.Success?
      && (forall i :: 0 <= i < 8 * |msg| ==> s.result.value.pr[i] == 0.5)
      && Entropy(s.result.value, log2) == (8 * |msg|) as real
  {
    var key := New(|msg|, random).value;
    var c := Xor(key, Literal(FromBytes(msg))).result.value;
    UniformEntropy(key.pr, log2);
    assert forall i :: 0 <= i < |c.pr| ==> c.pr[i] == 0.5;
    UniformEntropy(c.pr, log2);
  }

  /** The `otp(msg)` demo for a message of `|msg|` bytes and a key drawn as
      `random`: the fresh key has `8 * |msg|` bits of min-entropy, so does
      the ciphertext `key ^ m` (every bit still uniform), and decrypting the
      unwrapped ciphertext with the unwrapped key restores the message. */
  lemma OtpDemo(msg: seq<byte>, random: seq<byte>, log2: real -> real)
    requires |random| == |msg|
    requires log2(0.5) == -1.0
    ensures New(|msg|, random).Success?
    ensures var key := New(|msg|, random).value;
      var s := Xor(key, Literal(FromBytes(msg)));
      && Entropy(key, log2) == (8 * |msg|) as real
      && s.result.Success?
      && (forall i :: 0 <= i < 8 * |msg| ==> s.result.value.pr[i] == 0.5)
      && Entropy(s.result.value, log2) == (8 * |msg|) as real
      && Decrypt(Unwrap(s.result.value).0, Unwrap(s.lhs).0) == Some(msg)
  {
    OtpEntropies(msg, random, log2);
    OtpCiphertextDecrypts(msg, random);
  }

  /** `selfXor()`: a fresh 4-byte buffer XORed with itself has no entropy. */
  lemma SelfXorDemo(random: seq<byte>, log2: real -> real)
    requires |random| == 4
    ensures New(4, random).Success?
    ensures var j := Xor(New(4, random).value, SameBuffer);
      j.result.Success? && Entropy(j.result.value, log2) == 0.0
  {
    SelfXorIsCertain(New(4, random).value, log2);
  }

  /** `newAnd()`: AND of two independent fresh 8-byte buffers makes each of
      the 64 bits 1 with probability 1/4, so the total min-entropy is
      `64 * -log2(3/4)`. */
  lemma NewAndDemo(r1: seq<byte>, r2: seq<byte>, log2: real -> real)
    requires |r1| == 8 && |r2| == 8
    ensures New(8, r1).Success? && New(8, r2).Success?
    ensures var k := And(New(8, r1).value, Buffer(New(8, r2).value));
      && k.result.Success?
      && (forall i :: 0 <= i < 64 ==> k.result.value.pr[i] == 0.25)
      && Entropy(k.result.value, log2) == 64.0 * -log2(0.75)
  {
    var k := And(New(8, r1).value, Buffer(New(8, r2).value)).result.value;
    TotalOfConstant(k.pr, 0.25, log2);
  }
}
