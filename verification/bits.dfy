/** Bit sequences as the `bitarray(endian='big')` objects of pyrand.py see
    them: a byte string is unpacked most-significant bit first, and the
    bitwise operators act index by index. */
module Bits {

  /** A byte value, as Python's `bytes` and `bytearray` hold them. */
  newtype byte = x: int | 0 <= x < 256

  /** The three binary gates the buffer supports. */
  datatype Gate = AndGate | OrGate | XorGate {
    function Eval(x: bool, y: bool): (r: bool) {
      match this
      case AndGate => x && y
      case OrGate => x || y
      case XorGate => x != y
    }
  }

  /** `2` to the power `w`. */
  function Pow2(w: nat): (r: nat)
    ensures r > 0
  {
    if w == 0 then 1 else 2 * Pow2(w - 1)
  }

  /** The `w` low bits of `v`, most significant first. */
  function BitsOf(v: nat, w: nat): (r: seq<bool>)
    ensures |r| == w
  {
    if w == 0 then [] else BitsOf(v / 2, w - 1) + [v % 2 == 1]
  }

  /** The number a bit sequence denotes, most significant bit first. */
  function ValueOf(s: seq<bool>): (v: nat)
    ensures v < Pow2(|s|)
  {
    if |s| == 0 then 0 else 2 * ValueOf(s[..|s| - 1]) + (if s[|s| - 1] then 1 else 0)
  }

  /** The eight bits of a byte, most significant first (big-endian bit order). */
  function BitsOfByte(b: byte): (r: seq<bool>)
    ensures |r| == 8
  {
    BitsOf(b as nat, 8)
  }

  /** Packs eight bits, most significant first, into a byte. */
  function ByteOfBits(s: seq<bool>): (r: byte)
    requires |s| == 8
  {
    EightBitsFit();
    ValueOf(s) as byte
  }

  /** Eight bits denote numbers below 256. */
  lemma EightBitsFit()
    ensures Pow2(8) == 256
  {
  }

  /** Reading back the bits of a number in range gives the number. */
  lemma {:induction false} ValueOfBitsOf(v: nat, w: nat)
    requires v < Pow2(w)
    ensures ValueOf(BitsOf(v, w)) == v
  {
    if w > 0 {
      var s := BitsOf(v, w);
      assert s[..w - 1] == BitsOf(v / 2, w - 1);
      ValueOfBitsOf(v / 2, w - 1);
    }
  }

  /** Writing out the number a bit sequence denotes gives the sequence. */
  lemma {:induction false} BitsOfValueOf(s: seq<bool>)
    ensures BitsOf(ValueOf(s), |s|) == s
  {
    if |s| > 0 {
      var v := ValueOf(s);
      assert v / 2 == ValueOf(s[..|s| - 1]);
      BitsOfValueOf(s[..|s| - 1]);
      assert s == s[..|s| - 1] + [s[|s| - 1]];
    }
  }

  /** `bitarray.frombytes`: the concatenation of the bytes' big-endian bits. */
  function FromBytes(bs: seq<byte>): (r: seq<bool>)
    ensures |r| == 8 * |bs|
    ensures forall i :: 0 <= i < |bs| ==> r[8 * i..8 * i + 8] == BitsOfByte(bs[i])
  {
    if |bs| == 0 then [] else BitsOfByte(bs[0]) + FromBytes(bs[1..])
  }

  /** `bitarray.tobytes` for a bit sequence of whole bytes. */
  function ToBytes(s: seq<bool>): (r: seq<byte>)
    requires |s| % 8 == 0
    ensures 8 * |r| == |s|
    ensures forall i :: 0 <= i < |r| ==> r[i] == ByteOfBits(s[8 * i..8 * i + 8])
    decreases |s|
  {
    if |s| == 0 then []
    else
      assert forall i :: 1 <= i < |s| / 8 ==> s[8 * i..8 * i + 8] == s[8..][8 * (i - 1)..8 * (i - 1) + 8];
      [ByteOfBits(s[..8])] + ToBytes(s[8..])
  }

  /** Index-wise application of a gate: `a & b`, `a | b`, `a ^ b` on bitarrays. */
  function Zip(g: Gate, a: seq<bool>, b: seq<bool>): (r: seq<bool>)
    requires |a| == |b|
    ensures |r| == |a|
    ensures forall i :: 0 <= i < |a| ==> r[i] == g.Eval(a[i], b[i])
  {
    seq(|a|, i requires 0 <= i < |a| => g.Eval(a[i], b[i]))
  }

  /** `~a` on a bitarray. */
  function Negate(a: seq<bool>): (r: seq<bool>)
    ensures |r| == |a|
    ensures forall i :: 0 <= i < |a| ==> r[i] == !a[i]
  {
    seq(|a|, i requires 0 <= i < |a| => !a[i])
  }

  /** Packing undoes unpacking for a single byte. */
  lemma ByteRoundTrip(b: byte)
    ensures ByteOfBits(BitsOfByte(b)) == b
  {
    EightBitsFit();
    ValueOfBitsOf(b as nat, 8);
  }

  /** Unpacking undoes packing for eight bits. */
  lemma BitsRoundTrip(s: seq<bool>)
    requires |s| == 8
    ensures BitsOfByte(ByteOfBits(s)) == s
  {
    BitsOfValueOf(s);
  }

  /** `tobytes(frombytes(bs)) == bs`. */
  lemma {:induction false} ToBytesFromBytes(bs: seq<byte>)
    ensures ToBytes(FromBytes(bs)) == bs
  {
    if |bs| > 0 {
      var s := FromBytes(bs);
      assert s[..8] == BitsOfByte(bs[0]);
      assert s[8..] == FromBytes(bs[1..]);
      ByteRoundTrip(bs[0]);
      ToBytesFromBytes(bs[1..]);
    }
  }

  /** `frombytes(tobytes(s)) == s` for whole bytes. */
  lemma {:induction false} FromBytesToBytes(s: seq<bool>)
    requires |s| % 8 == 0
    ensures FromBytes(ToBytes(s)) == s
    decreases |s|
  {
    if |s| > 0 {
      var bs := ToBytes(s);
      assert bs[0] == ByteOfBits(s[..8]);
      assert bs[1..] == ToBytes(s[8..]);
      BitsRoundTrip(s[..8]);
      FromBytesToBytes(s[8..]);
      assert s == s[..8] + s[8..];
    }
  }

  /** Python's `^` on two byte values: XOR of the bits at each position. */
  function XorByte(a: byte, b: byte): (r: byte)
    ensures BitsOfByte(r) == Zip(XorGate, BitsOfByte(a), BitsOfByte(b))
  {
    var z := Zip(XorGate, BitsOfByte(a), BitsOfByte(b));
    BitsRoundTrip(z);
    ByteOfBits(z)
  }

  /** Bitwise XOR with the same bits twice gives back the original bits. */
  lemma ZipXorCancel(x: seq<bool>, y: seq<bool>)
    requires |x| == |y|
    ensures Zip(XorGate, Zip(XorGate, x, y), y) == x
    ensures Zip(XorGate, Zip(XorGate, y, x), y) == x
  {
  }

  /** XOR-ing the same byte twice gives back the original byte. */
  lemma XorByteTwice(a: byte, k: byte)
    ensures XorByte(XorByte(a, k), k) == a
    ensures XorByte(XorByte(k, a), k) == a
  {
    var x, y := BitsOfByte(a), BitsOfByte(k);
    ZipXorCancel(x, y);
    ByteRoundTrip(a);
  }

  /** Byte-wise XOR of two byte strings of equal length. */
  function XorBytes(a: seq<byte>, b: seq<byte>): (r: seq<byte>)
    requires |a| == |b|
    ensures |r| == |a|
    ensures forall i :: 0 <= i < |a| ==> r[i] == XorByte(a[i], b[i])
  {
    seq(|a|, i requires 0 <= i < |a| => XorByte(a[i], b[i]))
  }

  /** Index-wise gates distribute over concatenation. */
  lemma ZipAppend(g: Gate, a1: seq<bool>, a2: seq<bool>, b1: seq<bool>, b2: seq<bool>)
    requires |a1| == |b1| && |a2| == |b2|
    ensures Zip(g, a1 + a2, b1 + b2) == Zip(g, a1, b1) + Zip(g, a2, b2)
  {
  }

  /** XOR of byte strings, taken bit by bit, is XOR of their unpacked bits. */
  lemma {:induction false} XorFromBytes(a: seq<byte>, b: seq<byte>)
    requires |a| == |b|
    ensures Zip(XorGate, FromBytes(a), FromBytes(b)) == FromBytes(XorBytes(a, b))
  {
    if |a| > 0 {
      var x := XorBytes(a, b);
      assert x[0] == XorByte(a[0], b[0]);
      assert x[1..] == XorBytes(a[1..], b[1..]);
      XorFromBytes(a[1..], b[1..]);
      ZipAppend(XorGate, BitsOfByte(a[0]), FromBytes(a[1..]), BitsOfByte(b[0]), FromBytes(b[1..]));
    }
  }
}
