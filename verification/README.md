# RandBytes: probabilistic bit buffers, in Dafny

A model of `RandBytes` from `pyrand.py`. It also covers the byte-wise XOR `bxor` and the assertions of the one-time-pad demo in `otp.py`.

A `RandBytes` buffer holds three things:

- `n` random bytes, kept as `8 * n` big-endian bits;
- a parallel list giving, for each bit, the probability that it is 1;
- a one-shot liveness flag (`_wrapped`).

The operators `&`, `|`, `^` and `~` work as follows:

- They compute new bits index by index.
- They carry the probabilities along. The rule depends on the other operand: a literal bit array, a different buffer (assumed independent), or the same buffer object.
- A successful operator consumes its buffer operands. A consumed buffer refuses `len` and every operator.
- `entropy()` sums the per-bit min-entropy.

Layout, one module per file:

- `wrappers.dfy` (`Wrappers`): `Option` and `Result`, which stand in for the exceptions.
- `bits.dfy` (`Bits`): bytes, big-endian unpacking (`frombytes`) and packing (`tobytes`), and the index-wise gates. It also defines byte XOR, through the bits.
- `probability.dfy` (`Probability`): the source's probability rules. Each rule is proved equal to an independent reference: the exact probability that the gate outputs 1 when its inputs are independent Bernoulli bits, or one and the same bit.
- `information.dfy` (`Information`): `min_entropy`, `shannon_entropy`, and the sum of `min_entropy` that `entropy()` returns. The floating-point `math.log(x, 2)` is a parameter `log2`.
- `randbytes.dfy` (`RandBytes`): the buffer `Buf`, the operand kinds, the constructor, `len`, `entropy`, `unwrap`, the four operators and the lemmas about them. Each operator returns a `Step`: its result, or the error it raises, together with the state of both operands afterwards.
- `otp.py`'s content is in `otp.dfy` (`Otp`): `bxor`, its loop, the round trip, and the three demo functions `otp`, `selfXor` and `newAnd`.

Modelling choices:

- Object identity (`id(self) == id(other)`) becomes the operand `SameBuffer`.
- A Python value that is neither a bitarray nor a `RandBytes` becomes `Unsupported`.
- The bytes `os.urandom(n)` returns are a parameter of `New`.

## Model

| member | source | states |
|---|---|---|
| `Bits.FromBytes` | pyrand.py:15-16 | `frombytes` with big-endian order yields 8 bits per byte, and bits `8i` to `8i+7` are the bits of byte `i`, most significant first. |
| `Bits.ToBytes` | otp.py:17 | Packing a whole number of bytes yields one byte per 8 bits, and byte `i` is the big-endian value of bits `8i` to `8i+7`. |
| `Bits.Zip` | pyrand.py:35 | Bitwise AND (line 35), OR (line 63) and XOR (line 91) of equal-length bit arrays keep the length, and bit `i` of the result is the gate applied to bit `i` of each operand. Its partners are `Bits.XorFromBytes` and `Probability.IndependentRuleExact`. |
| `Bits.Negate` | pyrand.py:118 | `~a` keeps the length, and bit `i` of the result is the negation of bit `i` of `a`. Its partner is `RandBytes.InvertTwice`. |
| `Bits.XorByte` | otp.py:39 | Unpacking `x ^ y` for two byte values gives the bitwise XOR of their unpacked bits. |
| `Bits.ToBytesFromBytes` | pyrand.py:15-16 | Unpacking bytes into big-endian bits loses nothing: packing the bits again gives back the same bytes. |
| `Bits.FromBytesToBytes` | otp.py:7-8 | Every whole-byte bit sequence is the unpacking of its own packed bytes. |
| `Bits.XorByteTwice` | otp.py:38-39 | XOR with the same byte twice restores the original byte, in either operand order. |
| `Bits.XorFromBytes` | pyrand.py:91 | XOR of two unpacked byte strings, bit by bit, equals the unpacking of their byte-wise XOR. |
| `Probability.LiteralRuleExact` | pyrand.py:36-39 | The literal-operand updates equal the exact probability of the gate's output when the other bit is known. The updates are: AND forces 0 where the literal is 0; OR forces 1 where it is 1 (lines 64-67); XOR flips `p` to `1-p` where it is 1 (lines 92-95). |
| `Probability.IndependentRuleExact` | pyrand.py:48-50 | The two-buffer formulas are exactly the probability that AND, OR or XOR of two independent bits is 1. The formulas are `p*q`, `1-(1-p)(1-q)` (line 78) and `p(1-q)+q(1-p)` (line 108). |
| `Probability.SameRuleExact` | pyrand.py:103-105 | For the same buffer on both sides, the source keeps `p` for AND and OR and uses 0 for XOR. That is exactly the probability of `x AND x`, `x OR x` and `x XOR x`. |
| `Probability.NotRuleExact` | pyrand.py:119 | `1 - p` is the probability that the bit is 0. |
| `Probability.IndependentRuleMisfitsSame` | pyrand.py:48-50 | This is why the identity test is needed. The independent AND formula applied to a bit and itself agrees with the correct value only for certain bits (`p` = 0 or 1). |
| `Probability.IndependentRuleInUnit` | pyrand.py:76-78 | The two-buffer formula of each gate maps probabilities in [0,1] to a probability in [0,1]. |
| `Probability.IndependentInUnit` | pyrand.py:107-108 | The exact independent output probability of any gate lies in [0,1]. |
| `Probability.RulesInUnit` | pyrand.py:36-39 | Every update in the source keeps a probability in [0,1]: literal, two-buffer, same-buffer and `~`. |
| `Probability.XorWithUniform` | pyrand.py:107-108 | XOR with an independent bit of probability 1/2 gives probability 1/2, whatever the other bit's probability is. |
| `Information.MinEntropy` | pyrand.py:128-133 | A certain bit (`p` = 0 or 1) contributes 0. Any other bit contributes `-log2` of its more likely outcome's probability. |
| `Information.ShannonEntropy` | pyrand.py:123-126 | A certain bit contributes 0. |
| `Information.MinEntropySymmetric` | pyrand.py:128-133 | A bit with probability `p` and one with `1-p` have the same min-entropy. |
| `Information.ShannonSymmetric` | pyrand.py:123-126 | A bit with probability `p` and one with `1-p` have the same Shannon entropy. |
| `Information.HalfIsOneBit` | pyrand.py:131-133 | If `log2(0.5) == -1`, a uniform bit has min-entropy exactly 1. |
| `Information.TotalMinEntropy` | pyrand.py:24 | With a logarithm that maps [1/2, 1] into [-1, 0], as the base-2 logarithm does, a list of probabilities in [0, 1] sums to a min-entropy between 0 and its length. |
| `Information.TotalOfCertain` | pyrand.py:23-24 | The summed min-entropy of bits that are all certain is 0. |
| `Information.TotalOfConstant` | pyrand.py:23-24 | The summed min-entropy of `k` bits of equal probability `c` is `k` times one bit's min-entropy. |
| `Information.TotalPointwise` | pyrand.py:23-24 | Two probability lists whose bits have equal min-entropy index by index have equal totals. |
| `RandBytes.New` | pyrand.py:13-18 | A negative byte count fails. Otherwise the new buffer is live and well formed, with `n` bytes and `8n` bits. Its bits pack back to exactly the random bytes, and all `8n` probabilities equal 0.5. |
| `RandBytes.Len` | pyrand.py:19-22 | A consumed buffer raises. A live buffer returns the byte length, which is one eighth of the bit length. |
| `RandBytes.Entropy` | pyrand.py:23-24 | With a base-2 logarithm, a buffer whose probabilities all lie in [0, 1] reports between 0 and one bit of min-entropy per bit. The liveness flag plays no part. |
| `RandBytes.Unwrap` | pyrand.py:25-27 | Returns the bits and marks the buffer consumed. The liveness flag is not checked, and nothing else changes. |
| `RandBytes.UnwrapConsumes` | pyrand.py:23-27 | After `unwrap()`: `entropy()` still reads the same value, `len` raises, and a second `unwrap()` returns the same bits. |
| `RandBytes.Apply` | pyrand.py:28-113 | The shared body of `&`, `\|` and `^`. Errors and their order: a consumed operand (self, or other through `len(other)`) raises RuntimeError; another type raises TypeError; a length mismatch raises ValueError. In every other case the call succeeds. On failure both operands are unchanged. On success, self and a buffer operand are consumed, a literal is untouched, and the result is a live buffer of the same length. Its bits are the gate applied index by index, and its probabilities are the exact output probabilities under independence (literal or other buffer) or under perfect correlation (same buffer). |
| `RandBytes.And` | pyrand.py:28-55 | Result bits are the pointwise AND. With a literal, `p` becomes 0 where the literal bit is 0 and is kept elsewhere. With another buffer, `p` becomes `p*q`. With itself, the buffer's bits and probabilities are reproduced. |
| `RandBytes.Or` | pyrand.py:56-83 | Result bits are the pointwise OR. With a literal, `p` becomes 1 where the literal bit is 1 and is kept elsewhere. With another buffer, `p` becomes `1-(1-p)(1-q)`. With itself, the buffer's bits and probabilities are reproduced. |
| `RandBytes.Xor` | pyrand.py:84-113 | Result bits are the pointwise XOR. With a literal, `p` becomes `1-p` where the literal bit is 1 and is kept elsewhere. With another buffer, `p` becomes `p(1-q)+q(1-p)`. With itself, every bit is 0 with probability 0. |
| `RandBytes.Invert` | pyrand.py:114-121 | A consumed buffer raises and stays unchanged. Otherwise the operand is consumed and the result is live and of the same length. Every bit is negated, and every probability becomes the probability of 0. |
| `RandBytes.ConsumedIsInert` | pyrand.py:28-30 | A consumed buffer is refused by `len` (lines 19-22), by every binary operator and by `~` (lines 114-116). It stays unchanged. |
| `RandBytes.ConsumedOperandRefused` | pyrand.py:42-44 | A consumed buffer passed as the other operand raises RuntimeError through `len(other)`, whatever the lengths. |
| `RandBytes.MismatchKeepsOperandsLive` | pyrand.py:31-44 | A length mismatch with a literal or a live buffer raises ValueError. Both operands stay live and unchanged. |
| `RandBytes.UsedOnce` | pyrand.py:51-52 | After a successful operator, self and a buffer operand can no longer be used. `len` fails, and using either as the left or right operand of any operator fails. |
| `RandBytes.ApplyKeepsCalibration` | pyrand.py:47-50 | If every probability of the operands lies in [0,1], so does every probability of the result. |
| `RandBytes.InvertKeepsCalibration` | pyrand.py:119 | `~` keeps every probability in [0,1]. |
| `RandBytes.InvertTwice` | pyrand.py:118-119 | Negating twice gives back the original bits and probabilities. |
| `RandBytes.InvertKeepsEntropy` | pyrand.py:119 | `~` leaves `entropy()` unchanged. |
| `RandBytes.XorLiteralKeepsEntropy` | pyrand.py:92-95 | XOR with a literal of the right length succeeds and leaves `entropy()` unchanged. |
| `RandBytes.SelfXorIsCertain` | pyrand.py:104-105 | A live buffer XORed with itself succeeds and has entropy 0, for any logarithm. |
| `RandBytes.SelfAndOrIsIdentity` | pyrand.py:47-48 | A live buffer ANDed or ORed with itself gives a live buffer equal to it. |
| `RandBytes.XorWithFreshIsUniform` | pyrand.py:107-108 | XOR of any live buffer with an independent fresh buffer of the same length leaves every bit with probability 1/2. |
| `Otp.Bxor` | otp.py:36-40 | Defined exactly when `len(b) <= len(a)`; otherwise indexing raises. The result has length `len(a)`. Byte `i` is `a[i] ^ b[i]` for `i < len(b)` and a copy of `a[i]` after that. |
| `Otp.BxorLoop` | otp.py:36-40 | The copy-then-XOR loop computes `Bxor`, including the failure when `b` is longer than `a`. |
| `Otp.BxorRoundTrip` | otp.py:36-40 | `bxor(bxor(m, k), k) == m` whenever `len(k) <= len(m)`. |
| `Otp.BxorPacked` | otp.py:36-40 | For whole-byte bit sequences of equal length, `bxor` of their packed bytes equals the packing of their bitwise XOR. |
| `Otp.Decrypt` | otp.py:17 | The corrected decryption, which packs both bit arrays into bytes before `bxor`. It fails exactly when the key is longer than the ciphertext. For equal lengths it returns the packing of the bitwise XOR of ciphertext and key. |
| `Otp.BitValues` | otp.py:37-38 | What iterating a bitarray yields (`enumerate(b)`), and what `bytearray` of a bitarray holds without the buffer protocol: one value per bit, 1 for a set bit and 0 otherwise. |
| `Otp.DecryptAsWritten` | otp.py:17 | The call as written. With `w` the length `bytearray(rc)` has (one byte per 8 bits when packed, one per bit otherwise), it succeeds exactly when the key has at most `w` bits, and then returns `w` values. |
| `Otp.CiphertextDecrypts` | otp.py:11-17 | Packing the unwrapped bits of ciphertext `key ^ m` and of the key into bytes, then XORing them byte-wise, restores the message. |
| `Otp.DecryptAsWrittenMissesLength` | otp.py:13-17 | Decryption as written, with `bxor` on the bitarrays themselves, never yields a byte string of the message's length for a non-empty message. If bitarray exports its buffer, it raises instead. |
| `Otp.UniformEntropy` | otp.py:10 | If `log2(0.5) == -1`, bits that are all uniform carry exactly one bit of min-entropy each. |
| `Otp.OtpEntropies` | otp.py:9-12 | A fresh key for a message of `k` bytes has min-entropy `8k`. The ciphertext `key ^ m` succeeds, keeps every bit at probability 1/2, and also has min-entropy `8k`. |
| `Otp.OtpCiphertextDecrypts` | otp.py:11-17 | The ciphertext `key ^ m` succeeds. Unwrapping it and the key, then applying the corrected decryption, restores the message. |
| `Otp.OtpDemo` | otp.py:6-17 | Key: a fresh key has entropy `8 * len(msg)`. Ciphertext: `key ^ m` succeeds, keeps every probability at 1/2 and has entropy `8 * len(msg)`. Decryption: the corrected decryption restores the message. |
| `Otp.SelfXorDemo` | otp.py:19-22 | A fresh 4-byte buffer XORed with itself has entropy 0. |
| `Otp.NewAndDemo` | otp.py:24-28 | AND of two independent fresh 8-byte buffers gives each of the 64 bits probability 1/4, for a total min-entropy of `64 * -log2(3/4)`. |

## Behaviour of the code worth knowing

- `entropy()` (pyrand.py:23-24) and `unwrap()` (pyrand.py:25-27) do not read `_wrapped`. A consumed buffer still reports its entropy and hands out its bits again. Only `len` and the operators refuse it.
- `entropy()` always sums `min_entropy`. `shannon_entropy` (pyrand.py:123-126) is not called anywhere in pyrand.py.
- `__init__` has no length check of its own. A negative byte count reaches `os.urandom`, which raises ValueError.
- The same-buffer case is detected by object identity (`id(self) == id(other)`, pyrand.py:104). So `x & x` keeps `x`'s probabilities and `x ^ x` gives all zeros. Two distinct buffers with equal contents are combined as independent.

## Findings

| source | as written | input that shows it | evidently intended | confidence | as-written member | corrected member |
|---|---|---|---|---|---|---|
| otp.py:13-17 | `bxor(rc, rkey)` receives the bitarrays returned by `unwrap()`. `bxor` iterates its second argument element by element, and a bitarray yields one 0/1 value per bit: 8 values per message byte. | Any non-empty message, e.g. the 2 bytes of `"hi"`. `rkey` yields 16 values. `bytearray(rc)` then holds either 2 packed bytes, giving IndexError at index 2, or 16 one-bit values, giving 16 bytes of 0/1. | Convert both bit arrays to bytes before the byte-wise XOR (`bxor(rc.tobytes(), rkey.tobytes())`), which restores the message. | medium, not executed: the outcome depends on how the bitarray library converts to `bytearray` and iterates. Both conversions are outside this model and both fail. | `Otp.DecryptAsWrittenMissesLength` | `Otp.CiphertextDecrypts` |

`Otp.DecryptAsWritten` models the call as written. The boolean `bufferProtocol` selects between the two possible conversions. `Otp.Decrypt` is the corrected decryption that `Otp.OtpDemo` uses.

## Left out

- `os.urandom`: randomness cannot be verified, so the random bytes are a parameter of `RandBytes.New`. Each operator also builds a throwaway `RandBytes(len(self))`, which draws fresh bytes that are immediately overwritten. That draw is not modelled.
- Floating point: probabilities are exact reals. Rounding in the products, in `1 - p` and in the sum in `entropy()` is not modelled.
- `math.log`: the logarithm is the caller-supplied `log2`, so no numeric value of an entropy is computed. The bounds `24 < entropy < 28` asserted in `newAnd` (otp.py:28) depend on the value of `log2(0.75)` and are not proved. `Otp.NewAndDemo` states the entropy as `64 * -log2(0.75)` instead.
- The `bitarray` library: bit arrays are `seq<bool>` and `frombytes` is big-endian unpacking. The library's refusal to combine arrays of different endianness is not modelled; literal operands are taken to be big-endian like the buffer.
- Python's `^` on byte values: modelled as XOR of the eight bits (`Bits.XorByte`), which is what it computes for values 0 to 255.
- Aliasing of the unwrapped bits: `unwrap()` returns the buffer's own bit array `_i`, not a copy. A caller can therefore change a consumed buffer's bits later (`b = x.unwrap(); b.append(1)`), even breaking the relation of `8 * n` bits to `n` bytes. Values here are immutable, so such later mutation is not modelled. `len`, the operators and `~` refuse a consumed buffer before they read its bits; `unwrap()` does not. Accordingly, `RandBytes.Len`, the operators and `RandBytes.Invert` ask for the length invariant (`WellFormed`) only of live buffers, and a consumed buffer of any shape is covered.
- Python values of other types: all collapse into the `Unsupported` operand, because the source treats them all alike (TypeError).
- `minimize.py`: a thin wrapper over the pyeda library's `espresso_exprs`, which is not part of this model.
- Printing, UTF-8 encoding and decoding, and `main` in otp.py: I/O and a string codec. Messages are byte sequences here.
