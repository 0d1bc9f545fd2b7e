/** Per-bit entropy of a probability and its sum over a buffer, as
    `min_entropy`, `shannon_entropy` and `RandBytes.entropy` compute them.
    The base-2 logarithm is the floating-point `math.log(x, 2)` of the
    source; it is a parameter `log2` here, so every statement holds for any
    logarithm the caller supplies. */
module Information {

  /** `min_entropy(pr)`: `-log2(max(p, 1 - p))`, and 0 for a certain bit. */
  function MinEntropy(p: real, log2: real -> real): (h: real)
    ensures p == 0.0 || p == 1.0 ==> h == 0.0
    ensures p != 0.0 && p != 1.0 ==> h == -log2(if p > 0.5 then p else 1.0 - p)
  {
    if p == 0.0 || 1.0 - p == 0.0 then 0.0
    else if p > 0.5 then -1.0 * log2(p)
    else -1.0 * log2(1.0 - p)
  }

  /** `shannon_entropy(pr)`: `-(p log2 p + (1-p) log2 (1-p))`, and 0 for a certain bit. */
  function ShannonEntropy(p: real, log2: real -> real): (h: real)
    ensures p == 0.0 || p == 1.0 ==> h == 0.0
  {
    if p == 0.0 || 1.0 - p == 0.0 then 0.0
    else -1.0 * (p * log2(p) + (1.0 - p) * log2(1.0 - p))
  }

  /** A logarithm that maps [1/2, 1] into [-1, 0], as the base-2 logarithm does. */
  ghost predicate HalfToOneBounded(log2: real -> real) {
    forall x :: 0.5 <= x <= 1.0 ==> -1.0 <= log2(x) <= 0.0
  }

  /** `sum([min_entropy(i) for i in pr_one])`: with a base-2 logarithm,
      `k` probabilities carry between 0 and `k` bits of min-entropy. */
  function TotalMinEntropy(ps: seq<real>, log2: real -> real): (r: real)
    ensures HalfToOneBounded(log2) && (forall i :: 0 <= i < |ps| ==> 0.0 <= ps[i] <= 1.0) ==>
      0.0 <= r <= |ps| as real
  {
    if |ps| == 0 then 0.0 else MinEntropy(ps[0], log2) + TotalMinEntropy(ps[1..], log2)
  }

  /** A bit and its complement carry the same min-entropy. */
  lemma MinEntropySymmetric(p: real, log2: real -> real)
    ensures MinEntropy(1.0 - p, log2) == MinEntropy(p, log2)
  {
  }

  /** A bit and its complement carry the same Shannon entropy. */
  lemma ShannonSymmetric(p: real, log2: real -> real)
    ensures ShannonEntropy(1.0 - p, log2) == ShannonEntropy(p, log2)
  {
  }

  /** A uniformly random bit carries one bit of min-entropy when the
      logarithm is exact at one half (`math.log(0.5, 2) == -1.0`). */
  lemma HalfIsOneBit(log2: real -> real)
    requires log2(0.5) == -1.0
    ensures MinEntropy(0.5, log2) == 1.0
  {
  }

  /** A sequence of certain bits has no min-entropy. */
  lemma {:induction false} TotalOfCertain(ps: seq<real>, log2: real -> real)
    requires forall i :: 0 <= i < |ps| ==> ps[i] == 0.0 || ps[i] == 1.0
    ensures TotalMinEntropy(ps, log2) == 0.0
  {
    if |ps| > 0 {
      TotalOfCertain(ps[1..], log2);
    }
  }

  /** A sequence of equal probabilities has `|ps|` times one bit's min-entropy. */
  lemma {:induction false} TotalOfConstant(ps: seq<real>, c: real, log2: real -> real)
    requires forall i :: 0 <= i < |ps| ==> ps[i] == c
    ensures TotalMinEntropy(ps, log2) == |ps| as real * MinEntropy(c, log2)
  {
    if |ps| > 0 {
      TotalOfConstant(ps[1..], c, log2);
    }
  }

  /** Sequences whose bits carry the same min-entropy index by index have
      the same total. */
  lemma {:induction false} TotalPointwise(ps: seq<real>, qs: seq<real>, log2: real -> real)
    requires |ps| == |qs|
    requires forall i :: 0 <= i < |ps| ==> MinEntropy(ps[i], log2) == MinEntropy(qs[i], log2)
    ensures TotalMinEntropy(ps, log2) == TotalMinEntropy(qs, log2)
  {
    if |ps| > 0 {
      TotalPointwise(ps[1..], qs[1..], log2);
    }
  }
}
