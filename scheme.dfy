/**
 * The integer parts of the RLWE encryption scheme: the non-negative residue
 * `_mod`, the ring modulus f = X^p + 1 built by `new`, coefficient-wise
 * reduction, `encode`/`decode` by thresholding, and the rejection loop of
 * `poly_sampling`, with the Knuth–Yao sampler replaced by the sequence of
 * values it returns.
 */
module Scheme {
  import opened Wrappers
  import opened Coefficients
  import opened Polynomial

  const I32Min: int := -0x8000_0000
  const I32Max: int := 0x7fff_ffff

  predicate IsI32(x: int) { I32Min <= x <= I32Max }

  /**
   * Remainder truncated toward zero, the `%` of Rust integers and of rug's
   * `Integer`: smaller than d in magnitude and with the sign of x.
   */
  function TruncRem(x: int, d: int): (r: int)
    requires d != 0
    ensures Abs(r) < Abs(d)
    ensures x >= 0 ==> r >= 0
    ensures x < 0 ==> r <= 0
  {
    var e := x % d;
    if x < 0 && e != 0 then e - Abs(d) else e
  }

  /**
   * Quotient truncated toward zero, the `/` of Rust integers; with `TruncRem`
   * it splits x as d·(x / d) + x % d.
   */
  function TruncDiv(x: int, d: int): (r: int)
    requires d != 0
    ensures d * r + TruncRem(x, d) == x
  {
    var e := x / d;
    assert d * e + x % d == x;
    if x < 0 && x % d != 0 then
      var s := if d > 0 then 1 else -1;
      assert d * (e + s) == d * e + Abs(d);
      e + s
    else e
  }

  /**
   * The free function `_mod(i, n)`: (i % n + n) % n with truncating `%`. For
   * n > 0 it lies in [0, n) whatever the sign of i, for n < 0 in (n, 0].
   */
  function Mod(i: int, n: int): (r: int)
    requires n != 0
    ensures n > 0 ==> 0 <= r < n
    ensures n < 0 ==> n < r <= 0
  {
    TruncRem(TruncRem(i, n) + n, n)
  }

  /** `_mod` differs from i by a multiple of n: i == n·k + `_mod(i, n)` for this k. */
  lemma ModQuotient(i: int, n: int) returns (k: int)
    requires n != 0
    ensures i == n * k + Mod(i, n)
  {
    var t := TruncRem(i, n);
    var s := t + n;
    var q1 := TruncDiv(i, n);
    var q2 := TruncDiv(s, n);
    assert n * q1 + t == i;
    assert n * q2 + Mod(i, n) == s;
    k := q1 + q2 - 1;
    Distribute(n, q1, q2);
  }

  /** n·(x + y − 1) expanded. */
  lemma Distribute(n: int, x: int, y: int)
    ensures n * (x + y - 1) == n * x + n * y - n
  {
  }

  /** A multiple of n strictly smaller than n in magnitude is 0. */
  lemma SmallMultiple(n: int, k: int)
    requires n != 0 && Abs(n * k) < Abs(n)
    ensures k == 0
  {
  }

  /** For a positive modulus `_mod` is the Euclidean remainder. */
  lemma ModIsEuclidean(i: int, n: int)
    requires n > 0
    ensures Mod(i, n) == i % n
  {
    var k := ModQuotient(i, n);
    assert i == n * (i / n) + i % n;
    assert n * (k - i / n) == i % n - Mod(i, n);
    SmallMultiple(n, k - i / n);
  }

  /** For a negative modulus `_mod` is the Euclidean remainder moved into (n, 0]. */
  lemma ModNegative(i: int, n: int)
    requires n < 0
    ensures Mod(i, n) == if i % n == 0 then 0 else i % n + n
  {
    var k := ModQuotient(i, n);
    assert i == n * (i / n) + i % n;
    if i % n == 0 {
      assert n * (k - i / n) == -Mod(i, n);
      SmallMultiple(n, k - i / n);
    } else {
      assert n * (k - i / n + 1) == i % n + n - Mod(i, n);
      SmallMultiple(n, k - i / n + 1);
    }
  }

  /** The ring modulus X^p + 1 as a coefficient vector: 1 at indices 0 and p, 0 in between. */
  function RingModulus(p: nat): (r: seq<int>)
    ensures |r| == p + 1 && r[0] == 1 && r[p] == 1
    ensures forall k :: 0 < k < p ==> r[k] == 0
  {
    seq(p + 1, k => if k == 0 || k == p then 1 else 0)
  }

  /**
   * For p >= 1 the ring modulus is normalized and monic of degree p, so any two
   * polynomials of degree below p meet `mulmod`'s argument check against it.
   */
  lemma RingModulusMonic(p: nat, a: seq<int>, b: seq<int>)
    requires p >= 1
    ensures IsStripped(RingModulus(p)) && |RingModulus(p)| - 1 == p
    ensures Coeff(RingModulus(p), p) == 1
    ensures |a| <= p && |b| <= p ==>
              |a| < |RingModulus(p)| && |b| < |RingModulus(p)| && |RingModulus(p)| != 1
              && Coeff(RingModulus(p), |RingModulus(p)| - 1) == 1
  {
  }

  /** `set_coeff(p, 1)` and then `set_coeff(0, 1)` on p + 1 zeros give X^p + 1 (the constant 1 for p = 0). */
  lemma RingModulusBuilt(p: nat)
    ensures SetCoeffResult(SetCoeffResult(Resize([], p + 1), p, 1), 0, 1) == if p == 0 then [1] else RingModulus(p)
  {
    var z := Resize([], p + 1);
    SetCoeffEffect(z, p, 1);
    var h := SetCoeffResult(z, p, 1);
    SetCoeffEffect(h, 0, 1);
    var g := SetCoeffResult(h, 0, 1);
    if p == 0 {
      StrippedUnique(g, [1]);
    } else {
      assert forall k :: Coeff(g, k) == Coeff(RingModulus(p), k);
      StrippedUnique(g, RingModulus(p));
    }
  }

  /**
   * What the `_mod` method leaves in a non-empty vector s: every coefficient below
   * p reduced by `_mod(·, q)`, every other one unchanged, normalized.
   */
  function ReducedBelow(s: seq<int>, p: nat, q: int): (r: seq<int>)
    requires |s| >= 1 && q != 0
    ensures IsStripped(r)
    ensures forall k :: Coeff(r, k) == if 0 <= k < p then Mod(Coeff(s, k), q) else Coeff(s, k)
  {
    var v := seq(Max(|s|, p), k requires 0 <= k < Max(|s|, p) => if k < p then Mod(Coeff(s, k), q) else s[k]);
    assert forall k :: Coeff(v, k) == if 0 <= k < p then Mod(Coeff(s, k), q) else Coeff(s, k);
    Stripped(v)
  }

  /** The bit `decode` reads from a coefficient c: 1 exactly when (q−1)/4 <= c < 3·((q−1)/4). */
  function DecodeBit(c: int, q: int): (b: int)
    ensures b == 0 || b == 1
    ensures b == 1 <==> TruncDiv(q - 1, 4) <= c < 3 * TruncDiv(q - 1, 4)
  {
    var lbound := TruncDiv(q - 1, 4);
    if lbound <= c < 3 * lbound then 1 else 0
  }

  /**
   * Decoding an encoded bit gives it back: 0 encodes as 0, below the lower
   * threshold, and 1 as (q−1)/2, which lies in [(q−1)/4, 3·((q−1)/4)) once
   * (q−1)/4 >= 2.
   */
  lemma {:induction false} DecodeEncodeBit(bit: int, q: int)
    requires bit == 0 || bit == 1
    requires TruncDiv(q - 1, 4) >= 2
    ensures DecodeBit(bit * TruncDiv(q - 1, 2), q) == bit
  {
    var n := q - 1;
    var l := TruncDiv(n, 4);
    var h := TruncDiv(n, 2);
    assert n >= 0;
    TruncDivNonNegative(n, 4);
    TruncDivNonNegative(n, 2);
    assert n == 4 * l + n % 4;
    assert n == 2 * h + n % 2;
    assert l <= h < 3 * l;
  }

  /** On a non-negative dividend the truncated quotient is the Euclidean one. */
  lemma TruncDivNonNegative(x: int, d: int)
    requires x >= 0 && d > 0
    ensures TruncDiv(x, d) == x / d && TruncRem(x, d) == x % d
  {
  }

  /** Values `poly_sampling` keeps: strictly between center − bound and center + bound. */
  predicate Accepted(s: int, center: int, bound: int) {
    center - bound < s < center + bound
  }

  /** The accepted values of a sequence of draws, in order. */
  function Filtered(draws: seq<int>, center: int, bound: int): (r: seq<int>)
    ensures |r| <= |draws|
    ensures forall k :: 0 <= k < |r| ==> Accepted(r[k], center, bound)
  {
    if |draws| == 0 then []
    else
      assert draws == [draws[0]] + draws[1..];
      (if Accepted(draws[0], center, bound) then [draws[0]] else []) + Filtered(draws[1..], center, bound)
  }

  /**
   * The parameters of the scheme that the modelled parts use: the ring degree p,
   * the coefficient modulus q and the ring modulus f. The Gaussian parameters and
   * the sampler are not part of this model.
   */
  class EncryptionScheme {
    const p: nat
    const q: int
    const f: ZZX

    /**
     * `new`: f is built as the vector of p + 1 zeros with `set_coeff(p, 1)` and then
     * `set_coeff(0, 1)`, which gives X^p + 1 (and the constant 1 as a degenerate
     * X^0 + 1 when p is 0). A negative p would be cast to a huge `usize`.
     */
    constructor (p: int, q: int)
      requires 0 <= p <= I32Max && IsI32(q)
      ensures this.p == p && this.q == q
      ensures fresh(f) && f.coeffs == (if p == 0 then [1] else RingModulus(p))
    {
      var g := new ZZX();
      g.SetLength(p + 1);
      g.SetCoeff(p, Some(1));
      g.SetCoeff(0, Some(1));
      RingModulusBuilt(p);
      this.p := p;
      this.q := q;
      this.f := g;
    }

    /**
     * The `_mod` method: `set_coeff(i, _mod(coeff(i), q))` for i below p. Each
     * `set_coeff` needs a non-empty vector, and `_mod` a non-zero q.
     */
    method ModCoeffs(a: ZZX)
      requires a != f
      requires p >= 1 ==> |a.coeffs| >= 1
      requires q != 0
      modifies a
      ensures p == 0 ==> a.coeffs == old(a.coeffs)
      ensures p >= 1 ==> a.coeffs == ReducedBelow(old(a.coeffs), p, q)
    {
      ghost var s := a.coeffs;
      for i := 0 to p
        invariant i == 0 ==> a.coeffs == s
        invariant i > 0 ==> IsStripped(a.coeffs)
        invariant |a.coeffs| >= 1 || p == 0
        invariant forall k :: Coeff(a.coeffs, k) == if 0 <= k < i then Mod(Coeff(s, k), q) else Coeff(s, k)
      {
        var c := Mod(a.Coeff(i), q);
        SetCoeffEffect(a.coeffs, i, c);
        a.SetCoeff(i, Some(c));
      }
      if p >= 1 {
        StrippedUnique(a.coeffs, ReducedBelow(s, p, q));
      }
    }

    /**
     * `encode`: the first p entries become a[i]·((q−1)/2), computed in `i32`, so
     * q − 1 and every product must fit. The index `aprime[i]` is not defined in
     * the source's `ZZX`; the model writes entry i of the vector.
     */
    method Encode(aprime: ZZX, a: seq<int>)
      requires aprime != f
      requires p <= |a| && IsI32(q - 1)
      requires forall i :: 0 <= i < p ==> IsI32(a[i] * TruncDiv(q - 1, 2))
      modifies aprime
      ensures |aprime.coeffs| == p
      ensures forall i :: 0 <= i < p ==> aprime.coeffs[i] == a[i] * TruncDiv(q - 1, 2)
    {
      aprime.SetLength(p);
      var bound := TruncDiv(q - 1, 2);
      for i := 0 to p
        invariant |aprime.coeffs| == p
        invariant forall k :: 0 <= k < i ==> aprime.coeffs[k] == a[k] * bound
      {
        aprime.coeffs := aprime.coeffs[i := a[i] * bound];
      }
    }

    /**
     * `decode`: for the first min(p, |a|) entries, a[i] becomes the bit read from
     * coefficient i of aprime; every other entry of a is left alone.
     */
    method Decode(a: array<int>, aprime: ZZX)
      requires IsI32(q - 1)
      modifies a
      ensures forall i :: 0 <= i < a.Length ==>
                a[i] == if i < p then DecodeBit(Coeff(aprime.coeffs, i), q) else old(a[i])
    {
      var lbound := TruncDiv(q - 1, 4);
      var ubound := 3 * lbound;
      var n := Min(a.Length, p);
      for i := 0 to n
        invariant forall k :: 0 <= k < a.Length ==>
                    a[k] == if k < i then DecodeBit(Coeff(aprime.coeffs, k), q) else old(a[k])
      {
        if aprime.Coeff(i) >= lbound && aprime.Coeff(i) < ubound {
          a[i] := 1;
        } else {
          a[i] := 0;
        }
      }
    }

    /**
     * The rejection loop of `poly_sampling`: for each i below p the sampler is
     * called until it returns a value strictly between center − bound and
     * center + bound, and that value goes to coefficient i by `set_coeff`. The
     * sampler's successive results are the sequence draws, which must hold at
     * least p acceptable values; bound and center come in as integers.
     */
    method PolySampling(a: ZZX, bound: int, center: int, draws: seq<int>)
      requires a != f
      requires IsI32(center + bound) && IsI32(center - bound)
      requires |Filtered(draws, center, bound)| >= p
      modifies a
      ensures p == 0 ==> a.coeffs == []
      ensures p >= 1 ==> a.coeffs == Stripped(Filtered(draws, center, bound)[..p])
      ensures forall i :: 0 <= i < p ==> Accepted(Coeff(a.coeffs, i), center, bound)
    {
      SampleInto(a, bound, center, draws, p);
    }
  }

  /**
   * The state of `poly_sampling` after i samples, over the vector a0 of length p
   * left by `set_length(p)`: the first i coefficients are the first i accepted
   * values, the rest are a0's, and the vector is normalized once written to.
   */
  ghost predicate Sampled(v: seq<int>, v0: seq<int>, samples: seq<int>, i: nat) {
    && i <= |samples|
    && (i == 0 ==> v == v0)
    && (i > 0 ==> IsStripped(v))
    && (|v| >= 1 || |v0| == 0)
    && forall k :: Coeff(v, k) == if 0 <= k < i then samples[k] else Coeff(v0, k)
  }

  /**
   * The body of `poly_sampling` for ring degree p: resize a to p coefficients,
   * then store the next accepted draw at each index 0 … p−1.
   */
  method SampleInto(a: ZZX, bound: int, center: int, draws: seq<int>, p: nat)
    requires |Filtered(draws, center, bound)| >= p
    modifies a
    ensures p == 0 ==> a.coeffs == []
    ensures p >= 1 ==> a.coeffs == Stripped(Filtered(draws, center, bound)[..p])
    ensures forall i :: 0 <= i < p ==> Accepted(Coeff(a.coeffs, i), center, bound)
  {
    ghost var all := Filtered(draws, center, bound);
    a.SetLength(p);
    var pos := 0;
    ghost var a0 := a.coeffs;
    for i := 0 to p
      invariant Drawn(draws, center, bound, all, pos, a.coeffs, a0, i)
    {
      var sample, next := NextAccepted(draws, pos, center, bound);
      ghost var v := a.coeffs;
      DrawnStep(draws, center, bound, all, pos, next, sample, v, a0, i);
      a.SetCoeff(i, Some(sample));
      assert a.coeffs == SetCoeffResult(v, i, sample);
      pos := next;
    }
    SampledFinally(a.coeffs, a0, all, p);
    FilteredAccepted(draws, center, bound, a.coeffs, p);
  }

  /**
   * The loop state of `poly_sampling` after i samples: the draws consumed up to
   * pos gave exactly the first i accepted values, and these are stored.
   */
  ghost predicate Drawn(draws: seq<int>, center: int, bound: int, all: seq<int>, pos: int, v: seq<int>, v0: seq<int>, i: nat) {
    && 0 <= pos <= |draws| && i <= |all|
    && Filtered(draws[pos..], center, bound) == all[i..]
    && Sampled(v, v0, all, i)
  }

  /** One round of `poly_sampling`: drawing the next accepted value and storing it at i. */
  lemma DrawnStep(draws: seq<int>, center: int, bound: int, all: seq<int>, pos: int, next: int, sample: int,
                  v: seq<int>, v0: seq<int>, i: nat)
    requires Drawn(draws, center, bound, all, pos, v, v0, i) && i < |v0|
    requires pos < next <= |draws|
    requires Filtered(draws[pos..], center, bound) == [sample] + Filtered(draws[next..], center, bound)
    ensures |v| >= 1 && Drawn(draws, center, bound, all, next, SetCoeffResult(v, i, sample), v0, i + 1)
  {
    ConsTail(all, i, sample, Filtered(draws[next..], center, bound));
    SampledStep(v, v0, all, i);
  }

  /** Storing sample i by `set_coeff` extends the sampled prefix by one. */
  lemma SampledStep(v: seq<int>, v0: seq<int>, samples: seq<int>, i: nat)
    requires Sampled(v, v0, samples, i) && i < |samples| && i < |v0|
    ensures |v| >= 1 && Sampled(SetCoeffResult(v, i, samples[i]), v0, samples, i + 1)
  {
    SetCoeffEffect(v, i, samples[i]);
  }

  /**
   * The inner loop of `poly_sampling`: the sampler, here the draws from position
   * pos on, is called until a value strictly between center − bound and
   * center + bound comes out. It returns that value and the position after it:
   * the first accepted value at or after pos.
   */
  method NextAccepted(draws: seq<int>, pos: nat, center: int, bound: int) returns (sample: int, next: nat)
    requires pos <= |draws| && |Filtered(draws[pos..], center, bound)| >= 1
    ensures pos < next <= |draws|
    ensures Accepted(sample, center, bound)
    ensures Filtered(draws[pos..], center, bound) == [sample] + Filtered(draws[next..], center, bound)
  {
    FilteredNonEmpty(draws, pos, center, bound);
    sample := draws[pos];
    next := pos + 1;
    while sample >= center + bound || sample <= center - bound
      invariant pos < next <= |draws|
      invariant sample == draws[next - 1]
      invariant Filtered(draws[pos..], center, bound) == Filtered(draws[next - 1..], center, bound)
      decreases |draws| - next
    {
      FilteredSkip(draws, next - 1, center, bound);
      FilteredNonEmpty(draws, next, center, bound);
      sample := draws[next];
      next := next + 1;
    }
    FilteredTake(draws, next - 1, center, bound);
  }

  /** Accepted values left from position pos on need a draw at pos. */
  lemma FilteredNonEmpty(draws: seq<int>, pos: nat, center: int, bound: int)
    requires pos <= |draws| && |Filtered(draws[pos..], center, bound)| >= 1
    ensures pos < |draws|
  {
  }

  /** A rejected draw contributes nothing. */
  lemma FilteredSkip(draws: seq<int>, pos: nat, center: int, bound: int)
    requires pos < |draws| && !Accepted(draws[pos], center, bound)
    ensures Filtered(draws[pos..], center, bound) == Filtered(draws[pos + 1..], center, bound)
  {
    assert draws[pos..][1..] == draws[pos + 1..];
  }

  /** An accepted draw comes first among the accepted values from its position on. */
  lemma FilteredTake(draws: seq<int>, pos: nat, center: int, bound: int)
    requires pos < |draws| && Accepted(draws[pos], center, bound)
    ensures Filtered(draws[pos..], center, bound) == [draws[pos]] + Filtered(draws[pos + 1..], center, bound)
  {
    assert draws[pos..][1..] == draws[pos + 1..];
  }

  /** Splitting the head off a suffix of s. */
  lemma ConsTail(s: seq<int>, i: nat, x: int, t: seq<int>)
    requires i <= |s| && s[i..] == [x] + t
    ensures i < |s| && s[i] == x && s[i + 1..] == t
  {
    assert s[i..][0] == x;
    assert s[i..][1..] == t;
  }

  /** After p samples over a vector of length p, the vector is the samples normalized (empty for p = 0). */
  lemma SampledFinally(v: seq<int>, v0: seq<int>, samples: seq<int>, p: nat)
    requires Sampled(v, v0, samples, p) && |v0| == p
    ensures p == 0 ==> v == []
    ensures p >= 1 ==> v == Stripped(samples[..p])
    ensures forall k :: 0 <= k < p ==> Coeff(v, k) == samples[k]
  {
    if p >= 1 {
      SamplesStored(v, v0, samples, p);
    }
  }

  /** The first p coefficients, taken from the accepted draws, are accepted. */
  lemma FilteredAccepted(draws: seq<int>, center: int, bound: int, v: seq<int>, p: nat)
    requires p <= |Filtered(draws, center, bound)|
    requires forall k :: 0 <= k < p ==> Coeff(v, k) == Filtered(draws, center, bound)[k]
    ensures forall k :: 0 <= k < p ==> Accepted(Coeff(v, k), center, bound)
  {
  }

  /** A normalized vector holding the first p samples below p, over a vector of length p, is those samples normalized. */
  lemma SamplesStored(v: seq<int>, v0: seq<int>, samples: seq<int>, p: nat)
    requires 1 <= p <= |samples| && |v0| == p && IsStripped(v)
    requires forall k :: Coeff(v, k) == if 0 <= k < p then samples[k] else Coeff(v0, k)
    ensures v == Stripped(samples[..p])
  {
    assert forall k :: Coeff(v, k) == Coeff(samples[..p], k);
    StrippedUnique(v, Stripped(samples[..p]));
  }

  /** Decoding the encoding of a bit vector gives the bits back, coefficient by coefficient. */
  lemma DecodeEncode(bits: seq<int>, p: nat, q: int, encoded: seq<int>)
    requires p <= |bits| && |encoded| == p
    requires forall i :: 0 <= i < p ==> bits[i] == 0 || bits[i] == 1
    requires forall i :: 0 <= i < p ==> encoded[i] == bits[i] * TruncDiv(q - 1, 2)
    requires TruncDiv(q - 1, 4) >= 2
    ensures forall i :: 0 <= i < p ==> DecodeBit(Coeff(encoded, i), q) == bits[i]
  {
    forall i | 0 <= i < p ensures DecodeBit(Coeff(encoded, i), q) == bits[i] {
      DecodeEncodeBit(bits[i], q);
    }
  }
}
