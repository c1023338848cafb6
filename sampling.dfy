/**
 * The two self-contained pieces of the discrete Gaussian sampler: the
 * branch-free `select` and the greedy binary expansion of a probability that
 * fills one column of the Knuth–Yao probability matrix.
 */
module Sampling {

  /**
   * `select(a, b, bit)`: with mask = −bit in 32-bit two's complement, the
   * result takes each bit from b where the mask is set and from a where it is
   * clear. The negation of `bit as i32` overflows only for bit = 2^31.
   */
  function Select(a: bv32, b: bv32, bit: bv32): (r: bv32)
    requires bit != 0x8000_0000
    ensures r == ((0 - bit) & b) | (!(0 - bit) & a)
  {
    var mask := 0 - bit;
    (mask & (a ^ b)) ^ a
  }

  /** A bit of 0 selects a, a bit of 1 selects b, as documented at `select`. */
  lemma SelectBit(a: bv32, b: bv32, bit: bv32)
    requires bit == 0 || bit == 1
    ensures Select(a, b, bit) == if bit == 0 then a else b
  {
    if bit == 0 {
      assert 0 - bit == 0;
    } else {
      assert 0 - bit == 0xffff_ffff;
    }
  }

  /** 2^−n. */
  function Pow2Neg(n: nat): (r: real)
    ensures r > 0.0
    ensures n > 0 ==> r <= 0.5
  {
    if n == 0 then 1.0 else Pow2Neg(n - 1) / 2.0
  }

  /** 2^−n shrinks as n grows. */
  lemma {:induction false} Pow2NegAntitone(m: nat, n: nat)
    requires m <= n
    ensures Pow2Neg(n) <= Pow2Neg(m)
    decreases n - m
  {
    if m < n {
      Pow2NegAntitone(m, n - 1);
    }
  }

  /**
   * The digits the expansion loop writes when it starts at step j with the
   * remaining probability prob: while prob > 0 and j < precision, digit j is 1
   * and 2^−(j+1) is subtracted when 2^−(j+1) <= prob, and 0 otherwise.
   */
  function Digits(prob: real, j: nat, precision: nat): (d: seq<int>)
    ensures j + |d| <= precision || |d| == 0
    ensures forall t :: 0 <= t < |d| ==> d[t] == 0 || d[t] == 1
    decreases precision - j
  {
    if prob > 0.0 && j < precision then
      if Pow2Neg(j + 1) <= prob then [1] + Digits(prob - Pow2Neg(j + 1), j + 1, precision)
      else [0] + Digits(prob, j + 1, precision)
    else []
  }

  /** The probability still unaccounted for when the loop stops. */
  function Residual(prob: real, j: nat, precision: nat): real
    decreases precision - j
  {
    if prob > 0.0 && j < precision then
      if Pow2Neg(j + 1) <= prob then Residual(prob - Pow2Neg(j + 1), j + 1, precision)
      else Residual(prob, j + 1, precision)
    else prob
  }

  /** The value Σ d[t]·2^−(j+t+1) of digits written from step j on. */
  function Weight(d: seq<int>, j: nat): real
  {
    if |d| == 0 then 0.0 else d[0] as real * Pow2Neg(j + 1) + Weight(d[1..], j + 1)
  }

  /** From step j on, the digits written plus the residual left account exactly for prob. */
  lemma {:induction false} ExpansionExact(prob: real, j: nat, precision: nat)
    ensures Weight(Digits(prob, j, precision), j) + Residual(prob, j, precision) == prob
    decreases precision - j
  {
    if prob > 0.0 && j < precision {
      var d := Digits(prob, j, precision);
      var w := Pow2Neg(j + 1);
      DigitsNext(prob, j, precision);
      if w <= prob {
        ExpansionExact(prob - w, j + 1, precision);
        assert Weight(d, j) == 1.0 * w + Weight(Digits(prob - w, j + 1, precision), j + 1);
      } else {
        ExpansionExact(prob, j + 1, precision);
        assert Weight(d, j) == 0.0 * w + Weight(Digits(prob, j + 1, precision), j + 1);
      }
    }
  }

  /**
   * From step j, with 0 <= prob <= 2^−j, the residual stays between 0 and
   * 2^−(j+k) after k digits: each step halves the bound.
   */
  lemma {:induction false} ResidualBound(prob: real, j: nat, precision: nat)
    requires 0.0 <= prob <= Pow2Neg(j)
    ensures 0.0 <= Residual(prob, j, precision) <= Pow2Neg(j + |Digits(prob, j, precision)|)
    decreases precision - j
  {
    if prob > 0.0 && j < precision {
      var rest := if Pow2Neg(j + 1) <= prob then prob - Pow2Neg(j + 1) else prob;
      DigitsNext(prob, j, precision);
      assert Residual(prob, j, precision) == Residual(rest, j + 1, precision);
      assert Pow2Neg(j + 1) == Pow2Neg(j) / 2.0;
      ResidualBound(rest, j + 1, precision);
    }
  }

  /** A positive residual means the loop stopped because it ran out of precision. */
  lemma {:induction false} ResidualOnlyAtPrecision(prob: real, j: nat, precision: nat)
    requires j <= precision
    ensures Residual(prob, j, precision) > 0.0 ==> j + |Digits(prob, j, precision)| == precision
    decreases precision - j
  {
    if prob > 0.0 && j < precision {
      var rest := if Pow2Neg(j + 1) <= prob then prob - Pow2Neg(j + 1) else prob;
      DigitsNext(prob, j, precision);
      assert Residual(prob, j, precision) == Residual(rest, j + 1, precision);
      ResidualOnlyAtPrecision(rest, j + 1, precision);
    }
  }

  /**
   * `binary_expansion` approximates a probability in [0, 1] from below: the
   * digits it writes are worth the probability minus an error of at most
   * 2^−precision.
   */
  lemma ExpansionError(prob: real, precision: nat)
    requires 0.0 <= prob <= 1.0
    ensures prob - Pow2Neg(precision) <= Weight(Digits(prob, 0, precision), 0) <= prob
  {
    ExpansionExact(prob, 0, precision);
    ResidualBound(prob, 0, precision);
    ResidualOnlyAtPrecision(prob, 0, precision);
    Pow2NegAntitone(|Digits(prob, 0, precision)|, precision);
  }

  /** One step of the loop: the next digit and the digits after it. */
  lemma DigitsNext(prob: real, j: nat, precision: nat)
    requires prob > 0.0 && j < precision
    ensures |Digits(prob, j, precision)| >= 1
    ensures Digits(prob, j, precision)[0] == if Pow2Neg(j + 1) <= prob then 1 else 0
    ensures Digits(prob, j, precision)[1..]
            == Digits(if Pow2Neg(j + 1) <= prob then prob - Pow2Neg(j + 1) else prob, j + 1, precision)
  {
  }

  /** Moving the first element of the unwritten part of d to the written part. */
  lemma PrefixStep(d: seq<int>, j: nat, rest: seq<int>)
    requires j <= |d| && d == d[..j] + rest && |rest| >= 1
    ensures j < |d| && d[j] == rest[0] && d == d[..j + 1] + rest[1..]
  {
    assert d[..j + 1] == d[..j] + [rest[0]];
  }

  /**
   * `binary_expansion(aux_p, probability, precision, index)`: the loop over
   * j = 0, 1, … writes digit j (with 2^i for i = −(j+1) as its weight) into row
   * j of column `index` of the matrix, and stops when the remaining
   * probability reaches 0 or j reaches precision. Every row it writes must
   * exist. The `RR` arithmetic is modelled as exact.
   */
  method BinaryExpansion(auxP: array2<int>, probability: real, precision: nat, index: nat)
    requires index < auxP.Length1
    requires |Digits(probability, 0, precision)| <= auxP.Length0
    modifies auxP
    ensures forall t, c :: 0 <= t < auxP.Length0 && 0 <= c < auxP.Length1 ==>
              auxP[t, c] == if c == index && t < |Digits(probability, 0, precision)|
                            then Digits(probability, 0, precision)[t] else old(auxP[t, c])
  {
    ghost var d := Digits(probability, 0, precision);
    var prob := probability;
    var i := -1;
    var j := 0;
    while prob > 0.0 && j < precision
      invariant i == -(j + 1) && j <= |d|
      invariant d == d[..j] + Digits(prob, j, precision)
      invariant forall t :: 0 <= t < j ==> auxP[t, index] == d[t]
      invariant forall t, c :: 0 <= t < auxP.Length0 && 0 <= c < auxP.Length1 && (c != index || j <= t) ==>
                  auxP[t, c] == old(auxP[t, c])
      decreases precision - j
    {
      DigitsNext(prob, j, precision);
      PrefixStep(d, j, Digits(prob, j, precision));
      var pow := Pow2Neg(-i);
      assert d[j] == if pow <= prob then 1 else 0;
      if pow <= prob {
        auxP[j, index] := 1;
        prob := prob - pow;
      } else {
        auxP[j, index] := 0;
      }
      i := i - 1;
      j := j + 1;
    }
  }
}
