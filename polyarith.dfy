/**
 * The arithmetic meaning of polynomial products and remainders over the
 * integers: coefficient i of a·b is the convolution sum Σ_j a_j·b_{i−j}, and
 * "c·p − r is a multiple of b" is witnessed by a quotient polynomial q with
 * c·p − r = q·b, coefficient by coefficient.
 */
module PolyArith {
  import opened Coefficients

  /** Σ_{j = lo}^{hi − 1} a_j · b_{i − j}, with coefficients outside a vector read as 0. */
  function ConvSum(a: seq<int>, b: seq<int>, i: int, lo: int, hi: int): int
    decreases hi - lo
  {
    if hi <= lo then 0 else ConvSum(a, b, i, lo, hi - 1) + Coeff(a, hi - 1) * Coeff(b, i - (hi - 1))
  }

  /** Coefficient of X^i in a·b: Σ_{j = 0}^{i} a_j · b_{i − j} (0 for negative i). */
  function ConvAt(a: seq<int>, b: seq<int>, i: int): int {
    ConvSum(a, b, i, 0, i + 1)
  }

  /** The full convolution vector of two non-empty vectors: |a| + |b| − 1 entries. */
  function Conv(a: seq<int>, b: seq<int>): (r: seq<int>)
    requires |a| >= 1 && |b| >= 1
    ensures |r| == |a| + |b| - 1
    ensures forall i :: 0 <= i < |r| ==> r[i] == ConvAt(a, b, i)
  {
    seq(|a| + |b| - 1, i => ConvAt(a, b, i))
  }

  /** What `mul(c, a, b)` leaves in c: empty when either operand is, else the normalized convolution. */
  function Product(a: seq<int>, b: seq<int>): seq<int> {
    if |a| == 0 || |b| == 0 then [] else Stripped(Conv(a, b))
  }

  lemma {:induction false} ConvSumSplit(a: seq<int>, b: seq<int>, i: int, lo: int, mid: int, hi: int)
    requires lo <= mid <= hi
    ensures ConvSum(a, b, i, lo, hi) == ConvSum(a, b, i, lo, mid) + ConvSum(a, b, i, mid, hi)
    decreases hi - mid
  {
    if mid < hi {
      ConvSumSplit(a, b, i, lo, mid, hi - 1);
    }
  }

  /** A sum whose every term is 0 is 0. */
  lemma {:induction false} ConvSumZero(a: seq<int>, b: seq<int>, i: int, lo: int, hi: int)
    requires forall j :: lo <= j < hi ==> Coeff(a, j) * Coeff(b, i - j) == 0
    ensures ConvSum(a, b, i, lo, hi) == 0
    decreases hi - lo
  {
    if lo < hi {
      ConvSumZero(a, b, i, lo, hi - 1);
    }
  }

  /**
   * Only j with 0 <= j <= deg a and 0 <= i − j <= deg b contribute: coefficient i of
   * a·b is the sum over j from max(0, i − deg b) to min(deg a, i), the window the
   * schoolbook loops run over.
   */
  lemma ConvAtWindow(a: seq<int>, b: seq<int>, i: int)
    requires |a| >= 1 && |b| >= 1 && 0 <= i <= |a| + |b| - 2
    ensures ConvAt(a, b, i) == ConvSum(a, b, i, Max(0, i - (|b| - 1)), Min(|a| - 1, i) + 1)
  {
    var lo, hi := Max(0, i - (|b| - 1)), Min(|a| - 1, i) + 1;
    ConvSumSplit(a, b, i, 0, lo, i + 1);
    ConvSumSplit(a, b, i, lo, hi, i + 1);
    ConvSumZero(a, b, i, 0, lo);
    ConvSumZero(a, b, i, hi, i + 1);
  }

  /** Beyond deg a + deg b every coefficient of a·b is 0, and a product with an empty factor is 0. */
  lemma ConvAtBeyond(a: seq<int>, b: seq<int>, i: int)
    requires |a| == 0 || |b| == 0 || i >= |a| + |b| - 1
    ensures ConvAt(a, b, i) == 0
  {
    ConvSumZero(a, b, i, 0, i + 1);
  }

  /** `mul` computes the convolution: coefficient k of its result is Σ_j a_j·b_{k−j}, for every k. */
  lemma ProductCoeffs(a: seq<int>, b: seq<int>)
    ensures forall k :: Coeff(Product(a, b), k) == ConvAt(a, b, k)
    ensures |a| >= 1 && |b| >= 1 ==> IsStripped(Product(a, b))
  {
    forall k ensures Coeff(Product(a, b), k) == ConvAt(a, b, k) {
      if |a| == 0 || |b| == 0 || k >= |a| + |b| - 1 {
        ConvAtBeyond(a, b, k);
      } else if k >= 0 {
        assert Coeff(Product(a, b), k) == Coeff(Conv(a, b), k);
      }
    }
  }

  /** When both leading coefficients are non-zero the product has exactly deg a + deg b + 1 coefficients. */
  lemma ProductLength(a: seq<int>, b: seq<int>)
    requires |a| >= 1 && |b| >= 1 && a[|a| - 1] != 0 && b[|b| - 1] != 0
    ensures |Product(a, b)| == |a| + |b| - 1
    ensures Product(a, b)[|a| + |b| - 2] == a[|a| - 1] * b[|b| - 1]
  {
    var top := |a| + |b| - 2;
    ConvAtWindow(a, b, top);
    assert ConvAt(a, b, top) == a[|a| - 1] * b[|b| - 1];
    ProductCoeffs(a, b);
    assert Coeff(Product(a, b), top) != 0;
  }

  lemma ConvSumPeel(a: seq<int>, b: seq<int>, i: int, lo: int, hi: int)
    requires lo < hi
    ensures ConvSum(a, b, i, lo, hi) == Coeff(a, lo) * Coeff(b, i - lo) + ConvSum(a, b, i, lo + 1, hi)
  {
    ConvSumSplit(a, b, i, lo, lo + 1, hi);
  }

  /** In a self-convolution the term for j equals the term for i − j, so a window can be mirrored. */
  lemma {:induction false} ConvSumMirror(a: seq<int>, i: int, lo: int, hi: int)
    requires lo <= hi
    ensures ConvSum(a, a, i, lo, hi) == ConvSum(a, a, i, i + 1 - hi, i + 1 - lo)
    decreases hi - lo
  {
    if lo < hi {
      ConvSumMirror(a, i, lo, hi - 1);
      ConvSumPeel(a, a, i, i + 1 - hi, i + 1 - lo);
    }
  }

  /**
   * The squaring identity `PlainSqr` relies on: with the window [jMin, jMax]
   * of m = jMax − jMin + 1 terms, coefficient i of a·a is twice the sum over
   * the lower m/2 terms, plus the square of the middle coefficient when m is odd.
   */
  lemma SquareCoeff(a: seq<int>, i: int, jMin: int, jMax: int)
    requires |a| >= 1 && 0 <= i <= 2 * (|a| - 1)
    requires jMin == Max(0, i - (|a| - 1)) && jMax == Min(i, |a| - 1)
    ensures var m := jMax - jMin + 1;
            var mid := jMin + m / 2;
            2 * ConvSum(a, a, i, jMin, mid) + (if m % 2 == 1 then a[mid] * a[mid] else 0)
            == ConvAt(a, a, i)
  {
    var m := jMax - jMin + 1;
    var m2 := m / 2;
    assert m == 2 * m2 + m % 2;
    SquareWindow(a, i, jMin, jMax, m2, m % 2 == 1);
  }

  /** `SquareCoeff` with the window of 2·m2 or 2·m2 + 1 terms given by its halves. */
  lemma SquareWindow(a: seq<int>, i: int, jMin: int, jMax: int, m2: int, odd: bool)
    requires |a| >= 1 && 0 <= i <= 2 * (|a| - 1)
    requires jMin == Max(0, i - (|a| - 1)) && jMax == Min(i, |a| - 1)
    requires m2 >= 0 && jMax - jMin + 1 == 2 * m2 + (if odd then 1 else 0)
    ensures 0 <= jMin + m2 < |a|
    ensures 2 * ConvSum(a, a, i, jMin, jMin + m2) + (if odd then a[jMin + m2] * a[jMin + m2] else 0)
            == ConvAt(a, a, i)
  {
    var mid := jMin + m2;
    assert jMin + jMax == i;
    ConvAtWindow(a, a, i);
    ConvSumSplit(a, a, i, jMin, mid, jMax + 1);
    ConvSumSplit(a, a, i, mid, jMax + 1 - m2, jMax + 1);
    ConvSumMirror(a, i, jMax + 1 - m2, jMax + 1);
    if odd {
      assert jMax + 1 - m2 == mid + 1;
      assert i - mid == mid;
      ConvSumPeel(a, a, i, mid, mid + 1);
    } else {
      assert jMax + 1 - m2 == mid;
    }
  }

  /** Integer power with a natural exponent. */
  function Pow(x: int, n: nat): int {
    if n == 0 then 1 else x * Pow(x, n - 1)
  }

  lemma {:induction false} PowOne(n: nat)
    ensures Pow(1, n) == 1
  {
    if n > 0 {
      PowOne(n - 1);
    }
  }

  /** c·p − r = q·b, coefficient by coefficient. */
  ghost predicate QuotientWitness(q: seq<int>, b: seq<int>, c: int, p: seq<int>, r: seq<int>) {
    forall m :: c * Coeff(p, m) - Coeff(r, m) == ConvAt(q, b, m)
  }

  /** c·p − r is a multiple of b in Z[X]. */
  ghost predicate PseudoCongruent(p: seq<int>, r: seq<int>, b: seq<int>, c: int) {
    exists q :: QuotientWitness(q, b, c, p, r)
  }

  /** Coefficient-wise negation (the `neg` that `rem` applies to a divisor with leading coefficient −1). */
  function Neg(s: seq<int>): (r: seq<int>)
    ensures |r| == |s| && forall k :: Coeff(r, k) == -Coeff(s, k)
  {
    seq(|s|, k requires 0 <= k < |s| => -s[k])
  }

  /** The zero quotient: a vector of zeros times anything is 0. */
  lemma ConvAtZeroLeft(q: seq<int>, b: seq<int>, m: int)
    requires forall j :: 0 <= j < |q| ==> q[j] == 0
    ensures ConvAt(q, b, m) == 0
  {
    ConvSumZero(q, b, m, 0, m + 1);
  }

  /** Updating a quotient q to L·q + t·X^s changes q·b to L·(q·b) + t·X^s·b. */
  lemma {:induction false} ConvSumStep(q: seq<int>, q': seq<int>, b: seq<int>, L: int, t: int, s: int, m: int, hi: int)
    requires forall j :: Coeff(q', j) == L * Coeff(q, j) + (if j == s then t else 0)
    requires 0 <= s
    ensures ConvSum(q', b, m, 0, hi) == L * ConvSum(q, b, m, 0, hi) + (if s < hi then t * Coeff(b, m - s) else 0)
    decreases hi
  {
    if hi > 0 {
      ConvSumStep(q, q', b, L, t, s, m, hi - 1);
      var j := hi - 1;
      assert Coeff(q', j) * Coeff(b, m - j) == L * (Coeff(q, j) * Coeff(b, m - j)) + (if j == s then t * Coeff(b, m - s) else 0);
    }
  }

  lemma ConvAtStep(q: seq<int>, q': seq<int>, b: seq<int>, L: int, t: int, s: int, m: int)
    requires forall j :: Coeff(q', j) == L * Coeff(q, j) + (if j == s then t else 0)
    requires 0 <= s
    ensures ConvAt(q', b, m) == L * ConvAt(q, b, m) + t * Coeff(b, m - s)
  {
    ConvSumStep(q, q', b, L, t, s, m, m + 1);
  }

  /** Moving a sign from the divisor to the quotient: q·(−b) = (−q)·b. */
  lemma {:induction false} ConvSumNeg(q: seq<int>, b: seq<int>, m: int, hi: int)
    ensures ConvSum(q, Neg(b), m, 0, hi) == ConvSum(Neg(q), b, m, 0, hi)
    decreases hi
  {
    if hi > 0 {
      ConvSumNeg(q, b, m, hi - 1);
    }
  }

  /** A multiple of −b is a multiple of b. */
  lemma PseudoCongruentNeg(p: seq<int>, r: seq<int>, b: seq<int>, c: int)
    requires PseudoCongruent(p, r, Neg(b), c)
    ensures PseudoCongruent(p, r, b, c)
  {
    var q :| QuotientWitness(q, Neg(b), c, p, r);
    forall m ensures c * Coeff(p, m) - Coeff(r, m) == ConvAt(Neg(q), b, m) {
      ConvSumNeg(q, b, m, m + 1);
    }
    assert QuotientWitness(Neg(q), b, c, p, r);
  }

  /**
   * One elimination step of pseudo-division: scaling the working remainder by L and
   * subtracting t·X^s·b keeps c·p − r a multiple of b, now with multiplier L·c and
   * quotient L·q + t·X^s.
   */
  lemma QuotientStep(q: seq<int>, q': seq<int>, b: seq<int>, c: int, p: seq<int>, r: seq<int>, r': seq<int>, L: int, t: int, s: int)
    requires QuotientWitness(q, b, c, p, r)
    requires 0 <= s
    requires forall j :: Coeff(q', j) == L * Coeff(q, j) + (if j == s then t else 0)
    requires forall m :: Coeff(r', m) == L * Coeff(r, m) - t * Coeff(b, m - s)
    ensures QuotientWitness(q', b, L * c, p, r')
  {
    forall m ensures (L * c) * Coeff(p, m) - Coeff(r', m) == ConvAt(q', b, m) {
      ConvAtStep(q, q', b, L, t, s, m);
      assert c * Coeff(p, m) - Coeff(r, m) == ConvAt(q, b, m);
      assert (L * c) * Coeff(p, m) - Coeff(r', m) == L * (c * Coeff(p, m) - Coeff(r, m)) + t * Coeff(b, m - s);
    }
  }

  /** A congruence only depends on the polynomial r denotes, not on its trailing zeros. */
  lemma QuotientWitnessSameRemainder(q: seq<int>, b: seq<int>, c: int, p: seq<int>, r: seq<int>, r': seq<int>)
    requires QuotientWitness(q, b, c, p, r)
    requires SameCoeffs(r, r')
    ensures QuotientWitness(q, b, c, p, r')
  {
  }

  /** The convolution only depends on the polynomial each vector denotes. */
  lemma {:induction false} ConvSumSame(a: seq<int>, a': seq<int>, b: seq<int>, m: int, hi: int)
    requires SameCoeffs(a, a')
    ensures ConvSum(a, b, m, 0, hi) == ConvSum(a', b, m, 0, hi)
    decreases hi
  {
    if hi > 0 {
      ConvSumSame(a, a', b, m, hi - 1);
      assert Coeff(a, hi - 1) == Coeff(a', hi - 1);
    }
  }

  /** Convolution is linear in its left argument: q1·b − q2·b = (q1 − q2)·b. */
  lemma {:induction false} ConvSumSub(q1: seq<int>, q2: seq<int>, d: seq<int>, b: seq<int>, m: int, hi: int)
    requires forall j :: Coeff(d, j) == Coeff(q1, j) - Coeff(q2, j)
    ensures ConvSum(q1, b, m, 0, hi) - ConvSum(q2, b, m, 0, hi) == ConvSum(d, b, m, 0, hi)
    decreases hi
  {
    if hi > 0 {
      ConvSumSub(q1, q2, d, b, m, hi - 1);
      var j := hi - 1;
      assert Coeff(d, j) * Coeff(b, m - j) == Coeff(q1, j) * Coeff(b, m - j) - Coeff(q2, j) * Coeff(b, m - j);
    }
  }

  /** The top coefficient of s·b is the product of the top coefficients. */
  lemma TopCoefficient(s: seq<int>, b: seq<int>)
    requires |s| >= 1 && |b| >= 1
    ensures ConvAt(s, b, |s| + |b| - 2) == s[|s| - 1] * b[|b| - 1]
  {
    ConvAtWindow(s, b, |s| + |b| - 2);
  }

  /**
   * A non-zero multiple of b reaches degree at least deg b, when the leading
   * coefficient of b is non-zero: if every coefficient of d·b from deg b up is 0,
   * then d is the zero polynomial.
   */
  lemma MultipleVanishes(d: seq<int>, b: seq<int>)
    requires |b| >= 1 && b[|b| - 1] != 0
    requires forall m :: m >= |b| - 1 ==> ConvAt(d, b, m) == 0
    ensures forall j :: Coeff(d, j) == 0
  {
    if |d| >= 1 {
      var s := Stripped(d);
      var top := |s| + |b| - 2;
      ConvSumSame(d, s, b, top, top + 1);
      TopCoefficient(s, b);
      assert ConvAt(d, b, top) == 0;
      assert ConvAt(s, b, top) == ConvAt(d, b, top);
      assert s[|s| - 1] == 0;
      assert forall j :: Coeff(d, j) == Coeff(s, j);
    }
  }

  /**
   * The pseudo-remainder is unique: when b has a non-zero leading coefficient,
   * two normalized remainders of degree below deg b of the same c·p are equal.
   */
  lemma RemainderUnique(p: seq<int>, r1: seq<int>, r2: seq<int>, b: seq<int>, c: int)
    requires |b| >= 1 && b[|b| - 1] != 0
    requires IsStripped(r1) && IsStripped(r2) && |r1| <= |b| - 1 && |r2| <= |b| - 1
    requires PseudoCongruent(p, r1, b, c) && PseudoCongruent(p, r2, b, c)
    ensures r1 == r2
  {
    var q1 :| QuotientWitness(q1, b, c, p, r1);
    var q2 :| QuotientWitness(q2, b, c, p, r2);
    var d := seq(Max(|q1|, |q2|), j => Coeff(q1, j) - Coeff(q2, j));
    assert forall j :: Coeff(d, j) == Coeff(q1, j) - Coeff(q2, j);
    forall m ensures ConvAt(d, b, m) == Coeff(r2, m) - Coeff(r1, m) {
      ConvSumSub(q1, q2, d, b, m, m + 1);
    }
    MultipleVanishes(d, b);
    forall m ensures Coeff(r1, m) == Coeff(r2, m) {
      ConvAtZeroLeft(d, b, m);
    }
    StrippedUnique(r1, r2);
  }
}
