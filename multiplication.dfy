/**
 * Polynomial multiplication and squaring: the `mul`/`sqr` entry points and the
 * schoolbook `PlainMul`/`PlainSqr` they dispatch to. Every output is written
 * into a separate result polynomial c, which in Rust cannot alias an operand.
 */
module Multiplication {
  import opened Wrappers
  import opened Coefficients
  import opened PolyArith
  import opened Polynomial

  /**
   * `mul(c, a, b)`: the empty vector when either operand is empty; the squaring
   * path when both vectors are equal; otherwise the schoolbook product. The
   * operand sizes are measured for the size-based strategy choice, which is
   * commented out in the source, so the product is always schoolbook.
   */
  method Mul(c: ZZX, a: ZZX, b: ZZX)
    requires c != a && c != b
    modifies c
    ensures c.coeffs == Product(a.coeffs, b.coeffs)
  {
    if a.IsZero() || b.IsZero() {
      c.SetLength(0);
      return;
    }
    if a.coeffs == b.coeffs {
      Sqr(c, a);
      return;
    }
    var maxa := a.MaxSize();
    var maxb := b.MaxSize();
    var k := Min(maxa, maxb);
    var s := Min(a.Deg(), b.Deg()) + 1;
    PlainMul(c, a, b);
  }

  /** `sqr(c, a)`: the empty vector for an empty operand, otherwise `PlainSqr`. */
  method Sqr(c: ZZX, a: ZZX)
    requires c != a
    modifies c
    ensures c.coeffs == Product(a.coeffs, a.coeffs)
  {
    if a.IsZero() {
      c.SetLength(0);
      return;
    }
    var maxa := a.MaxSize();
    var k := maxa;
    var s := a.Deg() + 1;
    PlainSqr(c, a);
  }

  /**
   * `PlainMul`: c is resized to deg a + deg b + 1 entries and entry i is set by
   * `set_coeff` to Σ a_j·b_{i−j} over j from max(0, i − deg b) to min(deg a, i).
   * The `normalize` inside each `set_coeff` may shorten c, but later writes and
   * the final `normalize` leave only the product: nothing of c's old contents survives.
   */
  method PlainMul(c: ZZX, a: ZZX, b: ZZX)
    requires c != a && c != b
    modifies c
    ensures c.coeffs == Product(a.coeffs, b.coeffs)
  {
    if a.coeffs == b.coeffs {
      PlainSqr(c, a);
      return;
    }
    var da := a.Deg();
    var db := b.Deg();
    if da < 0 || db < 0 {
      c.SetLength(0);
      return;
    }
    var d := da + db;
    var ap := a.coeffs;
    var bp := b.coeffs;
    c.SetLength(d + 1);
    ghost var c0 := c.coeffs;
    for i := 0 to d + 1
      invariant 1 <= |c.coeffs| <= d + 1
      invariant forall k :: 0 <= k < i ==> Coefficients.Coeff(c.coeffs, k) == ConvAt(ap, bp, k)
      invariant forall k :: i <= k ==> Coefficients.Coeff(c.coeffs, k) == Coefficients.Coeff(c0, k)
    {
      var accum := MulCoeff(ap, bp, i);
      SetCoeffEffect(c.coeffs, i, accum);
      c.SetCoeff(i, Some(accum));
    }
    FinishProduct(c.coeffs, ap, bp);
    c.Normalize();
  }

  /**
   * `PlainSqr`: like `PlainMul` with b = a, but entry i is computed from the lower
   * half of its window only: twice the sum of the first m/2 terms, plus the
   * square of the middle coefficient when the window has an odd number m of terms.
   */
  method PlainSqr(c: ZZX, a: ZZX)
    requires c != a
    modifies c
    ensures c.coeffs == Product(a.coeffs, a.coeffs)
  {
    var da := a.Deg();
    if da < 0 {
      c.SetLength(0);
      return;
    }
    var d := 2 * da;
    var ap := a.coeffs;
    c.SetLength(d + 1);
    ghost var c0 := c.coeffs;
    for i := 0 to d + 1
      invariant 1 <= |c.coeffs| <= d + 1
      invariant forall k :: 0 <= k < i ==> Coefficients.Coeff(c.coeffs, k) == ConvAt(ap, ap, k)
      invariant forall k :: i <= k ==> Coefficients.Coeff(c.coeffs, k) == Coefficients.Coeff(c0, k)
    {
      var accum := SqrCoeff(ap, i);
      SetCoeffEffect(c.coeffs, i, accum);
      c.SetCoeff(i, Some(accum));
    }
    FinishProduct(c.coeffs, ap, ap);
    c.Normalize();
  }

  /** The inner loop of `PlainMul`: the sum over the window max(0, i − deg b) ≤ j ≤ min(deg a, i) is coefficient i of a·b. */
  method MulCoeff(ap: seq<int>, bp: seq<int>, i: int) returns (accum: int)
    requires |ap| >= 1 && |bp| >= 1 && 0 <= i <= |ap| + |bp| - 2
    ensures accum == ConvAt(ap, bp, i)
  {
    var da := |ap| - 1;
    var db := |bp| - 1;
    var jMin := Max(0, i - db);
    var jMax := Min(da, i);
    accum := 0;
    for j := jMin to jMax + 1
      invariant accum == ConvSum(ap, bp, i, jMin, j)
    {
      accum := accum + ap[j] * bp[i - j];
    }
    ConvAtWindow(ap, bp, i);
  }

  /** The inner computation of `PlainSqr`: twice the lower half of the window, plus the middle square if the window is odd, is coefficient i of a·a. */
  method SqrCoeff(ap: seq<int>, i: int) returns (accum: int)
    requires |ap| >= 1 && 0 <= i <= 2 * (|ap| - 1)
    ensures accum == ConvAt(ap, ap, i)
  {
    var da := |ap| - 1;
    var jMin := Max(0, i - da);
    var jMax := Min(i, da);
    var m := jMax - jMin + 1;
    var m2 := m / 2;
    var jMax' := jMin + m2 - 1;
    accum := 0;
    var t := 0;
    for j := jMin to jMax' + 1
      invariant accum == ConvSum(ap, ap, i, jMin, j)
    {
      t := ap[j] * ap[i - j];
      accum := accum + t;
    }
    accum := accum * 2;
    if m % 2 == 1 {
      t := ap[jMax' + 1] * ap[jMax' + 1];
      accum := accum + t;
    }
    SquareCoeff(ap, i, jMin, jMax);
  }

  /** A vector holding every coefficient of the convolution normalizes to the product. */
  lemma FinishProduct(s: seq<int>, a: seq<int>, b: seq<int>)
    requires |a| >= 1 && |b| >= 1 && 1 <= |s| <= |a| + |b| - 1
    requires forall k :: 0 <= k < |a| + |b| - 1 ==> Coefficients.Coeff(s, k) == ConvAt(a, b, k)
    ensures Stripped(s) == Product(a, b)
  {
    var full := Conv(a, b);
    forall k ensures Coefficients.Coeff(s, k) == Coefficients.Coeff(full, k) {
      if 0 <= k < |full| {
        assert full[k] == ConvAt(a, b, k);
      }
    }
    StrippedCanonical(s, full);
  }
}
