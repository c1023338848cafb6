/** Multiplication modulo a monic polynomial f: `mulmod`. */
module Modular {
  import opened Wrappers
  import opened Coefficients
  import opened PolyArith
  import opened Polynomial
  import opened Multiplication
  import opened Division

  /** The argument check of `mulmod`: both factors of degree below deg f, f non-constant and monic. */
  predicate MulModArgsOk(a: seq<int>, b: seq<int>, f: seq<int>) {
    |a| < |f| && |b| < |f| && |f| != 1 && Coeff(f, |f| - 1) == 1
  }

  /**
   * `mulmod(x, a, b, f)`: x = a·b mod f. Bad arguments panic and leave x alone;
   * otherwise x has degree below deg f and a·b − x is a multiple of f.
   */
  method MulMod(x: ZZX, a: ZZX, b: ZZX, f: ZZX) returns (status: Outcome)
    requires x != a && x != b && x != f
    modifies x
    ensures !MulModArgsOk(a.coeffs, b.coeffs, f.coeffs) ==> status == Panic("MulMod: bad args") && x.coeffs == old(x.coeffs)
    ensures MulModArgsOk(a.coeffs, b.coeffs, f.coeffs) ==>
              status == Ok && |x.coeffs| < |f.coeffs| && (IsStripped(x.coeffs) || x.coeffs == [])
              && PseudoCongruent(Product(a.coeffs, b.coeffs), x.coeffs, f.coeffs, 1)
  {
    if a.Deg() >= f.Deg() || b.Deg() >= f.Deg() || f.Deg() == 0 || f.LeadCoeff() != 1 {
      return Panic("MulMod: bad args");
    }
    var t := new ZZX();
    Mul(t, a, b);
    status := Rem(x, t, f);
    if |t.coeffs| < |f.coeffs| {
      ZeroQuotient(t.coeffs, f.coeffs);
    }
  }

  /** Anything is congruent to itself: p − p = 0·b. */
  lemma ZeroQuotient(p: seq<int>, b: seq<int>)
    ensures PseudoCongruent(p, p, b, 1)
  {
    forall m ensures 1 * Coeff(p, m) - Coeff(p, m) == ConvAt([], b, m) {
      ConvAtBeyond([], b, m);
    }
    assert QuotientWitness([], b, 1, p, p);
  }
}
