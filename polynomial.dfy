/**
 * `ZZX`, a dense polynomial with arbitrary-precision integer coefficients
 * (a partial clone of NTL's ZZX). The coefficient vector is a field that the
 * methods reassign; entry i is the coefficient of X^i. Nothing keeps the
 * vector normalized between calls: constructors take any vector, and
 * `normalize` never removes index 0, so the zero value may be `[]` or `[0]`.
 */
module Polynomial {
  import opened Wrappers
  import opened Coefficients

  function Abs(x: int): nat { if x < 0 then -x else x }

  function PowTwo(n: nat): (r: nat)
    ensures r >= 1
  {
    if n == 0 then 1 else 2 * PowTwo(n - 1)
  }

  /** The number of bits needed to write n; `significant_bits` of an integer x is BitLength(|x|). */
  function BitLength(n: nat): (r: nat)
    ensures r == 0 <==> n == 0
    ensures n > 0 ==> PowTwo(r - 1) <= n < PowTwo(r)
  {
    if n == 0 then 0 else 1 + BitLength(n / 2)
  }

  class ZZX {
    var coeffs: seq<int>

    /** `ZZX::new`: the zero polynomial, stored as the empty vector. */
    constructor ()
      ensures coeffs == []
    {
      coeffs := [];
    }

    /** `new_with_val`: a single coefficient, stored as given (a zero value gives `[0]`). */
    constructor WithVal(n: int)
      ensures coeffs == [n]
    {
      coeffs := [n];
    }

    /** `new_with_vec`: the vector as given, not normalized. */
    constructor WithVec(v: seq<int>)
      ensures coeffs == v
    {
      coeffs := v;
    }

    /** `new_with_size`: value zero; the reserved capacity is not part of the value. */
    constructor WithSize(n: nat)
      ensures coeffs == []
    {
      coeffs := [];
    }

    /**
     * `normalize`: pops zero entries from the top while the index is above 0.
     * On an empty vector `len() - 1` underflows, so the vector must be non-empty.
     */
    method Normalize()
      requires |coeffs| >= 1
      modifies this
      ensures coeffs == Stripped(old(coeffs))
    {
      var i := |coeffs| - 1;
      while i > 0 && coeffs[i] == 0
        invariant i == |coeffs| - 1 >= 0
        invariant Stripped(coeffs) == Stripped(old(coeffs))
      {
        coeffs := coeffs[..|coeffs| - 1];
        i := i - 1;
      }
    }

    /** `set_length`: `Vec::resize(len, 0)`. */
    method SetLength(len: nat)
      modifies this
      ensures coeffs == Resize(old(coeffs), len)
    {
      coeffs := Resize(coeffs, len);
    }

    /**
     * `deg`: one less than the stored length, so −1 exactly for the empty vector.
     * No coefficient lies above it, and on a normalized non-constant vector the
     * coefficient at the degree is non-zero.
     */
    function Deg(): (d: int)
      reads this
      ensures d >= -1 && (d == -1 <==> coeffs == [])
      ensures forall k: nat :: k > d ==> Coefficients.Coeff(coeffs, k) == 0
      ensures IsStripped(coeffs) && |coeffs| >= 2 ==> Coefficients.Coeff(coeffs, d) != 0
    {
      |coeffs| - 1
    }

    /** `coeff`: the stored entry, or 0 if i is not below the stored length. */
    function Coeff(i: nat): (r: int)
      reads this
      ensures r == Coefficients.Coeff(coeffs, i)
    {
      if i >= |coeffs| then 0 else coeffs[i]
    }

    /** `get_coeff`: a second copy of `coeff`; it agrees with it everywhere. */
    function GetCoeff(i: nat): (r: int)
      reads this
      ensures r == Coeff(i)
    {
      if i >= |coeffs| then 0 else coeffs[i]
    }

    /** `lead_coeff`: the top stored entry, 0 for the empty vector; non-zero on a normalized non-constant vector. */
    function LeadCoeff(): (r: int)
      reads this
      ensures r == Coefficients.Coeff(coeffs, Deg())
      ensures IsStripped(coeffs) && |coeffs| >= 2 ==> r != 0
    {
      if IsZero() then 0 else coeffs[Deg()]
    }

    /** `const_term`: entry 0, 0 for the empty vector; always the coefficient of X^0. */
    function ConstTerm(): (r: int)
      reads this
      ensures r == Coeff(0)
    {
      if IsZero() then 0 else coeffs[0]
    }

    /** `is_zero`: true exactly for the empty vector, so `[0]` is not "zero" here. */
    function IsZero(): (r: bool)
      reads this
      ensures r <==> |coeffs| == 0
      ensures r ==> forall i: nat :: Coeff(i) == 0
    {
      |coeffs| == 0
    }

    /** `is_x`: true exactly when the vector is `[0, 1]`. */
    function IsX(): (r: bool)
      reads this
      ensures r <==> coeffs == [0, 1]
    {
      Deg() == 1 && coeffs[0] == 0 && coeffs[1] == 1
    }

    /**
     * `set_coeff(i, n)`: writes n (1 for `None`) at index i, growing the vector
     * to i+1 entries first when i is past the degree, then normalizes.
     *
     * The early return at src/util.rs:99 can never fire: it needs `is_zero`,
     * and then `deg()` is −1, which cast to `usize` is the largest index, so
     * `i > m as usize` is false. On the empty vector the write therefore indexes
     * out of range; the model requires a non-empty vector.
     */
    method SetCoeff(i: nat, n: Option<int>)
      requires |coeffs| >= 1
      modifies this
      ensures coeffs == SetCoeffResult(old(coeffs), i, n.GetOr(1))
    {
      var m := Deg();
      if i > m {
        SetLength(i + 1);
      }
      coeffs := coeffs[i := n.GetOr(1)];
      Normalize();
    }

    /** `set_x`: the monomial X, built by `set_length(2)` and `set_coeff(1, 1)`. */
    static method SetX() returns (c: ZZX)
      ensures fresh(c) && c.coeffs == [0, 1]
    {
      c := new ZZX();
      c.SetLength(2);
      c.SetCoeff(1, Some(1));
    }

    /** `clear`: the empty vector. */
    method Clear()
      modifies this
      ensures coeffs == []
    {
      coeffs := [];
    }

    /** `set`: the constant polynomial 1. */
    method Set()
      modifies this
      ensures coeffs == [1]
    {
      coeffs := [1];
    }

    /** `max_size`: the largest bit length of any stored coefficient, 0 for the empty vector. */
    method MaxSize() returns (res: nat)
      ensures forall k :: 0 <= k < |coeffs| ==> BitLength(Abs(coeffs[k])) <= res
      ensures |coeffs| == 0 ==> res == 0
      ensures |coeffs| > 0 ==> exists k :: 0 <= k < |coeffs| && res == BitLength(Abs(coeffs[k]))
    {
      res := 0;
      ghost var arg := 0;
      for i := 0 to |coeffs|
        invariant forall k :: 0 <= k < i ==> BitLength(Abs(coeffs[k])) <= res
        invariant i == 0 ==> res == 0 && arg == 0
        invariant i > 0 ==> 0 <= arg < i && res == BitLength(Abs(coeffs[arg]))
      {
        var t := BitLength(Abs(coeffs[i]));
        if t > res {
          res := t;
          arg := i;
        }
      }
    }
  }
}
