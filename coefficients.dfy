/**
 * Coefficient vectors of dense integer polynomials, as values.
 *
 * A `ZZX` stores a vector whose entry i is the coefficient of X^i. This module
 * gives the value-level meaning of the vector operations the class performs in
 * place: reading a coefficient, `Vec::resize`, `normalize` and `set_coeff`.
 */
module Coefficients {

  function Max(a: int, b: int): int { if a >= b then a else b }

  function Min(a: int, b: int): int { if a <= b then a else b }

  /** Coefficient of X^i: the stored entry, and 0 at or beyond the stored length (or below 0). */
  function Coeff(s: seq<int>, i: int): int {
    if 0 <= i < |s| then s[i] else 0
  }

  /** Two vectors that denote the same polynomial (trailing zeros do not matter). */
  ghost predicate SameCoeffs(s: seq<int>, t: seq<int>) {
    forall k :: Coeff(s, k) == Coeff(t, k)
  }

  function Zeros(n: nat): (r: seq<int>)
    ensures |r| == n && forall k :: 0 <= k < n ==> r[k] == 0
  {
    seq(n, _ => 0)
  }

  /** `Vec::resize(n, 0)`: keeps the first n entries, pads with zeros. */
  function Resize(s: seq<int>, n: nat): (r: seq<int>)
    ensures |r| == n
    ensures forall k :: 0 <= k < n ==> r[k] == Coeff(s, k)
  {
    if n <= |s| then s[..n] else s + Zeros(n - |s|)
  }

  /** The shape `normalize` leaves: at least one entry, and a non-zero top entry unless it is the only one. */
  predicate IsStripped(s: seq<int>) {
    |s| >= 1 && (|s| == 1 || s[|s| - 1] != 0)
  }

  /**
   * What `normalize` leaves of a non-empty vector: trailing zeros removed,
   * stopping at index 0, so a zero polynomial ends as `[0]`.
   */
  function Stripped(s: seq<int>): (r: seq<int>)
    requires |s| >= 1
    ensures IsStripped(r)
    ensures |r| <= |s| && r == s[..|r|]
    ensures forall k :: Coeff(r, k) == Coeff(s, k)
    decreases |s|
  {
    if |s| > 1 && s[|s| - 1] == 0 then Stripped(s[..|s| - 1]) else s
  }

  /** A stripped vector is determined by the polynomial it denotes. */
  lemma StrippedUnique(s: seq<int>, t: seq<int>)
    requires IsStripped(s) && IsStripped(t)
    requires SameCoeffs(s, t)
    ensures s == t
  {
    // the top entry of each is non-zero or the only one, so the other cannot be shorter
    assert Coeff(s, |t| - 1) == Coeff(t, |t| - 1);
    assert Coeff(s, |s| - 1) == Coeff(t, |s| - 1);
    assert |s| == |t|;
    forall k | 0 <= k < |s| ensures s[k] == t[k] {
      assert Coeff(s, k) == Coeff(t, k);
    }
  }

  /** Normalizing two vectors that denote the same polynomial gives the same vector. */
  lemma StrippedCanonical(s: seq<int>, t: seq<int>)
    requires |s| >= 1 && |t| >= 1
    requires SameCoeffs(s, t)
    ensures Stripped(s) == Stripped(t)
  {
    StrippedUnique(Stripped(s), Stripped(t));
  }

  /** `normalize` is idempotent: a normalized vector, in particular a normalized result, is left as it is. */
  lemma StrippedIdempotent(s: seq<int>)
    requires |s| >= 1
    ensures IsStripped(s) ==> Stripped(s) == s
    ensures Stripped(Stripped(s)) == Stripped(s)
  {
  }

  /** The vector `set_coeff(i, v)` leaves on a non-empty vector s: grow to i+1 if needed, write, normalize. */
  function SetCoeffResult(s: seq<int>, i: nat, v: int): seq<int>
    requires |s| >= 1
  {
    Stripped((if i >= |s| then Resize(s, i + 1) else s)[i := v])
  }

  /**
   * After `set_coeff(i, v)` the polynomial has coefficient v at i and every
   * other coefficient unchanged; the vector is normalized, and it has grown to
   * exactly i+1 entries when i was beyond the degree and v is not zero.
   */
  lemma SetCoeffEffect(s: seq<int>, i: nat, v: int)
    requires |s| >= 1
    ensures IsStripped(SetCoeffResult(s, i, v))
    ensures forall k :: Coeff(SetCoeffResult(s, i, v), k) == if k == i then v else Coeff(s, k)
    ensures |SetCoeffResult(s, i, v)| <= Max(|s|, i + 1)
    ensures i >= |s| && v != 0 ==> |SetCoeffResult(s, i, v)| == i + 1
  {
    var g := (if i >= |s| then Resize(s, i + 1) else s)[i := v];
    var r := Stripped(g);
    forall k ensures Coeff(r, k) == if k == i then v else Coeff(s, k) {
      assert Coeff(r, k) == Coeff(g, k);
    }
    if i >= |s| && v != 0 {
      assert Coeff(r, i) == v;
    }
  }
}
