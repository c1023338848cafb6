/**
 * Truncation, shifts and the formal derivative: `trunc` (a mod X^m),
 * `right_shift` (a / X^n), `left_shift` (a·X^n) and `diff`, each a private
 * version writing into a result polynomial x and a public one returning a
 * fresh polynomial. Shift amounts are `i64`; a negative amount shifts the
 * other way.
 */
module Shifts {
  import opened Coefficients
  import opened Polynomial

  const I64Min: int := -0x8000_0000_0000_0000
  const I64Max: int := 0x7fff_ffff_ffff_ffff

  /** a mod X^m: the coefficients below m, normalized. */
  function Truncated(a: seq<int>, m: nat): (r: seq<int>)
    requires m >= 1 && |a| >= 1
    ensures IsStripped(r)
    ensures forall k :: Coeff(r, k) == if k < m then Coeff(a, k) else 0
  {
    Stripped(a[..Min(m, |a|)])
  }

  /**
   * a / X^n for any shift amount: coefficient k of the result is coefficient k + n
   * of a, for every k >= 0; the vector is empty when nothing is left, normalized
   * otherwise.
   */
  function ShiftRight(a: seq<int>, n: int): (r: seq<int>)
    ensures |a| == 0 || n >= |a| ==> r == []
    ensures |a| >= 1 && n < |a| ==> IsStripped(r)
    ensures forall k :: 0 <= k ==> Coeff(r, k) == Coeff(a, k + n)
  {
    if |a| == 0 then []
    else if n < 0 then Stripped(Zeros(-n) + a)
    else if |a| - 1 < n then []
    else Stripped(a[n..])
  }

  /**
   * What `_right_shift` leaves, for n from 0 to deg a: the copy loop stops one entry
   * short, so the top coefficient of a is lost and the entry x held at index
   * deg a − n before the call stays there instead.
   */
  function RightShiftAsWritten(xOld: seq<int>, a: seq<int>, n: int): (r: seq<int>)
    ensures |a| == 0 || n >= |a| ==> r == []
    ensures |a| >= 1 && n < |a| ==> IsStripped(r)
    ensures 0 <= n < |a| ==>
              forall k :: 0 <= k ==> Coeff(r, k) == if k == |a| - 1 - n then Coeff(xOld, k) else Coeff(a, k + n)
  {
    if |a| == 0 then []
    else if n < 0 then ShiftRight(a, n)
    else if |a| - 1 < n then []
    else Stripped(a[n..|a| - 1] + [Coeff(xOld, |a| - 1 - n)])
  }

  /**
   * What `_left_shift` leaves: a·X^n for n >= 0, and for a negative n the
   * as-written right shift by −n that it calls.
   */
  function LeftShiftAsWritten(xOld: seq<int>, a: seq<int>, n: int): (r: seq<int>)
    ensures n >= 0 ==> r == ShiftRight(a, -n)
    ensures n < 0 ==> r == RightShiftAsWritten(xOld, a, -n)
  {
    if n < 0 then RightShiftAsWritten(xOld, a, -n) else ShiftRight(a, -n)
  }

  /** The formal derivative: coefficient k is (k + 1)·a_{k+1}; a constant has the empty derivative. */
  function Derivative(a: seq<int>): (r: seq<int>)
    ensures |a| <= 1 ==> r == []
    ensures |a| >= 2 ==> IsStripped(r) && |r| <= |a| - 1
    ensures forall k :: 0 <= k ==> Coeff(r, k) == (k + 1) * Coeff(a, k + 1)
  {
    if |a| <= 1 then []
    else
      var d := seq(|a| - 1, i requires 0 <= i < |a| - 1 => a[i + 1] * (i + 1));
      assert forall k :: 0 <= k ==> Coeff(d, k) == (k + 1) * Coeff(a, k + 1);
      Stripped(d)
  }

  /**
   * `_trunc(x, a, m)`: x holds the first min(m, |a|) entries of a, normalized.
   * With m = 0 or an empty a that vector is empty and `normalize` underflows,
   * so the model requires both to be positive.
   */
  method TruncInto(x: ZZX, a: ZZX, m: nat)
    requires x != a
    requires m >= 1 && |a.coeffs| >= 1
    modifies x
    ensures x.coeffs == Truncated(a.coeffs, m)
  {
    var n := Min(m, |a.coeffs|);
    x.SetLength(n);
    for i := 0 to n
      invariant |x.coeffs| == n
      invariant x.coeffs[..i] == a.coeffs[..i]
    {
      x.coeffs := x.coeffs[i := a.coeffs[i]];
    }
    assert x.coeffs == a.coeffs[..n];
    x.Normalize();
  }

  /** `trunc(a, m)`: `_trunc` into a fresh polynomial. */
  method Trunc(a: ZZX, m: nat) returns (x: ZZX)
    requires m >= 1 && |a.coeffs| >= 1
    ensures fresh(x) && x.coeffs == Truncated(a.coeffs, m)
  {
    x := new ZZX();
    TruncInto(x, a, m);
  }

  /**
   * `_right_shift(x, a, n)` as written: an empty a or n > deg a gives the empty
   * vector, a negative n is a left shift by −n (which overflows for the least
   * `i64` unless a is empty), and otherwise x is resized to |a| − n entries of which only the
   * first deg a − n are copied from a.
   */
  method RightShiftInto(x: ZZX, a: ZZX, n: int)
    requires x != a
    requires |a.coeffs| >= 1 ==> I64Min < n
    requires n <= I64Max
    modifies x
    ensures x.coeffs == RightShiftAsWritten(old(x.coeffs), a.coeffs, n)
    decreases if n < 0 then 1 else 0
  {
    if a.IsZero() {
      x.Clear();
      return;
    }
    if n < 0 {
      LeftShiftInto(x, a, -n);
      return;
    }
    var da := a.Deg();
    if da < n {
      x.Clear();
      return;
    }
    ghost var xOld := x.coeffs;
    x.SetLength(|a.coeffs| - n);
    ghost var x0 := x.coeffs;
    for i := 0 to da - n
      invariant |x.coeffs| == |a.coeffs| - n
      invariant forall k :: 0 <= k < |x.coeffs| ==> x.coeffs[k] == if k < i then a.coeffs[k + n] else x0[k]
    {
      x.coeffs := x.coeffs[i := a.coeffs[i + n]];
    }
    ghost var r := RightShiftAsWritten(xOld, a.coeffs, n);
    assert forall k :: Coeff(x.coeffs, k) == Coeff(r, k);
    x.Normalize();
    StrippedUnique(x.coeffs, r);
  }

  /**
   * `_right_shift` as evidently intended: the copy loop runs up to and including
   * deg a − n. A negative n goes to `_left_shift`, which is right for the
   * positive amount it receives.
   */
  method RightShiftIntoCorrected(x: ZZX, a: ZZX, n: int)
    requires x != a
    requires |a.coeffs| >= 1 ==> I64Min < n
    requires n <= I64Max
    modifies x
    ensures x.coeffs == ShiftRight(a.coeffs, n)
    decreases if n < 0 then 1 else 0
  {
    if a.IsZero() {
      x.Clear();
      return;
    }
    if n < 0 {
      LeftShiftInto(x, a, -n);
      return;
    }
    var da := a.Deg();
    if da < n {
      x.Clear();
      return;
    }
    x.SetLength(|a.coeffs| - n);
    for i := 0 to da - n + 1
      invariant |x.coeffs| == |a.coeffs| - n
      invariant forall k :: 0 <= k < i ==> x.coeffs[k] == a.coeffs[k + n]
    {
      x.coeffs := x.coeffs[i := a.coeffs[i + n]];
    }
    ghost var r := ShiftRight(a.coeffs, n);
    assert forall k :: Coeff(x.coeffs, k) == Coeff(r, k);
    x.Normalize();
    StrippedUnique(x.coeffs, r);
  }

  /**
   * `_left_shift(x, a, n)`: an empty a gives the empty vector, a negative n is
   * the as-written right shift by −n, and otherwise x is n zeros followed by a,
   * normalized.
   */
  method LeftShiftInto(x: ZZX, a: ZZX, n: int)
    requires x != a
    requires |a.coeffs| >= 1 ==> I64Min < n
    requires n <= I64Max
    modifies x
    ensures x.coeffs == LeftShiftAsWritten(old(x.coeffs), a.coeffs, n)
    decreases if n < 0 then 1 else 0
  {
    if a.IsZero() {
      x.Clear();
      return;
    }
    if n < 0 {
      RightShiftInto(x, a, -n);
      return;
    }
    var m := |a.coeffs|;
    x.SetLength(m + n);
    ghost var x0 := x.coeffs;
    for i := m downto 0
      invariant |x.coeffs| == m + n
      invariant forall k :: 0 <= k < m + n ==> x.coeffs[k] == if i + n <= k then a.coeffs[k - n] else x0[k]
    {
      x.coeffs := x.coeffs[i + n := a.coeffs[i]];
    }
    for i := 0 to n
      invariant |x.coeffs| == m + n
      invariant forall k :: 0 <= k < m + n ==> x.coeffs[k] == if k < i then 0 else if n <= k then a.coeffs[k - n] else x0[k]
    {
      x.coeffs := x.coeffs[i := 0];
    }
    ghost var r := ShiftRight(a.coeffs, -n);
    assert forall k :: Coeff(x.coeffs, k) == Coeff(r, k);
    x.Normalize();
    StrippedUnique(x.coeffs, r);
  }

  /** `right_shift(a, n)` as written: `_right_shift` into a fresh, empty polynomial. */
  method RightShift(a: ZZX, n: int) returns (x: ZZX)
    requires |a.coeffs| >= 1 ==> I64Min < n
    requires n <= I64Max
    ensures fresh(x) && x.coeffs == RightShiftAsWritten([], a.coeffs, n)
  {
    x := new ZZX();
    RightShiftInto(x, a, n);
  }

  /** `left_shift(a, n)` as written: `_left_shift` into a fresh, empty polynomial. */
  method LeftShift(a: ZZX, n: int) returns (x: ZZX)
    requires |a.coeffs| >= 1 ==> I64Min < n
    requires n <= I64Max
    ensures fresh(x) && x.coeffs == LeftShiftAsWritten([], a.coeffs, n)
  {
    x := new ZZX();
    LeftShiftInto(x, a, n);
  }

  /** `right_shift(a, n)` as evidently intended: a / X^n, through the corrected `_right_shift`. */
  method RightShiftCorrected(a: ZZX, n: int) returns (x: ZZX)
    requires |a.coeffs| >= 1 ==> I64Min < n
    requires n <= I64Max
    ensures fresh(x) && x.coeffs == ShiftRight(a.coeffs, n)
  {
    x := new ZZX();
    RightShiftIntoCorrected(x, a, n);
  }

  /**
   * `left_shift(a, n)` as evidently intended: a·X^n for either sign of n, a
   * negative n going to the corrected `_right_shift`.
   */
  method LeftShiftCorrected(a: ZZX, n: int) returns (x: ZZX)
    requires |a.coeffs| >= 1 ==> I64Min < n
    requires n <= I64Max
    ensures fresh(x) && x.coeffs == ShiftRight(a.coeffs, -n)
  {
    x := new ZZX();
    if n < 0 && !a.IsZero() {
      RightShiftIntoCorrected(x, a, -n);
    } else {
      LeftShiftInto(x, a, n);
    }
  }

  /**
   * `_diff(x, a)`: degree 0 or less gives the empty vector; otherwise entry i is
   * a_{i+1}·(i + 1), normalized.
   */
  method DiffInto(x: ZZX, a: ZZX)
    requires x != a
    modifies x
    ensures x.coeffs == Derivative(a.coeffs)
  {
    var n := a.Deg();
    if n <= 0 {
      x.Clear();
      return;
    }
    x.SetLength(n);
    for i := 0 to n
      invariant |x.coeffs| == n
      invariant forall k :: 0 <= k < i ==> x.coeffs[k] == a.coeffs[k + 1] * (k + 1)
    {
      x.coeffs := x.coeffs[i := a.coeffs[i + 1] * (i + 1)];
    }
    x.SetLength(n);
    ghost var r := Derivative(a.coeffs);
    assert forall k :: Coeff(x.coeffs, k) == Coeff(r, k);
    x.Normalize();
    StrippedUnique(x.coeffs, r);
  }

  /** `diff(a)`: `_diff` into a fresh polynomial. */
  method Diff(a: ZZX) returns (x: ZZX)
    ensures fresh(x) && x.coeffs == Derivative(a.coeffs)
  {
    x := new ZZX();
    DiffInto(x, a);
  }

  /** Truncating twice at the same bound is truncating once. */
  lemma TruncatedIdempotent(a: seq<int>, m: nat)
    requires m >= 1 && |a| >= 1
    ensures Truncated(Truncated(a, m), m) == Truncated(a, m)
  {
    StrippedUnique(Truncated(Truncated(a, m), m), Truncated(a, m));
  }

  /**
   * A right shift by n undoes a left shift by n: the coefficients come back, and
   * so does the vector itself when it is normalized with a non-zero top entry.
   */
  lemma ShiftRoundTrip(a: seq<int>, n: nat)
    ensures forall k :: 0 <= k ==> Coeff(ShiftRight(ShiftRight(a, -(n as int)), n), k) == Coeff(a, k)
    ensures IsStripped(a) && a[|a| - 1] != 0 ==> ShiftRight(ShiftRight(a, -(n as int)), n) == a
  {
    var l := ShiftRight(a, -(n as int));
    var r := ShiftRight(l, n);
    if IsStripped(a) && a[|a| - 1] != 0 {
      assert Coeff(l, n + |a| - 1) == a[|a| - 1];
      assert forall k :: Coeff(r, k) == Coeff(a, k);
      StrippedUnique(r, a);
    }
  }

  /**
   * The as-written right shift differs from a / X^n whenever the top coefficient of
   * a is non-zero and x starts empty, as in `right_shift`.
   */
  lemma RightShiftLosesTop(a: seq<int>, n: int)
    requires 0 <= n < |a| && a[|a| - 1] != 0
    ensures RightShiftAsWritten([], a, n) != ShiftRight(a, n)
  {
    var k := |a| - 1 - n;
    assert Coeff(RightShiftAsWritten([], a, n), k) == 0;
    assert Coeff(ShiftRight(a, n), k) == a[|a| - 1];
  }

  /** For example, shifting 1 + 2X right by 0 gives 1 as written, and 1 + 2X as intended. */
  lemma RightShiftExample()
    ensures RightShiftAsWritten([], [1, 2], 0) == [1]
    ensures ShiftRight([1, 2], 0) == [1, 2]
  {
    var r := RightShiftAsWritten([], [1, 2], 0);
    assert Coeff(r, 0) == 1 && Coeff(r, 1) == 0;
    assert forall k :: Coeff(r, k) == Coeff([1], k);
    StrippedUnique(r, [1]);
    var e := ShiftRight([1, 2], 0);
    assert Coeff(e, 0) == 1 && Coeff(e, 1) == 2;
    assert forall k :: Coeff(e, k) == Coeff([1, 2], k);
    StrippedUnique(e, [1, 2]);
  }

  /**
   * Through `_left_shift` the lost top coefficient shows for negative amounts too:
   * shifting 1 + 2X left by −1 gives 0 as written, and 2 as intended.
   */
  lemma LeftShiftExample()
    ensures LeftShiftAsWritten([], [1, 2], -1) == [0]
    ensures ShiftRight([1, 2], 1) == [2]
  {
    var r := RightShiftAsWritten([], [1, 2], 1);
    assert Coeff(r, 0) == 0;
    assert forall k :: Coeff(r, k) == Coeff([0], k);
    StrippedUnique(r, [0]);
    var e := ShiftRight([1, 2], 1);
    assert Coeff(e, 0) == 2;
    assert forall k :: Coeff(e, k) == Coeff([2], k);
    StrippedUnique(e, [2]);
  }

  /** The derivative of c·X^n, for n >= 1 and c != 0, is n·c·X^(n−1). */
  lemma DerivativeMonomial(c: int, n: nat)
    requires n >= 1 && c != 0
    ensures Derivative(ShiftRight([c], -(n as int))) == ShiftRight([n * c], -(n as int - 1))
  {
    var m := ShiftRight([c], -(n as int));
    var d := Derivative(m);
    var e := ShiftRight([n * c], -(n as int - 1));
    assert Coeff(m, n) == c;
    assert |m| == n + 1;
    assert n * c != 0;
    forall k ensures Coeff(d, k) == Coeff(e, k) {
      if k >= 0 {
        assert Coeff(d, k) == (k + 1) * Coeff(m, k + 1);
        assert Coeff(m, k + 1) == Coeff([c], k + 1 - n);
        assert Coeff(e, k) == Coeff([n * c], k - (n - 1));
      }
    }
    StrippedUnique(d, e);
  }
}
