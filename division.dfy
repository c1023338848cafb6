/**
 * Division with remainder: `rem`, `const_rem`, `pseudo_rem`, `plain_pseudo_rem`
 * and the schoolbook pseudo-division `plain_pseudo_div_rem`. Pseudo-division of
 * a by b (deg b = db, leading coefficient lc, dq = deg a − db) yields q and r
 * with lc^(dq+1)·a = q·b + r and deg r < db, without ever dividing integers.
 */
module Division {
  import opened Wrappers
  import opened Coefficients
  import opened PolyArith
  import opened Polynomial

  /**
   * The power of lc by which entry m of the working vector lags behind the scaled
   * remainder before the elimination step at index i − 1: entries below i − 1 have
   * not yet received their share of the scaling.
   */
  function Lag(lc: int, i: int, m: int): int {
    Pow(lc, if m < i - 1 then i - 1 - m else 0)
  }

  /**
   * The prescaling loop of `plain_pseudo_div_rem`, skipped when lc is 1: entry k of
   * the working copy of a is multiplied by lc^(dq−k) for k below dq.
   */
  method Prescale(ap: seq<int>, lc: int, dq: nat) returns (xp: seq<int>)
    requires dq < |ap|
    ensures |xp| == |ap|
    ensures forall k :: 0 <= k < |xp| ==> xp[k] == ap[k] * Pow(lc, if k < dq then dq - k else 0)
  {
    xp := ap;
    if lc != 1 {
      var t := lc;
      for i := dq downto 0
        invariant |xp| == |ap|
        invariant forall k :: 0 <= k < |xp| ==> xp[k] == ap[k] * Pow(lc, if i <= k < dq then dq - k else 0)
        invariant i > 0 ==> t == Pow(lc, dq - i + 1)
      {
        xp := xp[i := xp[i] * t];
        if i > 0 {
          t := t * lc;
        }
      }
    } else {
      forall k | 0 <= k < |xp| ensures xp[k] == ap[k] * Pow(lc, if k < dq then dq - k else 0) {
        PowOne(if k < dq then dq - k else 0);
      }
    }
  }

  /**
   * The inner loop of one elimination step: for j = db − 1 down to 0, entry i + j
   * is multiplied by lc (skipped when lc is 1) and t·b_j is subtracted.
   */
  method Eliminate(xp: seq<int>, bp: seq<int>, i: nat, t: int, lc: int) returns (xp': seq<int>)
    requires 1 <= |bp| && i + |bp| - 1 <= |xp|
    ensures |xp'| == |xp|
    ensures forall m :: 0 <= m < |xp| ==>
              xp'[m] == if i <= m < i + |bp| - 1 then lc * xp[m] - t * bp[m - i] else xp[m]
  {
    var db := |bp| - 1;
    var lcIsOne := lc == 1;
    xp' := xp;
    for j := db downto 0
      invariant |xp'| == |xp|
      invariant forall m :: 0 <= m < |xp| ==>
                  xp'[m] == if i + j <= m < i + db then lc * xp[m] - t * bp[m - i] else xp[m]
    {
      var s := t * bp[j];
      if !lcIsOne {
        xp' := xp'[i + j := xp'[i + j] * lc];
      }
      xp' := xp'[i + j := xp'[i + j] - s];
    }
  }

  /** The final loop, skipped when lc is 1: quotient entry k is multiplied by lc^k. */
  method ScaleQuotient(qp: seq<int>, lc: int) returns (qp': seq<int>)
    requires |qp| >= 1
    ensures |qp'| == |qp|
    ensures forall k :: 0 <= k < |qp| ==> qp'[k] == qp[k] * Pow(lc, k)
  {
    var dq := |qp| - 1;
    qp' := qp;
    if lc != 1 {
      var t := lc;
      for i := 1 to dq + 1
        invariant |qp'| == |qp|
        invariant forall k :: 0 <= k < |qp| ==> qp'[k] == if k < i then qp[k] * Pow(lc, k) else qp[k]
        invariant i <= dq ==> t == Pow(lc, i)
      {
        qp' := qp'[i := qp'[i] * t];
        if i < dq {
          t := t * lc;
        }
      }
    } else {
      forall k | 0 <= k < |qp| ensures qp'[k] == qp[k] * Pow(lc, k) {
        PowOne(k);
      }
    }
  }

  /** After the step at i the working vector again matches the scaled remainder up to the lag. */
  lemma LagStep(lc: int, i: nat, db: nat, t: int, bp: seq<int>, xp0: seq<int>, xp: seq<int>, V: seq<int>, V': seq<int>)
    requires |bp| == db + 1 && i + db < |V| && |xp0| == |xp| == |V| == |V'|
    requires forall m :: 0 <= m < i + 1 + db ==> xp0[m] == Lag(lc, i + 1, m) * V[m]
    requires forall m :: 0 <= m < |xp| ==> xp[m] == if i <= m < i + db then lc * xp0[m] - t * bp[m - i] else xp0[m]
    requires forall m :: 0 <= m < |V| ==> V'[m] == lc * V[m] - t * Coefficients.Coeff(bp, m - i)
    ensures forall m :: 0 <= m < i + db ==> xp[m] == Lag(lc, i, m) * V'[m]
  {
    forall m | 0 <= m < i + db ensures xp[m] == Lag(lc, i, m) * V'[m] {
      if m < i {
        assert xp[m] == Pow(lc, i - m) * V[m];
        assert Pow(lc, i - m) == lc * Pow(lc, i - m - 1);
        assert V'[m] == lc * V[m];
      }
    }
  }

  /** After the step at i the quotient collected so far is the stored quotient scaled by lc^(k−i). */
  lemma QuotientLag(lc: int, i: nat, dq: nat, t: int, qp: seq<int>, Q: seq<int>, Q': seq<int>)
    requires i <= dq && |qp| == |Q| == |Q'| == dq + 1 && qp[i] == t
    requires forall k :: 0 <= k < i + 1 ==> Q[k] == 0
    requires forall k :: i + 1 <= k <= dq ==> Q[k] == qp[k] * Pow(lc, k - (i + 1))
    requires forall k :: 0 <= k <= dq ==> Q'[k] == lc * Q[k] + (if k == i then t else 0)
    ensures forall k :: 0 <= k < i ==> Q'[k] == 0
    ensures forall k :: i <= k <= dq ==> Q'[k] == qp[k] * Pow(lc, k - i)
  {
    forall k | i <= k <= dq ensures Q'[k] == qp[k] * Pow(lc, k - i) {
      if k > i {
        assert Pow(lc, k - i) == lc * Pow(lc, k - (i + 1));
      }
    }
  }

  /**
   * The state in front of the elimination step at index i − 1, with the indices
   * i..dq done: V is the scaled remainder lc^(dq+1−i)·a − Q·b, zero from i + db up,
   * which the working vector xp holds up to the lag; Q is the quotient collected
   * so far, which the stored quotient qp holds up to powers of lc.
   */
  ghost predicate Reduced(ap: seq<int>, bp: seq<int>, i: int, xp: seq<int>, qp: seq<int>, V: seq<int>, Q: seq<int>)
    requires 1 <= |bp| <= |ap|
  {
    var db := |bp| - 1;
    var dq := |ap| - |bp|;
    var lc := bp[db];
    && 0 <= i <= dq + 1
    && |xp| == |ap| && |qp| == dq + 1 && |V| == |ap| && |Q| == dq + 1
    && (forall m :: 0 <= m < i + db ==> xp[m] == Lag(lc, i, m) * V[m])
    && (forall m :: i + db <= m < |V| ==> V[m] == 0)
    && (forall k :: 0 <= k < i ==> Q[k] == 0)
    && (forall k :: i <= k <= dq ==> Q[k] == qp[k] * Pow(lc, k - i))
    && QuotientWitness(Q, bp, Pow(lc, dq + 1 - i), ap, V)
  }

  /** The elimination step at index i: the top coefficient t goes to the quotient and t·X^i·b leaves the remainder. */
  lemma EliminationStep(ap: seq<int>, bp: seq<int>, i: nat, xp0: seq<int>, xp: seq<int>, qp0: seq<int>, V: seq<int>, Q: seq<int>)
      returns (V': seq<int>, Q': seq<int>)
    requires 1 <= |bp| <= |ap| && i <= |ap| - |bp|
    requires Reduced(ap, bp, i + 1, xp0, qp0, V, Q)
    requires |xp| == |xp0|
    requires forall m :: 0 <= m < |xp0| ==>
               xp[m] == if i <= m < i + |bp| - 1 then bp[|bp| - 1] * xp0[m] - xp0[i + |bp| - 1] * bp[m - i] else xp0[m]
    ensures Reduced(ap, bp, i, xp, qp0[i := xp0[i + |bp| - 1]], V', Q')
  {
    var db := |bp| - 1;
    var dq := |ap| - |bp|;
    var lc := bp[db];
    var t := xp0[i + db];
    var qp := qp0[i := t];
    assert t == V[i + db];
    V' := seq(|V|, m requires 0 <= m < |V| => lc * V[m] - t * Coefficients.Coeff(bp, m - i));
    Q' := seq(dq + 1, k requires 0 <= k <= dq => lc * Q[k] + (if k == i then t else 0));
    QuotientStep(Q, Q', bp, Pow(lc, dq - i), ap, V, V', lc, t, i);
    LagStep(lc, i, db, t, bp, xp0, xp, V, V');
    QuotientLag(lc, i, dq, t, qp, Q, Q');
  }

  /**
   * The loops of `plain_pseudo_div_rem` (prescaling the working copy xp of a,
   * eliminating the top coefficient for i = dq down to 0, and scaling the quotient
   * copy qp), on the vectors they work on. qp starts as the clone of q after
   * `set_length(dq + 1)`; every entry of it is overwritten.
   *
   * Result: qp is the quotient and the low db entries of xp the remainder, so that
   * lc^(dq+1)·a − xp[..db] = qp·b.
   */
  method PseudoDivRemLoops(ap: seq<int>, bp: seq<int>, qp0: seq<int>) returns (qp: seq<int>, xp: seq<int>)
    requires 1 <= |bp| <= |ap|
    requires |qp0| == |ap| - |bp| + 1
    ensures |qp| == |ap| - |bp| + 1 && |xp| == |ap|
    ensures QuotientWitness(qp, bp, Pow(bp[|bp| - 1], |ap| - |bp| + 1), ap, xp[..|bp| - 1])
  {
    var da := |ap| - 1;
    var db := |bp| - 1;
    var lc := bp[db];
    var dq := da - db;
    xp := Prescale(ap, lc, dq);
    qp := qp0;
    ghost var V, Q := ReducedInitially(ap, bp, xp, qp);
    for i := dq + 1 downto 0
      invariant Reduced(ap, bp, i, xp, qp, V, Q)
    {
      var t := xp[i + db];
      ghost var xp0, qp0 := xp, qp;
      qp := qp[i := t];
      xp := Eliminate(xp, bp, i, t, lc);
      V, Q := EliminationStep(ap, bp, i, xp0, xp, qp0, V, Q);
    }
    ghost var qp1 := qp;
    qp := ScaleQuotient(qp, lc);
    ReducedFinally(ap, bp, xp, qp1, V, Q, qp);
  }

  /** Before the main loop: the prescaled copy of a is the (unreduced) remainder a with quotient 0, up to the lag. */
  lemma ReducedInitially(ap: seq<int>, bp: seq<int>, xp: seq<int>, qp: seq<int>) returns (V: seq<int>, Q: seq<int>)
    requires 1 <= |bp| <= |ap| && |qp| == |ap| - |bp| + 1 && |xp| == |ap|
    requires forall k :: 0 <= k < |xp| ==>
               xp[k] == ap[k] * Pow(bp[|bp| - 1], if k < |ap| - |bp| then |ap| - |bp| - k else 0)
    ensures Reduced(ap, bp, |ap| - |bp| + 1, xp, qp, V, Q)
  {
    var lc := bp[|bp| - 1];
    V := ap;
    Q := Zeros(|ap| - |bp| + 1);
    forall m ensures Pow(lc, 0) * Coefficients.Coeff(ap, m) - Coefficients.Coeff(V, m) == ConvAt(Q, bp, m) {
      ConvAtZeroLeft(Q, bp, m);
    }
  }

  /** After the main loop and the quotient scaling: the scaled quotient and the low db entries of xp satisfy lc^(dq+1)·a − r = q·b. */
  lemma ReducedFinally(ap: seq<int>, bp: seq<int>, xp: seq<int>, qp: seq<int>, V: seq<int>, Q: seq<int>, qp': seq<int>)
    requires 1 <= |bp| <= |ap|
    requires Reduced(ap, bp, 0, xp, qp, V, Q)
    requires |qp'| == |qp| && forall k :: 0 <= k < |qp| ==> qp'[k] == qp[k] * Pow(bp[|bp| - 1], k)
    ensures QuotientWitness(qp', bp, Pow(bp[|bp| - 1], |ap| - |bp| + 1), ap, xp[..|bp| - 1])
  {
    var db := |bp| - 1;
    assert qp' == Q;
    forall m ensures Coefficients.Coeff(V, m) == Coefficients.Coeff(xp[..db], m) {
      if 0 <= m < db {
        assert Lag(bp[db], 0, m) == 1;
      }
    }
    QuotientWitnessSameRemainder(Q, bp, Pow(bp[db], |ap| - |bp| + 1), ap, V, xp[..db]);
  }

  /** The tail of `plain_pseudo_div_rem`: the remainder is the low db entries of xp, normalized. */
  method StoreRemainder(r: ZZX, xp: seq<int>, db: nat)
    requires 1 <= db <= |xp|
    modifies r
    ensures r.coeffs == Stripped(xp[..db])
  {
    r.SetLength(db);
    for i := 0 to db
      invariant |r.coeffs| == db
      invariant r.coeffs[..i] == xp[..i]
    {
      r.coeffs := r.coeffs[i := xp[i]];
    }
    assert r.coeffs == xp[..db];
    r.Normalize();
  }

  /**
   * `plain_pseudo_div_rem(q, r, a, b)` as written. Pseudo-division is carried out
   * on a clone qp of q's vector, and qp is never stored back: q keeps only its
   * `set_length(dq + 1)` resize of the old vector, while r receives the
   * pseudo-remainder: normalized, of degree below deg b, and with
   * lc^(dq+1)·a − r a multiple of b. When deg b is 0 the remainder vector has
   * length 0 and `normalize` underflows; the model requires that this is not reached.
   */
  method PlainPseudoDivRem(q: ZZX, r: ZZX, a: ZZX, b: ZZX) returns (status: Outcome)
    requires q != r && q != a && q != b && r != a && r != b
    requires |b.coeffs| == 1 ==> |a.coeffs| == 0
    modifies q, r
    ensures |b.coeffs| == 0 ==> status == Panic("pseudo_div_rem: division by zero")
                                 && q.coeffs == old(q.coeffs) && r.coeffs == old(r.coeffs)
    ensures |b.coeffs| >= 1 ==> status == Ok
    ensures 1 <= |b.coeffs| && |a.coeffs| < |b.coeffs| ==> r.coeffs == a.coeffs && q.coeffs == []
    ensures 1 <= |b.coeffs| <= |a.coeffs| ==>
              q.coeffs == Resize(old(q.coeffs), |a.coeffs| - |b.coeffs| + 1)
              && IsStripped(r.coeffs) && |r.coeffs| <= |b.coeffs| - 1
              && PseudoCongruent(a.coeffs, r.coeffs, b.coeffs, Pow(b.LeadCoeff(), |a.coeffs| - |b.coeffs| + 1))
  {
    var da := a.Deg();
    var db := b.Deg();
    if db < 0 {
      return Panic("pseudo_div_rem: division by zero");
    }
    if da < db {
      r.coeffs := a.coeffs;
      q.Clear();
      return Ok;
    }
    var dq := da - db;
    q.SetLength(dq + 1);
    var qp, xp := PseudoDivRemLoops(a.coeffs, b.coeffs, q.coeffs);
    StoreRemainder(r, xp, db);
    QuotientWitnessSameRemainder(qp, b.coeffs, Pow(b.LeadCoeff(), dq + 1), a.coeffs, xp[..db], r.coeffs);
    status := Ok;
  }

  /**
   * `plain_pseudo_div_rem` as evidently intended: the same computation, with the
   * quotient stored into q, so that lc^(dq+1)·a − r = q·b.
   */
  method PlainPseudoDivRemCorrected(q: ZZX, r: ZZX, a: ZZX, b: ZZX) returns (status: Outcome)
    requires q != r && q != a && q != b && r != a && r != b
    requires |b.coeffs| == 1 ==> |a.coeffs| == 0
    modifies q, r
    ensures |b.coeffs| == 0 ==> status == Panic("pseudo_div_rem: division by zero")
                                 && q.coeffs == old(q.coeffs) && r.coeffs == old(r.coeffs)
    ensures |b.coeffs| >= 1 ==> status == Ok
    ensures 1 <= |b.coeffs| && |a.coeffs| < |b.coeffs| ==> r.coeffs == a.coeffs && q.coeffs == []
    ensures 1 <= |b.coeffs| <= |a.coeffs| ==>
              |q.coeffs| == |a.coeffs| - |b.coeffs| + 1
              && IsStripped(r.coeffs) && |r.coeffs| <= |b.coeffs| - 1
              && QuotientWitness(q.coeffs, b.coeffs, Pow(b.LeadCoeff(), |a.coeffs| - |b.coeffs| + 1), a.coeffs, r.coeffs)
  {
    var da := a.Deg();
    var db := b.Deg();
    if db < 0 {
      return Panic("pseudo_div_rem: division by zero");
    }
    if da < db {
      r.coeffs := a.coeffs;
      q.Clear();
      return Ok;
    }
    var dq := da - db;
    q.SetLength(dq + 1);
    var qp, xp := PseudoDivRemLoops(a.coeffs, b.coeffs, q.coeffs);
    StoreRemainder(r, xp, db);
    q.coeffs := qp;
    QuotientWitnessSameRemainder(qp, b.coeffs, Pow(b.LeadCoeff(), dq + 1), a.coeffs, xp[..db], r.coeffs);
    status := Ok;
  }

  /**
   * The as-written quotient is wrong: dividing X by X + 1 from an empty q leaves
   * q = [0], and no remainder of degree 0 makes 1·X − r equal to 0·(X + 1).
   */
  lemma LostQuotient(r: seq<int>)
    requires |r| <= 1
    ensures Resize([], 1) == [0]
    ensures !QuotientWitness(Resize([], 1), [1, 1], Pow(1, 1), [0, 1], r)
  {
    ConvAtZeroLeft([0], [1, 1], 1);
    assert Pow(1, 1) * Coefficients.Coeff([0, 1], 1) - Coefficients.Coeff(r, 1) != ConvAt([0], [1, 1], 1);
  }

  /**
   * `plain_pseudo_rem(r, a, b)`: pseudo-division into a fresh quotient that is
   * then dropped; r receives the pseudo-remainder.
   */
  method PlainPseudoRem(r: ZZX, a: ZZX, b: ZZX) returns (status: Outcome)
    requires r != a && r != b
    requires |b.coeffs| == 1 ==> |a.coeffs| == 0
    modifies r
    ensures |b.coeffs| == 0 ==> status == Panic("pseudo_div_rem: division by zero") && r.coeffs == old(r.coeffs)
    ensures |b.coeffs| >= 1 ==> status == Ok
    ensures 1 <= |b.coeffs| && |a.coeffs| < |b.coeffs| ==> r.coeffs == a.coeffs
    ensures 1 <= |b.coeffs| <= |a.coeffs| ==>
              IsStripped(r.coeffs) && |r.coeffs| <= |b.coeffs| - 1
              && PseudoCongruent(a.coeffs, r.coeffs, b.coeffs, Pow(b.LeadCoeff(), |a.coeffs| - |b.coeffs| + 1))
  {
    var q := new ZZX();
    status := PlainPseudoDivRemCorrected(q, r, a, b);
  }

  /** `pseudo_rem`: forwards to `plain_pseudo_rem`. */
  method PseudoRem(r: ZZX, a: ZZX, b: ZZX) returns (status: Outcome)
    requires r != a && r != b
    requires |b.coeffs| == 1 ==> |a.coeffs| == 0
    modifies r
    ensures |b.coeffs| == 0 ==> status == Panic("pseudo_div_rem: division by zero") && r.coeffs == old(r.coeffs)
    ensures |b.coeffs| >= 1 ==> status == Ok
    ensures 1 <= |b.coeffs| && |a.coeffs| < |b.coeffs| ==> r.coeffs == a.coeffs
    ensures 1 <= |b.coeffs| <= |a.coeffs| ==>
              IsStripped(r.coeffs) && |r.coeffs| <= |b.coeffs| - 1
              && PseudoCongruent(a.coeffs, r.coeffs, b.coeffs, Pow(b.LeadCoeff(), |a.coeffs| - |b.coeffs| + 1))
  {
    status := PlainPseudoRem(r, a, b);
  }

  /** `const_rem(r, a, b)`: a zero divisor panics; otherwise the remainder is the vector [0]. */
  method ConstRem(r: ZZX, a: ZZX, b: int) returns (status: Outcome)
    requires r != a
    modifies r
    ensures b == 0 ==> status == Panic("const_rem: division by zero") && r.coeffs == old(r.coeffs)
    ensures b != 0 ==> status == Ok && r.coeffs == [0]
  {
    if b == 0 {
      return Panic("const_rem: division by zero");
    }
    r.coeffs := [0];
    status := Ok;
  }

  /**
   * `rem(r, a, b)`: a zero divisor panics; a dividend of lower degree is its own
   * remainder; a constant divisor goes to `const_rem`; a divisor with leading
   * coefficient 1, or −1 after negation, goes to `pseudo_rem`, where the multiplier
   * lc^(dq+1) is 1, so a − r is a multiple of b. The remaining branch needs exact
   * division and is not part of this model: the requires excludes it.
   */
  method Rem(r: ZZX, a: ZZX, b: ZZX) returns (status: Outcome)
    requires r != a && r != b
    requires 2 <= |b.coeffs| <= |a.coeffs| ==> b.LeadCoeff() == 1 || b.LeadCoeff() == -1
    modifies r
    ensures |b.coeffs| == 0 ==> status == Panic("rem: division by zero") && r.coeffs == old(r.coeffs)
    ensures 1 <= |b.coeffs| && |a.coeffs| < |b.coeffs| ==> status == Ok && r.coeffs == a.coeffs
    ensures 1 == |b.coeffs| <= |a.coeffs| && b.coeffs[0] == 0 ==>
              status == Panic("const_rem: division by zero") && r.coeffs == old(r.coeffs)
    ensures 1 == |b.coeffs| <= |a.coeffs| && b.coeffs[0] != 0 ==> status == Ok && r.coeffs == [0]
    ensures 2 <= |b.coeffs| <= |a.coeffs| ==>
              status == Ok && IsStripped(r.coeffs) && |r.coeffs| <= |b.coeffs| - 1
              && PseudoCongruent(a.coeffs, r.coeffs, b.coeffs, 1)
  {
    var da := a.Deg();
    var db := b.Deg();
    if db < 0 {
      return Panic("rem: division by zero");
    }
    if da < db {
      r.coeffs := a.coeffs;
      status := Ok;
    } else if db == 0 {
      status := ConstRem(r, a, b.ConstTerm());
    } else if b.LeadCoeff() == 1 {
      status := PseudoRem(r, a, b);
      PowOne(da - db + 1);
    } else if b.LeadCoeff() == -1 {
      var b1 := new ZZX.WithVec(Neg(b.coeffs));
      status := PseudoRem(r, a, b1);
      PowOne(da - db + 1);
      PseudoCongruentNeg(a.coeffs, r.coeffs, b.coeffs, 1);
    } else {
      assert false;
    }
  }

  /**
   * The remainder `rem` leaves for a divisor with leading coefficient ±1 is the
   * only normalized polynomial of degree below deg b that differs from a by a
   * multiple of b.
   */
  lemma RemUnique(a: seq<int>, b: seq<int>, r1: seq<int>, r2: seq<int>)
    requires |b| >= 2 && (b[|b| - 1] == 1 || b[|b| - 1] == -1)
    requires IsStripped(r1) && |r1| <= |b| - 1 && PseudoCongruent(a, r1, b, 1)
    requires IsStripped(r2) && |r2| <= |b| - 1 && PseudoCongruent(a, r2, b, 1)
    ensures r1 == r2
  {
    RemainderUnique(a, r1, r2, b, 1);
  }
}
