/** p4Divu: Knuth's Algorithm D for a two-cell dividend and a one-cell divisor, in half-cell
    digits, and the truncating signed division built on it. */
module Division {
  import opened Cell
  import opened DoubleCell
  import opened LeadZero

  // ---- one quotient digit -----------------------------------------------------------

  /** q is the quotient digit of u * b + lo by d, and r what it leaves. */
  ghost predicate IsDigit(b: int, u: int, lo: int, d: int, q: int, r: int) {
    u * b + lo == q * d + r && 0 <= r < d
  }

  /** d is a normalized divisor with halves dh and dl, and u, lo a dividend it goes into
      with a one-digit quotient. */
  ghost predicate DigitStep(b: int, u: int, lo: int, dh: int, dl: int, d: int) {
    && 2 <= b && d == dh * b + dl
    && b <= 2 * dh && dh < b && 0 <= dl < b
    && 0 <= u < d && 0 <= lo < b
  }

  /** The estimate from the divisor's high half alone is never below the digit, and at most
      one above the base. */
  lemma FirstEstimate(b: int, u: int, lo: int, dh: int, dl: int, d: int, q: int, r: int, e: int, rest: int)
    requires DigitStep(b, u, lo, dh, dl, d) && IsDigit(b, u, lo, d, q, r)
    requires u == e * dh + rest && 0 <= rest < dh
    ensures 0 <= q < b && q <= e <= b + 1
  {
    DigitBounds(b, u, lo, d, q, r);
    EstimateNotBelow(b, u, lo, dh, dl, d, q, r, e, rest);
    Distribute2(b, 2, dh);
    assert b * dh == dh * b;
    Cancel(e, b + 2, dh);
  }

  lemma EstimateNotBelow(b: int, u: int, lo: int, dh: int, dl: int, d: int, q: int, r: int, e: int, rest: int)
    requires DigitStep(b, u, lo, dh, dl, d) && IsDigit(b, u, lo, d, q, r) && 0 <= q
    requires u == e * dh + rest && rest < dh
    ensures q <= e
  {
    // q * dh * b <= q * d <= u * b + lo < (u + 1) * b, so q * dh <= u < (e + 1) * dh
    EstimateGap(b, q * dh, lo, dh, dl, d, q, 0);
    MulMono(0, q, dl);
    Distribute2(u, 1, b);
    Cancel(q * dh, u + 1, b);
    Distribute2(e, 1, dh);
    Cancel(q, e + 1, dh);
  }

  lemma DigitBounds(b: int, u: int, lo: int, d: int, q: int, r: int)
    requires 0 < b && 0 <= u < d && 0 <= lo < b && IsDigit(b, u, lo, d, q, r)
    ensures 0 <= q < b
  {
    MulMono(0, u, b);
    assert (q + 1) * d == q * d + d;
    Cancel(0, q + 1, d);
    MulMono(u + 1, d, b);
    assert (u + 1) * b == u * b + b;
    assert d * b == b * d;
    Cancel(q, b, d);
  }

  lemma Cancel(x: int, y: int, d: int)
    requires 0 < d && x * d < y * d
    ensures x < y
  {
    MulMono(0, if y <= x then x - y else 0, d);
    assert (x - y) * d == x * d - y * d;
  }

  /** Expanding an estimate: how far e * d is from the dividend. */
  lemma EstimateGap(b: int, u: int, lo: int, dh: int, dl: int, d: int, e: int, rest: int)
    requires d == dh * b + dl && u == e * dh + rest
    ensures u * b + lo - e * d == rest * b + lo - e * dl
  {
    assert e * d == e * dh * b + e * dl by {
      assert e * (dh * b + dl) == e * (dh * b) + e * dl;
      assert e * (dh * b) == e * dh * b;
    }
    assert (e * dh + rest) * b == e * dh * b + rest * b;
  }

  /** The loop's test finds an estimate that is too large, and nothing else. */
  lemma TestDecides(b: int, u: int, lo: int, dh: int, dl: int, d: int, q: int, r: int, e: int, rest: int)
    requires DigitStep(b, u, lo, dh, dl, d) && IsDigit(b, u, lo, d, q, r)
    requires u == e * dh + rest && q <= e
    ensures e * dl > rest * b + lo <==> e > q
  {
    EstimateGap(b, u, lo, dh, dl, d, e, rest);
    // u * b + lo - e * d == r - (e - q) * d
    assert (e - q) * d == e * d - q * d;
    if e > q {
      MulMono(1, e - q, d);
    }
  }

  /** Once rest overflows a half cell, an estimate of at most b is already the digit: the
      break loses no correction. */
  lemma BreakIsExact(b: int, u: int, lo: int, dh: int, dl: int, d: int, q: int, r: int, e: int, rest: int)
    requires DigitStep(b, u, lo, dh, dl, d) && IsDigit(b, u, lo, d, q, r)
    requires u == e * dh + rest && q <= e <= b && b <= rest
    ensures e == q
  {
    MulMono(e, b, dl);
    MulMono(dl, b - 1, b);
    MulMono(b, rest, b);
    assert b * dl == dl * b;
    TestDecides(b, u, lo, dh, dl, d, q, r, e, rest);
  }

  /** The halves of a normalized divisor meet the conditions of a digit step. */
  lemma NormalizedHalves(w: Width, u: nat, lo: nat, dsor: nat)
    requires dsor < w.Base() <= 2 * dsor && u < dsor && lo < w.B()
    ensures DigitStep(w.B(), u, lo, Shr(dsor, w.HalfBits()), Low(w, dsor), dsor)
  {
    hide Shr, Low, Pow2;
    var b, dh := w.B(), Shr(dsor, w.HalfBits());
    Halves(w, dsor);
    Distribute2(2 * dh, 2, b);
    EvenBase(w);
    // b * b <= 2 * dsor < (2 * dh + 2) * b
    Cancel(b, 2 * dh + 2, b);
  }

  ghost function TrueDigit(b: int, u: int, lo: int, d: int): (digit: (int, int))
    requires 0 < d
    ensures IsDigit(b, u, lo, d, digit.0, digit.1)
  {
    ((u * b + lo) / d, (u * b + lo) % d)
  }

  /** Numbers this small are cells as they are, and have a high half just when they reach
      the half base. */
  lemma SmallCell(w: Width, x: int)
    requires 0 <= x < 2 * w.B()
    ensures x < w.Base() && Wrap(w, x) == x
    ensures Shr(x, w.HalfBits()) != 0 <==> w.B() <= x
    ensures Low(w, Shr(x, w.HalfBits())) != 0 <==> w.B() <= x
    ensures x < w.B() ==> Low(w, x) == x
  {
    hide Pow2;
    var b := w.B();
    BaseIs(w);
    MulMono(2, b, b);
    WrapUnique(w, x, x, 0);
    DivModUnique(x, b, if x < b then 0 else 1, if x < b then x else x - b);
    DivModUnique(x / b, b, 0, x / b);
  }

  /** The loop's test, computed in wrapped cells, says whether the estimate is too large. */
  lemma LoopTest(w: Width, u: nat, lo: nat, d: nat, q: int, r: int, first: nat, corrections: nat, qhat: nat, rhat: nat)
    requires d < w.Base() <= 2 * d && u < d && lo < w.B() && IsDigit(w.B(), u, lo, d, q, r)
    requires 0 <= q < w.B()
    requires Estimating(w, u, d, q, first, corrections, qhat, rhat)
    ensures Low(w, Shr(qhat, w.HalfBits())) != 0
         || Wrap(w, Low(w, qhat) * Low(w, d)) > Or(Shl(w, rhat, w.HalfBits()), lo)
         <==> qhat > q
    ensures qhat <= q ==> first == q + corrections && corrections <= 1 && qhat == q
  {
    hide Wrap, Shl, Shr, Low, Pow2, Or, IsDigit;
    var b, dh, dl := w.B(), Shr(d, w.HalfBits()), Low(w, d);
    NormalizedHalves(w, u, lo, d);
    SmallCell(w, qhat);
    SmallCell(w, rhat);
    if qhat < b {
      PartialExact(w, qhat, dl);
      HalfAndHalf(w, rhat, lo);
      TestDecides(b, u, lo, dh, dl, d, q, r, qhat, rhat);
    }
  }

  /** Putting a half cell below another one loses nothing. */
  lemma HalfAndHalf(w: Width, hi: nat, lo: nat)
    requires hi < w.Base() && lo < w.B()
    ensures Or(Shl(w, hi, w.HalfBits()), lo) == Low(w, hi) * w.B() + lo
  {
    hide Wrap, Low, Shr, Pow2;
    BaseIs(w);
    Halves(w, hi);
    OrDisjoint(Low(w, hi), lo, w.HalfBits());
  }

  /** Where the correction loop stands: the estimate is not below the digit q, and the
      corrections made so far are what separates it from the first one. */
  ghost predicate Estimating(w: Width, u: int, d: nat, q: int, first: nat, corrections: nat, qhat: nat, rhat: nat) {
    var dh := Shr(d, w.HalfBits());
    && u == qhat * dh + rhat && rhat < w.B()
    && q <= qhat && first == qhat + corrections && first <= w.B() + 1
    && (corrections == 0 || (corrections == 1 && dh <= rhat))
  }

  lemma StartEstimate(w: Width, u: nat, lo: nat, d: nat, q: int, r: int)
    requires d < w.Base() <= 2 * d && u < d && lo < w.B() && IsDigit(w.B(), u, lo, d, q, r)
    ensures 0 <= q < w.B()
    ensures
      var dh := Shr(d, w.HalfBits());
      0 < dh && Estimating(w, u, d, q, Div(u, dh), 0, Div(u, dh), Mod(u, dh))
  {
    hide Shr, Low, Pow2, IsDigit;
    var dh := Shr(d, w.HalfBits());
    NormalizedHalves(w, u, lo, d);
    DivMod(u, dh);
    hide Div, Mod;
    FirstEstimate(w.B(), u, lo, dh, Low(w, d), d, q, r, Div(u, dh), Mod(u, dh));
  }

  /** One correction of an estimate that is too large: either the estimate may still be too
      large, or the remainder has overflowed a half cell and the estimate is the digit. */
  lemma CorrectEstimate(w: Width, u: nat, lo: nat, d: nat, q: int, r: int, first: nat, corrections: nat, qhat: nat, rhat: nat)
    requires d < w.Base() <= 2 * d && u < d && lo < w.B() && IsDigit(w.B(), u, lo, d, q, r)
    requires 0 <= q < w.B()
    requires Estimating(w, u, d, q, first, corrections, qhat, rhat) && qhat > q
    ensures
      var q', r' := Wrap(w, qhat - 1), Wrap(w, rhat + Shr(d, w.HalfBits()));
      && q' == qhat - 1
      && if Shr(r', w.HalfBits()) == 0 then Estimating(w, u, d, q, first, corrections + 1, q', r')
         else q' == q && first == q' + corrections + 1 && corrections <= 1
  {
    hide Wrap, Shr, Low, Pow2, IsDigit;
    var b, dh := w.B(), Shr(d, w.HalfBits());
    NormalizedHalves(w, u, lo, d);
    Distribute2(qhat - 1, 1, dh);
    SmallCell(w, qhat - 1);
    SmallCell(w, rhat + dh);
    if b <= rhat + dh {
      BreakIsExact(b, u, lo, dh, Low(w, d), d, q, r, qhat - 1, rhat + dh);
    }
  }

  /** One digit of the quotient: the estimate from the high halves, corrected.  It starts at
      or above the digit and at most one above the base, at most two corrections happen, and
      the loop leaves the exact digit, a half cell, however it is left. */
  method QuotientDigit(w: Width, u: nat, lo: nat, dsor: nat) returns (qhat: nat, ghost first: nat, ghost corrections: nat)
    requires dsor < w.Base() <= 2 * dsor && u < dsor && lo < w.B()
    ensures qhat < w.B() && IsDigit(w.B(), u, lo, dsor, qhat, u * w.B() + lo - qhat * dsor)
    ensures first <= w.B() + 1 && first == qhat + corrections && corrections <= 2
  {
    hide Wrap, Shl, Shr, Low, Pow2, Or, Div, Mod, IsDigit, Estimating;
    var half := w.HalfBits();
    var dh, dl := Shr(dsor, half), Low(w, dsor);
    ghost var digit := TrueDigit(w.B(), u, lo, dsor);
    ghost var q, r := digit.0, digit.1;
    StartEstimate(w, u, lo, dsor, q, r);
    qhat := Div(u, dh);
    var rhat := Mod(u, dh);
    first, corrections := qhat, 0;
    ghost var broke := false;
    while Low(w, Shr(qhat, half)) != 0 || Wrap(w, Low(w, qhat) * dl) > Or(Shl(w, rhat, half), lo)
      invariant Estimating(w, u, dsor, q, first, corrections, qhat, rhat)
      invariant !broke
      decreases qhat
    {
      LoopTest(w, u, lo, dsor, q, r, first, corrections, qhat, rhat);
      CorrectEstimate(w, u, lo, dsor, q, r, first, corrections, qhat, rhat);
      qhat := Wrap(w, qhat - 1);
      rhat := Wrap(w, rhat + dh);
      corrections := corrections + 1;
      if Shr(rhat, half) != 0 {
        broke := true;
        break;
      }
    }
    if !broke {
      LoopTest(w, u, lo, dsor, q, r, first, corrections, qhat, rhat);
    }
    DigitLeaves(w.B(), u, lo, dsor, q, r);
  }

  lemma DigitLeaves(b: int, u: int, lo: int, d: int, q: int, r: int)
    requires IsDigit(b, u, lo, d, q, r)
    ensures r == u * b + lo - q * d
  {}

  // ---- the two-digit division ---------------------------------------------------------

  datatype DivResult = FloatFault | Quotient(quot: nat, rem: nat)

  /** Shifting a dividend of two cells: what leaves the low cell enters the high one. */
  lemma ScaleDouble(m: int, p: int, hi: int, lo: int, h: int, l: int)
    requires lo * p == h * m + l
    ensures (hi * p + h) * m + l == (hi * m + lo) * p
  {
    Distribute2(hi * p, h, m);
    Distribute2(hi * m, lo, p);
    Reassociate(hi, p, m);
  }

  /** Splitting a cell at its top digits before a shift that pushes exactly those out. */
  lemma PushOut(x: int, h: int, l: int, t: int, p: int)
    requires 0 < t && 0 < p && x == h * t + l && 0 <= l < t && 0 <= x < p * t
    ensures 0 <= h < p && x * p == h * (p * t) + l * p && 0 <= l * p < p * t
  {
    Distribute2(h, 1, t);
    Cancel(-1, h, t);
    Cancel(h, p, t);
    Distribute2(h * t, l, p);
    Reassociate(h, t, p);
    MulMono(0, l, p);
    MulMono(l, t - 1, p);
    Distribute2(t, -1, p);
  }

  /** The bits a left shift pushes out of a cell are what the opposite shift brings down. */
  lemma ShiftOutTop(w: Width, x: nat, s: nat)
    requires x < w.Base() && s <= w.Bits()
    ensures Shr(x, w.Bits() - s) < Pow2(s)
    ensures x * Pow2(s) == Shr(x, w.Bits() - s) * w.Base() + Shl(w, x, s)
  {
    hide Pow2, Wrap;
    BaseIs(w);
    var p, t := Pow2(s), Pow2(w.Bits() - s);
    Pow2Add(s, w.Bits() - s);
    DivMod(x, t);
    var h, l := Div(x, t), Mod(x, t);
    assert h == Shr(x, w.Bits() - s);
    hide Div, Mod, Shr;
    PushOut(x, h, l, t, p);
    WrapUnique(w, x * p, l * p, h);
  }

  /** Shifting the divisor up by its leading zeros, and the two dividend cells with it. */
  lemma NormalizeDividend(w: Width, dend0: nat, dend1: nat, dsor: nat, s: nat)
    requires dend0 < w.Base() && dend1 < dsor < w.Base() && 0 < s < w.Bits()
    requires Shl(w, dsor, s) == dsor * Pow2(s)
    ensures
      var hi, lo := Or(Shl(w, dend1, s), Shr(dend0, w.Bits() - s)), Shl(w, dend0, s);
      Double(w, lo, hi) == Double(w, dend0, dend1) * Pow2(s) && hi < Shl(w, dsor, s)
  {
    hide Pow2, Wrap, Shr, Or;
    var p := Pow2(s);
    MulMono(dend1 + 1, dsor, p);
    Distribute2(dend1, 1, p);
    MulMono(0, dend1, p);
    WrapUnique(w, dend1 * p, dend1 * p, 0);
    ShiftOutTop(w, dend0, s);
    OrDisjoint(dend1, Shr(dend0, w.Bits() - s), s);
    ScaleDouble(w.Base(), p, dend1, dend0, Shr(dend0, w.Bits() - s), Shl(w, dend0, s));
  }

  /** Multiply and subtract in wrapped cells: what the digit leaves, with nothing lost. */
  lemma MultiplySubtract(w: Width, u: nat, lo: nat, d: nat, q: nat)
    requires d < w.Base() && u < d && lo < w.B() && q < w.B()
    requires IsDigit(w.B(), u, lo, d, q, u * w.B() + lo - q * d)
    ensures Wrap(w, Or(Shl(w, u, w.HalfBits()), lo) - Wrap(w, q * d)) == u * w.B() + lo - q * d
  {
    hide Wrap, Shl, Shr, Low, Pow2, Or;
    Halves(w, u);
    HalfAndHalf(w, u, lo);
    MulMono(0, q, d);
    WrapMultiple(w, q * d);
    var k, high := q * d / w.Base(), Shr(u, w.HalfBits());
    Distribute2(k, 0 - high, w.Base());
    Distribute2(0, 0 - high, w.Base());
    assert (0 - high) * w.Base() == 0 - high * w.Base();
    WrapUnique(w, Low(w, u) * w.B() + lo - Wrap(w, q * d), u * w.B() + lo - q * d, k - high);
  }

  /** Two long-division steps as one. */
  lemma LongDivision(b: int, u: int, n1: int, n0: int, d: int, q1: int, r1: int, q0: int, r0: int)
    requires u * b + n1 == q1 * d + r1 && r1 * b + n0 == q0 * d + r0
    ensures u * (b * b) + (n1 * b + n0) == (q1 * b + q0) * d + r0
  {
    Distribute2(u * b, n1, b);
    Distribute2(q1 * d, r1, b);
    Distribute2(q1 * b, q0, d);
    Reassociate(u, b, b);
    Reassociate(q1, d, b);
  }

  /** Two digits and what they leave make the quotient and the normalized remainder. */
  lemma TwoDigits(w: Width, dend0: nat, dend1: nat, d: nat, q1: nat, r1: nat, q0: nat, r0: nat)
    requires dend0 < w.Base() && q1 < w.B() && q0 < w.B()
    requires IsDigit(w.B(), dend1, Shr(dend0, w.HalfBits()), d, q1, r1)
    requires IsDigit(w.B(), r1, Low(w, dend0), d, q0, r0)
    ensures Double(w, dend0, dend1) == Or(Shl(w, q1, w.HalfBits()), q0) * d + r0
    ensures Or(Shl(w, q1, w.HalfBits()), q0) < w.Base()
  {
    hide Wrap, Shl, Shr, Low, Pow2, Or;
    var b := w.B();
    SmallCell(w, q1);
    Halves(w, dend0);
    HalfAndHalf(w, q1, q0);
    LongDivision(b, dend1, Shr(dend0, w.HalfBits()), Low(w, dend0), d, q1, r1, q0, r0);
    MulMono(q1, b - 1, b);
    Distribute2(b, -1, b);
  }

  /** Shifting the normalized remainder back down is exact. */
  lemma Denormalize(dend: nat, dsor: nat, quot: nat, r0: nat, s: nat)
    requires dend * Pow2(s) == quot * (dsor * Pow2(s)) + r0 && r0 < dsor * Pow2(s)
    ensures dend == quot * dsor + Shr(r0, s) && Shr(r0, s) < dsor
  {
    var p := Pow2(s);
    hide Pow2;
    RemainderScaled(dend, dsor, quot, r0, p);
    DivModUnique(r0, p, dend - quot * dsor, 0);
    Cancel(dend - quot * dsor, dsor, p);
  }

  lemma RemainderScaled(dend: int, dsor: int, quot: int, r0: int, p: int)
    requires dend * p == quot * (dsor * p) + r0
    ensures r0 == (dend - quot * dsor) * p
  {
    Reassociate(quot, dsor, p);
    Distribute2(dend - quot * dsor, quot * dsor, p);
  }

  /** A digit, and what its multiplication and subtraction in wrapped cells leave. */
  method DigitAndRest(w: Width, u: nat, lo: nat, dsor: nat) returns (q: nat, rest: nat)
    requires dsor < w.Base() <= 2 * dsor && u < dsor && lo < w.B()
    ensures q < w.B() && rest < dsor && IsDigit(w.B(), u, lo, dsor, q, rest)
  {
    hide Wrap, Shl, Low, Pow2, Or, IsDigit;
    var qhat, _, _ := QuotientDigit(w, u, lo, dsor);
    q := qhat;
    MultiplySubtract(w, u, lo, dsor, q);
    DigitRange(w.B(), u, lo, dsor, q, u * w.B() + lo - q * dsor);
    rest := Wrap(w, Or(Shl(w, u, w.HalfBits()), lo) - Wrap(w, q * dsor));
  }

  lemma DigitRange(b: int, u: int, lo: int, d: int, q: int, r: int)
    requires IsDigit(b, u, lo, d, q, r)
    ensures 0 <= r < d
  {}

  /** p4Divu: division by zero faults, a quotient too large for a cell is reported as the
      largest cell with an impossible remainder, and otherwise quotient and remainder are
      exact. */
  method Divu(w: Width, dividend0: nat, dividend1: nat, divisor: nat) returns (result: DivResult)
    requires dividend0 < w.Base() && dividend1 < w.Base() && divisor < w.Base()
    ensures result.FloatFault? <==> divisor == 0
    ensures 0 < divisor <= dividend1 ==> result == Quotient(w.Base() - 1, w.Base() - 1)
    ensures dividend1 < divisor ==>
      && result.Quotient? && result.quot < w.Base() && result.rem < divisor
      && Double(w, dividend0, dividend1) == result.quot * divisor + result.rem
  {
    hide Wrap, Shl, Shr, Low, Pow2, Or, IsDigit, Double;
    var dend0, dend1, dsor := dividend0, dividend1, divisor;
    if dsor == 0 {
      return FloatFault;
    }
    if dend1 >= dsor {
      return Quotient(w.Base() - 1, w.Base() - 1);
    }
    var shift := LeadZeroBits(w, dsor);
    if shift > 0 {
      dsor := Shl(w, dsor, shift);
      dend1 := Shl(w, dend1, shift);
      dend1 := Or(dend1, Shr(dend0, w.Bits() - shift));
      dend0 := Shl(w, dend0, shift);
    }
    Normalized(w, dividend0, dividend1, divisor, shift);
    Halves(w, dend0);

    var q1, uhat := DigitAndRest(w, dend1, Shr(dend0, w.HalfBits()), dsor);
    var q0, r0 := DigitAndRest(w, uhat, Low(w, dend0), dsor);
    var quot := Or(Shl(w, q1, w.HalfBits()), q0);
    var rem := Shr(r0, shift);
    TwoDigits(w, dend0, dend1, dsor, q1, uhat, q0, r0);
    Denormalize(Double(w, dividend0, dividend1), divisor, quot, r0, shift);
    result := Quotient(quot, rem);
  }

  /** The state after normalization, whether or not there was anything to shift. */
  lemma Normalized(w: Width, dend0: nat, dend1: nat, dsor: nat, s: nat)
    requires dend0 < w.Base() && dend1 < dsor < w.Base() && s == w.Bits() - BitLength(dsor)
    ensures Double(w, dend0, dend1) >= 0
    ensures
      var hi := if s > 0 then Or(Shl(w, dend1, s), Shr(dend0, w.Bits() - s)) else dend1;
      var lo := if s > 0 then Shl(w, dend0, s) else dend0;
      var d := if s > 0 then Shl(w, dsor, s) else dsor;
      && d == dsor * Pow2(s) && d < w.Base() <= 2 * d && hi < d && lo < w.Base()
      && Double(w, lo, hi) == Double(w, dend0, dend1) * Pow2(s)
  {
    Normalizes(w, dsor, s);
    hide Shl, Shr, Or, Wrap, Pow2;
    MulMono(0, dend1, w.Base());
    if s > 0 {
      NormalizeDividend(w, dend0, dend1, dsor, s);
    }
  }

  // ---- truncating signed division ----------------------------------------------------

  /** Division rounding toward zero. */
  function Truncated(x: int, y: int): int
    requires y != 0
  {
    if (x < 0) == (y < 0) then Abs(x) / Abs(y) else 0 - Abs(x) / Abs(y)
  }

  /** What division toward zero leaves is smaller than the divisor and signed as the
      dividend, and no other quotient leaves such a remainder. */
  lemma TruncatedUnique(x: int, y: int, q: int)
    requires y != 0
    ensures q == Truncated(x, y) <==> Abs(x - q * y) < Abs(y) && (x - q * y == 0 || (x - q * y < 0) == (x < 0))
  {
    var s := if (x < 0) == (y < 0) then q else 0 - q;
    assert s * Abs(y) == if x < 0 then 0 - q * y else q * y;
    QuotientUnique(Abs(x), Abs(y), s);
  }

  lemma QuotientUnique(x: nat, y: nat, q: int)
    requires y != 0
    ensures q == x / y <==> 0 <= x - q * y < y
  {
    DivMod(x, y);
    if 0 <= x - q * y < y {
      DivModUnique(x, y, q, x - q * y);
    }
  }

  /** How far the quotient's cell reading can be from the true quotient. */
  lemma QuotientReading(w: Width, x: int, y: int, quot: nat)
    requires y != 0 && quot == Wrap(w, Truncated(x, y))
    ensures Signed(w, quot) == Truncated(x, y) <==> IsSigned(w, Truncated(x, y))
    ensures Signed(w, quot) * y + (x - Truncated(x, y) * y) == x <==> IsSigned(w, Truncated(x, y))
  {
    var t := Truncated(x, y);
    hide Truncated;
    if IsSigned(w, t) {
      WrapUnique(w, t, if t < 0 then t + w.Base() else t, if t < 0 then -1 else 0);
    }
    hide Signed, IsSigned;
    var g := Signed(w, quot) - t;
    Distribute2(g, t, y);
    assert g != 0 ==> g * y != 0;
  }

  /** What a caller can check beforehand: the quotient fits a signed cell exactly when the
      dividend's magnitude is below half the base times the divisor's, one more than half if
      the signs differ. */
  lemma QuotientFits(w: Width, x: int, y: int)
    requires y != 0
    ensures IsSigned(w, Truncated(x, y)) <==> Abs(x) < Allowance(w, x, y) * Abs(y)
  {
    var ax, ay, c, q := Abs(x), Abs(y), Allowance(w, x, y), Abs(x) / Abs(y);
    DivMod(ax, ay);
    HalfBase(w);
    if q < c {
      MulMono(q + 1, c, ay);
      Distribute2(q, 1, ay);
    } else {
      MulMono(c, q, ay);
    }
  }

  function Allowance(w: Width, x: int, y: int): int {
    if (x < 0) == (y < 0) then w.Base() / 2 else w.Base() / 2 + 1
  }

  lemma HalfBase(w: Width)
    ensures w.Base() == 2 * (w.Base() / 2) && w.Base() / 2 >= 2
  {
    EvenBase(w);
  }

  /** The one single-cell division whose quotient does not fit: the minimum integer by -1,
      which gives the minimum integer again. */
  lemma MinimumByMinusOne(w: Width)
    ensures
      var least := 0 - w.Base() / 2;
      && IsSigned(w, least) && !IsSigned(w, Truncated(least, -1))
      && Signed(w, Wrap(w, Truncated(least, -1))) == least
      && Wrap(w, Truncated(least, -1)) == w.Base() / 2
    ensures forall x, y :: IsSigned(w, x) && IsSigned(w, y) && y != 0 && !IsSigned(w, Truncated(x, y)) ==>
      x == 0 - w.Base() / 2 && y == -1
  {
    HalfBase(w);
    var half := w.Base() / 2;
    assert Truncated(0 - half, -1) == half;
    WrapUnique(w, half, half, 0);
    forall x, y | IsSigned(w, x) && IsSigned(w, y) && y != 0 && !IsSigned(w, Truncated(x, y)) ensures x == 0 - half && y == -1 {
      QuotientFits(w, x, y);
      MulMono(1, Abs(y), Allowance(w, x, y));
      if Abs(y) >= 2 {
        MulMono(2, Abs(y), Allowance(w, x, y));
      }
    }
  }

  /** p4Divs: with |dividend|'s high cell below |divisor| the quotient is the truncated one
      reduced to a cell and the remainder is exact; otherwise the unsigned overflow values
      come back with their signs applied. */
  method Divs(w: Width, dividend0: nat, dividend1: nat, divisor: nat) returns (result: DivResult)
    requires dividend0 < w.Base() && dividend1 < w.Base() && divisor < w.Base()
    ensures result.FloatFault? <==> divisor == 0
    ensures divisor != 0 ==> result.quot < w.Base() && result.rem < w.Base()
    ensures
      var x, y := SignedDouble(w, dividend0, dividend1), Signed(w, divisor);
      y != 0 ==>
        if Abs(x) / w.Base() < Abs(y) then
          && result.quot == Wrap(w, Truncated(x, y))
          && Signed(w, result.rem) == x - Truncated(x, y) * y
        else
          && result.quot == (if (x < 0) != (y < 0) then 1 else w.Base() - 1)
          && result.rem == (if x < 0 then 1 else w.Base() - 1)
  {
    hide Wrap, Signed, Double, SignedDouble, Magnitude, NegateLow, NegateHigh, Truncated, Abs;
    var dend0, dend1 := dividend0, dividend1;
    var negRem := Signed(w, dend1) < 0;
    // the sign bit of dend1 ^ dsor
    var sign := (Signed(w, dend1) < 0) != (Signed(w, divisor) < 0);
    NegateSigned(w, dend0, dend1);
    if Signed(w, dend1) < 0 {
      dend0, dend1 := NegateLow(w, dend0), NegateHigh(w, dend0, dend1);
    }
    MagnitudeIsAbs(w, divisor);
    result := Divu(w, dend0, dend1, Magnitude(w, divisor));
    SignedZero(w, divisor);
    if result.FloatFault? {
      return;
    }
    ghost var q, r := result.quot, result.rem;
    DividendMagnitude(w, dividend0, dividend1, dend0, dend1);
    var quot, rem := result.quot, result.rem;
    if sign {
      quot := Wrap(w, 0 - quot as int);
    }
    if negRem {
      rem := Wrap(w, 0 - rem as int);
    }
    result := Quotient(quot, rem);
    SignedResult(w, SignedDouble(w, dividend0, dividend1), Signed(w, divisor), Magnitude(w, divisor), dend0, dend1, q, r);
  }

  lemma SignedZero(w: Width, u: nat)
    requires u < w.Base()
    ensures u == 0 <==> Signed(w, u) == 0
    ensures Magnitude(w, u) == 0 <==> u == 0
  {
    MagnitudeIsAbs(w, u);
  }

  lemma DividendMagnitude(w: Width, lo: nat, hi: nat, lo': nat, hi': nat)
    requires lo < w.Base() && hi < w.Base() && lo' < w.Base() && hi' < w.Base()
    requires Signed(w, hi) < 0 ==> Double(w, lo', hi') == 0 - SignedDouble(w, lo, hi)
    requires Signed(w, hi) >= 0 ==> lo' == lo && hi' == hi
    ensures Double(w, lo', hi') == Abs(SignedDouble(w, lo, hi))
    ensures Abs(SignedDouble(w, lo, hi)) / w.Base() == hi'
    ensures SignedDouble(w, lo, hi) < 0 <==> Signed(w, hi) < 0
  {
    SignedDoubleReading(w, lo, hi);
    DivModUnique(Double(w, lo', hi'), w.Base(), hi', lo');
  }

  /** Applying the signs to the unsigned quotient and remainder. */
  lemma SignedResult(w: Width, x: int, y: int, mag: nat, dend0: nat, dend1: nat, q: nat, r: nat)
    requires y != 0 && mag == Abs(y) && 2 * mag <= w.Base()
    requires q < w.Base() && r < w.Base()
    requires Double(w, dend0, dend1) == Abs(x)
    requires mag <= dend1 ==> q == w.Base() - 1 && r == w.Base() - 1
    requires dend1 < mag ==> r < mag && Abs(x) == q * mag + r
    ensures
      var quot := if (x < 0) != (y < 0) then Wrap(w, 0 - q as int) else q;
      var rem := if x < 0 then Wrap(w, 0 - r as int) else r;
      if dend1 < mag then quot == Wrap(w, Truncated(x, y)) && Signed(w, rem) == x - Truncated(x, y) * y
      else quot == (if (x < 0) != (y < 0) then 1 else w.Base() - 1) && rem == (if x < 0 then 1 else w.Base() - 1)
  {
    var m := w.Base();
    if dend1 < mag {
      DivModUnique(Abs(x), mag, q, r);
      assert Truncated(x, y) == if (x < 0) == (y < 0) then q else 0 - q;
      SignedQuotientTimes(x, y, q, mag, r);
      WrapUnique(w, q, q, 0);
      WrapUnique(w, 0 - r as int, if r == 0 then 0 else m - r, if r == 0 then 0 else -1);
    } else {
      WrapUnique(w, 0 - q as int, 1, -1);
    }
  }

  lemma SignedQuotientTimes(x: int, y: int, q: nat, mag: nat, r: nat)
    requires mag == Abs(y) && Abs(x) == q * mag + r
    ensures x - (if (x < 0) == (y < 0) then q else 0 - q as int) * y == if x < 0 then 0 - r as int else r
  {
    assert q * (0 - y) == 0 - q * y;
    assert (0 - q as int) * y == 0 - q * y;
  }
}
