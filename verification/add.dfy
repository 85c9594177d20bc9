/**
 * add_r and sub_r of dm_double.c and dm_double_m.c, and modf, which is
 * built on sub.
 *
 * add_r lines the two significands up at the smaller exponent when the gap
 * between the exponents is small, or replaces the smaller operand by a
 * sticky unit below the larger one when it is not, combines them by sign,
 * and brings the combined magnitude back to sixteen digits: dividing with
 * rounding when it grew, multiplying by ten when it cancelled.
 *
 * Two defects of the code as written are modelled beside their
 * corrections.  A cancellation between exponents one apart that leaves
 * fewer than sixteen digits renormalises from one exponent too high.  A
 * gap of exactly seventeen takes the sticky path although the smaller
 * operand can be worth nearly ten sticky units there, which can turn the
 * rounding.  The corrected add_r starts the renormalisation at the
 * smaller exponent and aligns exactly up to a gap of seventeen.
 */
module Add {
  import opened Pow
  import opened Decimal
  import opened Rounding
  import opened Exact
  import opened Integral
  import opened Arith
  import opened Compare

  /** The largest exponent gap the corrected add_r aligns exactly; as written it is Cutoff. */
  const Reach: int := Cutoff + 1

  function Abs(x: int): nat
  {
    if x < 0 then -x else x
  }

  function Signed(neg: bool, m: int): int
  {
    if neg then -m else m
  }

  /** The distance between the exponents of two records. */
  function Gap(lhs: Dec, rhs: Dec): nat
  {
    if lhs.exp < rhs.exp then rhs.exp - lhs.exp else lhs.exp - rhs.exp
  }

  /**
   * The operands lined up: `l` and `r` count units of 10^(exp - diff - 15),
   * where `exp` is the larger exponent; or, past `reach`, the larger
   * significand times 100 against a sticky 1, with diff 2.
   */
  datatype Aligned = Aligned(l: int, r: int, exp: int, diff: int)

  function Align(lhs: Dec, rhs: Dec, reach: int): (a: Aligned)
    requires IsCanonicalNormal(lhs) && IsCanonicalNormal(rhs) && 0 <= reach
    ensures a.exp == (if lhs.exp < rhs.exp then rhs.exp else lhs.exp)
    ensures 0 <= a.l && 0 <= a.r && 0 <= a.diff
    ensures Gap(lhs, rhs) <= reach ==>
      a.diff == Gap(lhs, rhs) &&
      a.l == Sig(lhs) * Pow10(lhs.exp - (a.exp - a.diff)) &&
      a.r == Sig(rhs) * Pow10(rhs.exp - (a.exp - a.diff))
    ensures reach < Gap(lhs, rhs) ==>
      a.diff == 2 &&
      (lhs.exp > rhs.exp ==> a.l == Sig(lhs) * 100 && a.r == 1) &&
      (lhs.exp < rhs.exp ==> a.l == 1 && a.r == Sig(rhs) * 100)
  {
    var le, re := lhs.exp, rhs.exp;
    if le > re then
      if le - re <= reach then Aligned(Sig(lhs) * Pow10(le - re), Sig(rhs), le, le - re)
      else Aligned(Sig(lhs) * 100, 1, le, 2)
    else if le < re then
      if re - le <= reach then Aligned(Sig(lhs), Sig(rhs) * Pow10(re - le), re, re - le)
      else Aligned(1, Sig(rhs) * 100, re, 2)
    else
      Aligned(Sig(lhs), Sig(rhs), le, 0)
  }

  /** The aligned magnitudes combined by sign: their sum, or their difference with the sign of the larger. */
  function Combine(lneg: bool, rneg: bool, l: int, r: int): (c: (int, bool))
    requires 0 <= l && 0 <= r
    ensures c.0 == Abs(Signed(lneg, l) + Signed(rneg, r))
    ensures c.0 != 0 ==> c.1 == (Signed(lneg, l) + Signed(rneg, r) < 0)
  {
    if lneg == rneg then (l + r, lneg)
    else if l >= r then (l - r, lneg)
    else (r - l, !lneg)
  }

  /** The combined magnitude and its sign, for an alignment reaching `reach`. */
  function Combined(lhs: Dec, rhs: Dec, reach: int): (int, bool)
    requires IsCanonicalNormal(lhs) && IsCanonicalNormal(rhs) && Cutoff <= reach <= Reach
  {
    var a := Align(lhs, rhs, reach);
    Combine(lhs.neg, rhs.neg, a.l, a.r)
  }

  /** The divisor makeShift holds for a gap of i: 10^(i - 1), and 1 for i = 0. */
  function ShiftOf(i: nat): (p: int)
    ensures 0 < p
  {
    if i == 0 then 1 else Pow10(i - 1)
  }

  lemma ShiftTable(i: int)
    requires 0 <= i <= Reach
    ensures MakeShift[i] == ShiftOf(i)
  {
    Pow10Table();
  }

  /**
   * The divisor and exponent add_r picks for a magnitude above sixteen
   * digits: makeShift[diff] with the exponent lowered by one when the
   * magnitude is below 10^16 times it (a cancellation), else ten or a
   * hundred times it.  The divisor is the power of ten between the grid of
   * the aligned operands and the chosen exponent, and the quotient has
   * sixteen digits.
   */
  function NarrowStep(n: int, exp: int, diff: int): (s: (int, int))
    requires 0 <= diff <= Reach && MaxSig < n
    requires MinSig * ShiftOf(diff) <= n < Bias * ShiftOf(diff) * 100
    ensures exp - diff < s.1 && s.0 == Pow10(s.1 - (exp - diff))
    ensures MinSig <= n / s.0 <= MaxSig
    ensures exp - 1 <= s.1 && (s.1 == exp - 1 ==> 2 <= diff)
  {
    var e0 := if diff == 0 then exp + 1 else exp;
    var t0 := MakeShift[diff];
    ShiftTable(diff);
    if n < Bias * t0 then
      DivBetween(n, t0, MinSig, Bias);
      (t0, e0 - 1)
    else if n < Bias * t0 * 10 then
      assert Bias * t0 * 10 == Bias * (t0 * 10);
      DivBetween(n, t0 * 10, MinSig, Bias);
      (t0 * 10, e0)
    else
      assert Bias * t0 * 100 == Bias * (t0 * 100);
      assert MinSig * (t0 * 100) == Bias * t0 * 10;
      DivBetween(n, t0 * 100, MinSig, Bias);
      (t0 * 100, e0 + 1)
  }

  /** A magnitude below 10^15 multiplied by ten until it has sixteen digits, the exponent lowered in step. */
  function Widen(n: int, neg: bool, exp: int): (w: Raw)
    requires 0 < n <= MaxSig
    ensures w.neg == neg && MinSig <= w.sig <= MaxSig && w.exp <= exp
    ensures w.sig == n * Pow10(exp - w.exp)
    decreases MinSig - n
  {
    if n >= MinSig then Raw(neg, exp, n)
    else
      var w := Widen(n * 10, neg, exp - 1);
      assert n * 10 * Pow10(exp - 1 - w.exp) == n * Pow10(exp - w.exp);
      w
  }

  /**
   * add_r's normalisation of a nonzero combined magnitude n whose grid is
   * diff exponents below exp: divided down with rounding when it has more
   * than sixteen digits, multiplied up when it has fewer, and otherwise
   * kept with the exponent lowered for a gap of one.  `fixCancel` starts
   * the multiplying at the grid's exponent; the code as written starts it
   * at exp.
   */
  function Normalise(n: int, neg: bool, exp: int, diff: int, mode: int, fixCancel: bool): (w: Raw)
    requires 0 < n && 0 <= diff <= Reach && MinExp <= exp - diff
    requires 2 <= diff ==> MaxSig < n
    requires MaxSig < n ==> MinSig * ShiftOf(diff) <= n < Bias * ShiftOf(diff) * 100
    ensures w.neg == neg && MinSig <= w.sig <= MaxSig
    ensures MaxSig < n ==> MinExp <= w.exp
    ensures n <= MaxSig ==> w.exp <= exp
    ensures MinSig <= n <= MaxSig ==> MinExp <= w.exp && w.sig == n
  {
    if n > MaxSig then
      var s := NarrowStep(n, exp, diff);
      RoundQuotient(n, s.0, s.1, neg, mode)
    else if n < MinSig then
      Widen(n, neg, if fixCancel && diff == 1 then exp - 1 else exp)
    else
      Raw(neg, if diff == 1 then exp - 1 else exp, n)
  }

  /** The corrected normalisation is the sixteen-digit rounding of n units of 10^(exp - diff - 15). */
  lemma NormaliseRounds(n: int, neg: bool, exp: int, diff: int, mode: int)
    requires 0 < n && 0 <= diff <= Reach && MinExp <= exp - diff
    requires 2 <= diff ==> MaxSig < n
    requires MaxSig < n ==> MinSig * ShiftOf(diff) <= n < Bias * ShiftOf(diff) * 100
    ensures RoundedTo(n, 1, exp - diff, mode, Normalise(n, neg, exp, diff, mode, true))
  {
    if n > MaxSig {
      NormaliseNarrow(n, neg, exp, diff, mode);
    } else {
      NormaliseWiden(n, neg, exp, diff, mode);
    }
  }

  /** A magnitude past sixteen digits is rounded at the exponent the narrowing reaches. */
  lemma NormaliseNarrow(n: int, neg: bool, exp: int, diff: int, mode: int)
    requires MaxSig < n && 0 <= diff <= Reach && MinExp <= exp - diff
    requires MinSig * ShiftOf(diff) <= n < Bias * ShiftOf(diff) * 100
    ensures RoundedTo(n, 1, exp - diff, mode, Normalise(n, neg, exp, diff, mode, true))
  {
    var w := Normalise(n, neg, exp, diff, mode, true);
    var s := NarrowStep(n, exp, diff);
    OnGrid(n, exp - diff, s.1, s.0, mode, w);
  }

  /** A magnitude of at most sixteen digits is kept exactly, scaled up to sixteen digits. */
  lemma NormaliseWiden(n: int, neg: bool, exp: int, diff: int, mode: int)
    requires 0 < n <= MaxSig && 0 <= diff <= 1 && MinExp <= exp - diff
    ensures RoundedTo(n, 1, exp - diff, mode, Normalise(n, neg, exp, diff, mode, true))
  {
    var w := Normalise(n, neg, exp, diff, mode, true);
    var base := exp - diff;
    if n >= MinSig {
      assert Pow10(0) == 1;
    }
    assert GridNum(n, base, w.exp) == w.sig && GridDen(1, base, w.exp) == 1;
    RoundsToWhole(w.sig, w.neg, mode, w.sig);
  }

  /**
   * The combined magnitude brought back to sixteen digits, before the
   * exponent range is applied.  `reach` is the largest gap aligned
   * exactly; the code as written has Cutoff and no fix of a cancellation.
   */
  function AddRounded(lhs: Dec, rhs: Dec, mode: int, reach: int, fixCancel: bool): (w: Raw)
    requires IsCanonicalNormal(lhs) && IsCanonicalNormal(rhs) && Cutoff <= reach <= Reach
    requires Combined(lhs, rhs, reach).0 != 0
    ensures w.neg == Combined(lhs, rhs, reach).1 && MinSig <= w.sig <= MaxSig
    ensures MaxSig < Combined(lhs, rhs, reach).0 ==> MinExp <= w.exp
    ensures Combined(lhs, rhs, reach).0 <= MaxSig ==> w.exp <= MaxExp
    ensures MinSig <= Combined(lhs, rhs, reach).0 <= MaxSig ==>
      MinExp <= w.exp && w.sig == Combined(lhs, rhs, reach).0
  {
    var a := Align(lhs, rhs, reach);
    var c := Combine(lhs.neg, rhs.neg, a.l, a.r);
    AlignBounds(lhs, rhs, reach);
    Normalise(c.0, c.1, a.exp, a.diff, mode, fixCancel)
  }

  /**
   * The aligned magnitudes stay within what add_r's normalisation
   * expects: a gap of two or more always leaves more than sixteen digits,
   * and at most three more than the gap adds.
   */
  lemma AlignBounds(lhs: Dec, rhs: Dec, reach: int)
    requires IsCanonicalNormal(lhs) && IsCanonicalNormal(rhs) && Cutoff <= reach <= Reach
    ensures var a := Align(lhs, rhs, reach);
      var n := Combine(lhs.neg, rhs.neg, a.l, a.r).0;
      a.diff <= Reach && MinExp <= a.exp - a.diff &&
      (2 <= a.diff ==> MaxSig < n) &&
      (MaxSig < n ==> MinSig * ShiftOf(a.diff) <= n < Bias * ShiftOf(a.diff) * 100)
  {
    if reach < Gap(lhs, rhs) {
      StickyBounds(lhs, rhs, reach);
    } else if 2 <= Gap(lhs, rhs) {
      WideBounds(lhs, rhs, reach);
    } else {
      NarrowBounds(lhs, rhs, reach);
    }
  }

  /** AlignBounds past the reach: the larger significand times 100, plus or minus one. */
  lemma StickyBounds(lhs: Dec, rhs: Dec, reach: int)
    requires IsCanonicalNormal(lhs) && IsCanonicalNormal(rhs) && Cutoff <= reach <= Reach
    requires reach < Gap(lhs, rhs)
    ensures var a := Align(lhs, rhs, reach);
      var n := Combine(lhs.neg, rhs.neg, a.l, a.r).0;
      a.diff <= Reach && MinExp <= a.exp - a.diff &&
      (2 <= a.diff ==> MaxSig < n) &&
      (MaxSig < n ==> MinSig * ShiftOf(a.diff) <= n < Bias * ShiftOf(a.diff) * 100)
  {
    var a := Align(lhs, rhs, reach);
    ShiftTable(a.diff);
    assert ShiftOf(2) == 10;
  }

  /** AlignBounds for an exact alignment by two places or more. */
  lemma WideBounds(lhs: Dec, rhs: Dec, reach: int)
    requires IsCanonicalNormal(lhs) && IsCanonicalNormal(rhs) && Cutoff <= reach <= Reach
    requires 2 <= Gap(lhs, rhs) <= reach
    ensures var a := Align(lhs, rhs, reach);
      var n := Combine(lhs.neg, rhs.neg, a.l, a.r).0;
      a.diff <= Reach && MinExp <= a.exp - a.diff &&
      (2 <= a.diff ==> MaxSig < n) &&
      (MaxSig < n ==> MinSig * ShiftOf(a.diff) <= n < Bias * ShiftOf(a.diff) * 100)
  {
    var a := Align(lhs, rhs, reach);
    ShiftTable(a.diff);
    var p := Pow10(a.diff - 2);
    assert Pow10(a.diff) == 100 * p;
    assert Pow10(a.diff - 1) == 10 * p;
    Pow10Table();
    if lhs.exp > rhs.exp {
      assert a.l == Sig(lhs) * (100 * p) && a.r == Sig(rhs);
      GapBounds(Sig(lhs), Sig(rhs), p);
    } else {
      assert a.r == Sig(rhs) * (100 * p) && a.l == Sig(lhs);
      GapBounds(Sig(rhs), Sig(lhs), p);
    }
  }

  /** AlignBounds for exponents at most one apart. */
  lemma NarrowBounds(lhs: Dec, rhs: Dec, reach: int)
    requires IsCanonicalNormal(lhs) && IsCanonicalNormal(rhs) && Cutoff <= reach <= Reach
    requires Gap(lhs, rhs) <= 1
    ensures var a := Align(lhs, rhs, reach);
      var n := Combine(lhs.neg, rhs.neg, a.l, a.r).0;
      a.diff <= Reach && MinExp <= a.exp - a.diff &&
      (2 <= a.diff ==> MaxSig < n) &&
      (MaxSig < n ==> MinSig * ShiftOf(a.diff) <= n < Bias * ShiftOf(a.diff) * 100)
  {
    var a := Align(lhs, rhs, reach);
    ShiftTable(a.diff);
    Pow10Table();
  }

  /** big * 100p plus or minus a sixteen-digit small lies in [10^15 * 10p, 10^16 * 10p * 100). */
  lemma GapBounds(big: int, small: int, p: int)
    requires MinSig <= big <= MaxSig && MinSig <= small <= MaxSig && 1 <= p
    ensures small < big * (100 * p)
    ensures MinSig * (10 * p) <= big * (100 * p) - small
    ensures big * (100 * p) + small < Bias * (10 * p) * 100
    ensures Bias <= MinSig * (10 * p)
  {
    MulLe(MinSig, 100 * p, big, 100 * p);
    MulLe(big, 100 * p, MaxSig, 100 * p);
    MulLe(MinSig * 90, 1, MinSig * 90, p);
    MulLe(Bias, 1, Bias, p);
  }

  /**
   * The exact sum of two normal values in units of 10^(smaller exponent
   * - 15): the larger-exponent significand scaled by 10^gap, with the other
   * added by sign.  When the gap is aligned exactly, add_r's aligned
   * magnitudes combine to it.
   */
  lemma AlignedValue(lhs: Dec, rhs: Dec, reach: int)
    requires IsCanonicalNormal(lhs) && IsCanonicalNormal(rhs) && Cutoff <= reach <= Reach
    ensures var S := Plus(ValueOf(lhs), ValueOf(rhs));
      var a := Align(lhs, rhs, reach);
      S.e + 15 == a.exp - Gap(lhs, rhs) &&
      (lhs.exp < rhs.exp ==> S.m == Signed(rhs.neg, Sig(rhs) * Pow10(Gap(lhs, rhs))) + Signed(lhs.neg, Sig(lhs))) &&
      (rhs.exp <= lhs.exp ==> S.m == Signed(lhs.neg, Sig(lhs) * Pow10(Gap(lhs, rhs))) + Signed(rhs.neg, Sig(rhs))) &&
      (Gap(lhs, rhs) <= reach ==> S.m == Signed(lhs.neg, a.l) + Signed(rhs.neg, a.r))
  {
    var base := Base(lhs.exp, rhs.exp);
    assert Pow10(0) == 1;
    SignedScale(lhs.neg, Sig(lhs), Pow10(lhs.exp - base));
    SignedScale(rhs.neg, Sig(rhs), Pow10(rhs.exp - base));
  }

  lemma SignedScale(neg: bool, m: int, p: int)
    ensures Signed(neg, m) * p == Signed(neg, m * p)
  {
  }

  /**
   * The corrected add_r's combined magnitude is zero exactly when the
   * exact sum is; otherwise it carries the sum's sign and the normalised
   * result is the sum rounded to sixteen digits.
   */
  lemma AddRoundedCorrect(lhs: Dec, rhs: Dec, mode: int)
    requires IsCanonicalNormal(lhs) && IsCanonicalNormal(rhs)
    ensures var S := Plus(ValueOf(lhs), ValueOf(rhs));
      (Combined(lhs, rhs, Reach).0 == 0 <==> S.m == 0) &&
      (S.m != 0 ==>
        Combined(lhs, rhs, Reach).1 == (S.m < 0) &&
        RoundedTo(Abs(S.m), 1, S.e + 15, mode, AddRounded(lhs, rhs, mode, Reach, true)))
  {
    if Gap(lhs, rhs) <= Reach {
      ExactPathCorrect(lhs, rhs, mode);
    } else {
      StickyPathCorrect(lhs, rhs, mode);
    }
  }

  /**
   * The first half of add_r: a NaN operand, then infinities, then zeros.
   * Opposite infinities give the default NaN; two zeros give -0 when both
   * are negative or, with opposite signs, when rounding downward.
   */
  function AddSpecial(lhs: Dec, rhs: Dec, mode: int): (r: Dec)
    requires !IsNormal(lhs) || !IsNormal(rhs)
    ensures IsNaN(lhs) ==> r == lhs
    ensures !IsNaN(lhs) && IsNaN(rhs) ==> r == rhs
    ensures IsInf(lhs) && IsInf(rhs) ==> r == if lhs.neg != rhs.neg then DefaultNaN(false) else lhs
    ensures IsInf(lhs) && (IsZero(rhs) || IsNormal(rhs)) ==> r == lhs
    ensures IsInf(rhs) && (IsZero(lhs) || IsNormal(lhs)) ==> r == rhs
    ensures IsZero(lhs) && IsZero(rhs) ==>
      r == SignedZero((lhs.neg && rhs.neg) || (lhs.neg != rhs.neg && mode == Downward))
    ensures IsZero(lhs) && IsNormal(rhs) ==> r == rhs
    ensures IsZero(rhs) && IsNormal(lhs) ==> r == lhs
  {
    if IsNaN(lhs) then lhs
    else if IsNaN(rhs) then rhs
    else if IsInf(lhs) && IsInf(rhs) then
      if lhs.neg != rhs.neg then DefaultNaN(false) else lhs
    else if IsInf(lhs) then lhs
    else if IsInf(rhs) then rhs
    else if IsZero(lhs) && IsZero(rhs) then
      if (lhs.neg && rhs.neg) || (lhs.neg != rhs.neg && mode == Downward) then SignedZero(true)
      else SignedZero(false)
    else if IsZero(lhs) then rhs
    else lhs
  }

  /**
   * The second half of add_r, for two normal operands: an exact
   * cancellation gives +0, or -0 when rounding downward; otherwise the
   * normalised result, flushed to infinity only on the dividing branch
   * and to zero only on the multiplying one, as the code does.
   */
  function AddNormals(lhs: Dec, rhs: Dec, mode: int, reach: int, fixCancel: bool): (r: Dec)
    requires IsCanonicalNormal(lhs) && IsCanonicalNormal(rhs) && Cutoff <= reach <= Reach
    ensures Combined(lhs, rhs, reach).0 == 0 ==> r == SignedZero(mode == Downward)
    ensures Combined(lhs, rhs, reach).0 != 0 ==> r == Flush(AddRounded(lhs, rhs, mode, reach, fixCancel))
  {
    var c := Combined(lhs, rhs, reach);
    if c.0 == 0 then SignedZero(mode == Downward)
    else
      var w := AddRounded(lhs, rhs, mode, reach, fixCancel);
      if MaxSig < c.0 then
        if MaxExp < w.exp then SignedInf(w.neg) else Pack(w.neg, w.exp, w.sig)
      else if c.0 < MinSig then
        if w.exp < MinExp then SignedZero(w.neg) else Pack(w.neg, w.exp, w.sig)
      else
        Pack(w.neg, w.exp, w.sig)
  }

  /** dm_double_add_r as written: exact alignment up to a gap of Cutoff, and no fix of a cancellation. */
  function AddRAsWritten(lhs: Dec, rhs: Dec, mode: int): (r: Dec)
    requires IsCanonical(lhs) && IsCanonical(rhs)
    ensures IsCanonical(r)
    ensures !IsNormal(lhs) || !IsNormal(rhs) ==> r == AddSpecial(lhs, rhs, mode)
  {
    if !IsNormal(lhs) || !IsNormal(rhs) then AddSpecial(lhs, rhs, mode)
    else AddNormals(lhs, rhs, mode, Cutoff, false)
  }

  /** dm_double_add_r corrected: exact alignment up to a gap of seventeen, and a cancellation renormalised from the grid. */
  function AddR(lhs: Dec, rhs: Dec, mode: int): (r: Dec)
    requires IsCanonical(lhs) && IsCanonical(rhs)
    ensures IsCanonical(r)
    ensures !IsNormal(lhs) || !IsNormal(rhs) ==> r == AddSpecial(lhs, rhs, mode)
    ensures IsNormal(lhs) && IsNormal(rhs) ==> r == AddNormals(lhs, rhs, mode, Reach, true)
  {
    if !IsNormal(lhs) || !IsNormal(rhs) then AddSpecial(lhs, rhs, mode)
    else AddNormals(lhs, rhs, mode, Reach, true)
  }

  /**
   * The corrected add_r of two normal values is the exact sum rounded to
   * sixteen digits in the mode, with the sum's sign, then flushed to a
   * signed infinity or zero outside the exponent range; an exact zero sum
   * is +0, or -0 when rounding downward.
   */
  lemma AddRCorrect(lhs: Dec, rhs: Dec, mode: int)
    requires IsCanonicalNormal(lhs) && IsCanonicalNormal(rhs)
    ensures Combined(lhs, rhs, Reach).0 == 0 <==> Plus(ValueOf(lhs), ValueOf(rhs)).m == 0
    ensures var S := Plus(ValueOf(lhs), ValueOf(rhs));
      (S.m == 0 ==> AddR(lhs, rhs, mode) == SignedZero(mode == Downward)) &&
      (S.m != 0 ==>
        var w := AddRounded(lhs, rhs, mode, Reach, true);
        AddR(lhs, rhs, mode) == Flush(w) && w.neg == (S.m < 0) &&
        RoundedTo(Abs(S.m), 1, S.e + 15, mode, w))
  {
    AddRoundedCorrect(lhs, rhs, mode);
  }

  /** x + 0 and 0 + x are x for every value other than a NaN or a zero, whatever the zero's sign. */
  lemma AddZero(x: Dec, z: Dec, mode: int)
    requires IsCanonical(x) && IsZero(z) && (IsNormal(x) || IsInf(x))
    ensures AddR(x, z, mode) == x && AddR(z, x, mode) == x
  {
  }

  /** Swapping the operands swaps the aligned magnitudes. */
  lemma AlignSwap(lhs: Dec, rhs: Dec, reach: int)
    requires IsCanonicalNormal(lhs) && IsCanonicalNormal(rhs) && 0 <= reach
    ensures var a, b := Align(lhs, rhs, reach), Align(rhs, lhs, reach);
      b.l == a.r && b.r == a.l && b.exp == a.exp && b.diff == a.diff
  {
  }

  /** add_r is commutative unless both operands are NaNs, when the lhs payload wins. */
  lemma AddCommutes(lhs: Dec, rhs: Dec, mode: int)
    requires IsCanonical(lhs) && IsCanonical(rhs) && !(IsNaN(lhs) && IsNaN(rhs))
    ensures AddR(lhs, rhs, mode) == AddR(rhs, lhs, mode)
  {
    if IsNormal(lhs) && IsNormal(rhs) {
      AlignSwap(lhs, rhs, Reach);
      var c, d := Combined(lhs, rhs, Reach), Combined(rhs, lhs, Reach);
      assert c.0 == d.0;
      if c.0 != 0 {
        assert c == d;
        assert AddRounded(lhs, rhs, mode, Reach, true) == AddRounded(rhs, lhs, mode, Reach, true);
      }
    }
  }

  /**
   * Both defects need their gap: between exponents neither one nor
   * seventeen apart, add_r as written already gives the corrected result
   * (past seventeen both take the sticky path).
   */
  lemma AddRAsWrittenAgrees(lhs: Dec, rhs: Dec, mode: int)
    requires IsCanonical(lhs) && IsCanonical(rhs)
    requires IsNormal(lhs) && IsNormal(rhs) ==> Gap(lhs, rhs) != 1 && Gap(lhs, rhs) != Reach
    ensures AddRAsWritten(lhs, rhs, mode) == AddR(lhs, rhs, mode)
  {
    if IsNormal(lhs) && IsNormal(rhs) {
      assert Align(lhs, rhs, Cutoff) == Align(lhs, rhs, Reach);
    }
  }

  /**
   * dm_double_sub_r: a NaN operand comes back untouched, before rhs is
   * negated; otherwise lhs plus the negated rhs.
   */
  function SubR(lhs: Dec, rhs: Dec, mode: int): (r: Dec)
    requires IsCanonical(lhs) && IsCanonical(rhs)
    ensures IsCanonical(r)
    ensures IsNaN(lhs) ==> r == lhs
    ensures !IsNaN(lhs) && IsNaN(rhs) ==> r == rhs
    ensures !IsNaN(rhs) ==> r == AddR(lhs, Neg(rhs), mode)
  {
    if IsNaN(lhs) then lhs
    else if IsNaN(rhs) then rhs
    else AddR(lhs, Neg(rhs), mode)
  }

  /** A finite value minus itself is +0, or -0 when rounding downward; an infinity minus itself is the default NaN. */
  lemma SubSelf(x: Dec, mode: int)
    requires IsCanonical(x) && !IsNaN(x)
    ensures IsFinite(x) ==> SubR(x, x, mode) == SignedZero(mode == Downward)
    ensures IsInf(x) ==> SubR(x, x, mode) == DefaultNaN(false)
  {
    if IsNormal(x) {
      AddRoundedCorrect(x, Neg(x), mode);
      var S := Plus(ValueOf(x), ValueOf(Neg(x)));
      assert S.m == 0;
    }
  }

  /**
   * dm_double_modf: the fractional part, and the integer part the source
   * stores through its pointer.  A zero or a NaN is both parts; an
   * infinity has the zero of its sign as its fraction.  Otherwise the
   * integer part is trunc and the fraction the difference, in the mode.
   */
  function Modf(x: Dec, mode: int): (r: (Dec, Dec))
    requires IsCanonical(x)
    ensures IsCanonical(r.0) && IsCanonical(r.1) && r.1.neg == x.neg
    ensures !IsNormal(x) ==> r.1 == x && r.0 == (if IsInf(x) then SignedZero(x.neg) else x)
    ensures IsNormal(x) ==> r.1 == Trunc(x)
  {
    if x.exp == SpecialExp then
      (if x.field != InfField then x else SignedZero(x.neg), x)
    else
      var ip := Trunc(x);
      (SubR(x, ip, mode), ip)
  }

  /**
   * f and ip split the normal value x exactly: ip is integral with x's
   * sign, f is zero exactly when x is integral (+0, or -0 when rounding
   * downward, whatever x's sign), and otherwise f is below one in
   * magnitude, has x's sign, and f + ip is x with nothing rounded away.
   */
  predicate SplitsExactly(x: Dec, f: Dec, ip: Dec, mode: int)
    requires IsNormal(x)
  {
    IsIntegral(ip) && ip.neg == x.neg && (IsZero(f) || IsNormal(f)) &&
    (IsZero(f) <==> IsIntegral(x)) &&
    (IsZero(f) ==> ip == x && f == SignedZero(mode == Downward)) &&
    (IsNormal(f) ==> f.neg == x.neg && f.exp < 0 && Same(Plus(ValueOf(f), ValueOf(ip)), ValueOf(x)))
  }

  /** modf splits every normal value exactly. */
  lemma ModfExact(x: Dec, mode: int)
    requires IsCanonicalNormal(x)
    ensures SplitsExactly(x, Modf(x, mode).0, Modf(x, mode).1, mode)
  {
    if x.exp < 0 {
      ModfTiny(x, mode);
    } else if Cutoff <= x.exp {
      SubSelf(x, mode);
    } else {
      ModfMiddle(x, mode);
    }
  }

  /** Below one, the integer part is a zero and the fraction the value itself. */
  lemma ModfTiny(x: Dec, mode: int)
    requires IsCanonicalNormal(x) && x.exp < 0
    ensures SplitsExactly(x, Modf(x, mode).0, Modf(x, mode).1, mode)
  {
    assert Pow10(0) == 1;
  }

  /** Between exponents 0 and 15 the fraction is what trunc clears. */
  lemma ModfMiddle(x: Dec, mode: int)
    requires IsCanonicalNormal(x) && 0 <= x.exp < Cutoff
    ensures SplitsExactly(x, Modf(x, mode).0, Modf(x, mode).1, mode)
  {
    TruncShape(x);
    var p := Pow10(15 - x.exp);
    if x.exp == 15 {
      assert p == 1;
    }
    if Sig(x) % p == 0 {
      assert Trunc(x) == x;
      SubSelf(x, mode);
    } else {
      ModfFraction(x, Trunc(x), mode, p);
    }
  }

  /** The fraction of a value with digits below the units place: the difference from trunc, which add_r computes exactly. */
  lemma ModfFraction(x: Dec, t: Dec, mode: int, p: int)
    requires IsCanonicalNormal(x) && 0 <= x.exp < Cutoff && p == Pow10(15 - x.exp)
    requires IsCanonicalNormal(t) && t.neg == x.neg && t.exp == x.exp
    requires Sig(t) == Sig(x) - Sig(x) % p && 0 < Sig(x) % p < p
    ensures var f := SubR(x, t, mode);
      IsNormal(f) && f.neg == x.neg && f.exp < 0 && Same(Plus(ValueOf(f), ValueOf(t)), ValueOf(x))
  {
    var rem := Sig(x) % p;
    var w := AddRounded(x, Neg(t), mode, Reach, true);
    ModfRounded(x, t, mode, rem);
    FractionBelowBias(x.exp, p, rem);
    RoundedToExact(rem, x.exp, mode, w);
    ModfDigits(rem, p, x.exp, w.exp, w.sig);
    var f := SubR(x, t, mode);
    assert f == Flush(w);
    ModfValue(x, t, f, x.neg, Sig(x), rem, w.exp, x.exp);
  }

  /** A remainder below 10^(15 - e) is below BIAS. */
  lemma FractionBelowBias(e: int, p: int, rem: int)
    requires 0 <= e < Cutoff && p == Pow10(15 - e) && rem < p
    ensures rem < Bias
  {
    Pow10Le(15 - e, 15);
    Anchors();
  }

  /** The fraction at exponent g and the integral part at e add up to the value. */
  lemma ModfValue(x: Dec, t: Dec, f: Dec, neg: bool, s: int, rem: int, g: int, e: int)
    requires IsNormal(x) && x.neg == neg && Sig(x) == s && x.exp == e
    requires IsNormal(t) && t.neg == neg && Sig(t) == s - rem && t.exp == e
    requires g < e && IsNormal(f) && f.neg == neg && Sig(f) == rem * Pow10(e - g) && f.exp == g
    ensures Same(Plus(ValueOf(f), ValueOf(t)), ValueOf(x))
  {
    NormalValue(f, neg, rem * Pow10(e - g), g);
    NormalValue(t, neg, s - rem, e);
    NormalValue(x, neg, s, e);
    FractionSum(neg, s, rem, g, e);
  }

  /** The value of a normal record with the given sign, significand and exponent. */
  lemma NormalValue(d: Dec, neg: bool, s: int, e: int)
    requires IsNormal(d) && d.neg == neg && Sig(d) == s && d.exp == e
    ensures ValueOf(d) == Fin(Signed(neg, s), e - 15)
  {
  }

  /** A remainder at a lower exponent plus the rest at the value's own exponent is the value. */
  lemma FractionSum(neg: bool, s: int, rem: int, g: int, e: int)
    requires g < e
    ensures Same(Plus(Fin(Signed(neg, rem * Pow10(e - g)), g - 15), Fin(Signed(neg, s - rem), e - 15)), Fin(Signed(neg, s), e - 15))
  {
    ScaleByOne(Signed(neg, rem * Pow10(e - g)) + Signed(neg, s - rem) * Pow10(e - g));
    ScaleByOne(Signed(neg, rem * Pow10(e - g)));
    SplitSum(neg, s, rem, Pow10(e - g));
  }

  /** The difference from trunc is the remainder, rounded by add_r at the value's exponent, with the value's sign. */
  lemma ModfRounded(x: Dec, t: Dec, mode: int, rem: int)
    requires IsCanonicalNormal(x) && IsCanonicalNormal(t) && t.neg == x.neg && t.exp == x.exp
    requires rem == Sig(x) - Sig(t) && 0 < rem
    ensures Combined(x, Neg(t), Reach).0 != 0
    ensures var w := AddRounded(x, Neg(t), mode, Reach, true);
      SubR(x, t, mode) == Flush(w) && w.neg == x.neg && RoundedTo(rem, 1, x.exp, mode, w)
  {
    var S := Plus(ValueOf(x), ValueOf(Neg(t)));
    assert Pow10(0) == 1;
    assert S.m == Signed(x.neg, rem) && S.e + 15 == x.exp;
    AddRCorrect(x, Neg(t), mode);
    AddRoundedCorrect(x, Neg(t), mode);
  }

  /** A value's significand, split into a remainder and the rest, adds back up once both are scaled alike. */
  lemma SplitSum(neg: bool, s: int, rem: int, p: int)
    ensures Signed(neg, rem * p) + Signed(neg, s - rem) * p == Signed(neg, s) * p
  {
    assert (s - rem) * p == s * p - rem * p;
  }

  /** Scaled up to sixteen digits, a remainder below 10^(15 - e) lands on an exponent in [e - 15, -1]. */
  lemma ModfDigits(rem: int, p: int, e: int, g: int, sig: int)
    requires 0 <= e < Cutoff && p == Pow10(15 - e) && 0 < rem < p
    requires g <= e && sig == rem * Pow10(e - g) && MinSig <= sig <= MaxSig
    ensures e - 15 <= g < 0
  {
    Pow10Add(15 - e, e - g);
    ScaleLess(rem, p, Pow10(e - g));
    if 16 <= e - g {
      Pow10Le(16, e - g);
      Pow10Table();
      MulLe(1, Pow10(16), rem, Pow10(e - g));
    }
    if 0 <= g {
      Pow10Le(15 - g, 15);
      Pow10Table();
    }
  }

  /**
   * The sticky path, subtracting: n1 = j * t + (t - 1) stands for
   * n2 = j * T + (T - b), the smaller operand b being less than half a unit
   * of the divisor T.  Both round to the same integer and have the same
   * quotient.
   */
  lemma StickyBelow(n1: int, n2: int, j: int, t: int, T: int, b: int, neg: bool, mode: int, r: int)
    requires 3 <= t && 0 <= j && 0 < b && 2 * b < T
    requires n1 == j * t + (t - 1) && n2 == j * T + (T - b)
    requires RoundsTo(n1, t, neg, mode, r)
    ensures RoundsTo(n2, T, neg, mode, r) && n2 / T == n1 / t
  {
    DivModUnique(n1, t, j, t - 1);
    DivModUnique(n2, T, j, T - b);
    var r1 := j + DecideRound(neg, j % 2 == 1, t - 2 * (t - 1), false, mode);
    DecideRoundCorrect(n1, t, j, t - 1, neg, mode, r1);
    RoundsToUnique(n1, t, neg, mode, r, r1);
    DecideRoundBelow(neg, j % 2 == 1, t - 2 * (t - 1), T - 2 * (T - b), mode);
    DecideRoundCorrect(n2, T, j, T - b, neg, mode, r1);
  }

  /** The sticky path, adding: n1 = k * t + 1 stands for n2 = k * T + b likewise. */
  lemma StickyAbove(n1: int, n2: int, k: int, t: int, T: int, b: int, neg: bool, mode: int, r: int)
    requires 3 <= t && 0 <= k && 0 < b && 2 * b < T
    requires n1 == k * t + 1 && n2 == k * T + b
    requires RoundsTo(n1, t, neg, mode, r)
    ensures RoundsTo(n2, T, neg, mode, r) && n2 / T == n1 / t
  {
    DivModUnique(n1, t, k, 1);
    DivModUnique(n2, T, k, b);
    var r1 := k + DecideRound(neg, k % 2 == 1, t - 2, false, mode);
    DecideRoundCorrect(n1, t, k, 1, neg, mode, r1);
    RoundsToUnique(n1, t, neg, mode, r, r1);
    DecideRoundAbove(neg, k % 2 == 1, t - 2, T - 2 * b, mode);
    DecideRoundCorrect(n2, T, k, b, neg, mode, r1);
  }

  /**
   * Within the exact reach the combined magnitude is the exact sum's, and
   * the corrected normalisation rounds it to sixteen digits with its sign.
   */
  lemma ExactPathCorrect(lhs: Dec, rhs: Dec, mode: int)
    requires IsCanonicalNormal(lhs) && IsCanonicalNormal(rhs) && Gap(lhs, rhs) <= Reach
    ensures var S := Plus(ValueOf(lhs), ValueOf(rhs));
      Combined(lhs, rhs, Reach).0 == Abs(S.m) &&
      (S.m != 0 ==>
        Combined(lhs, rhs, Reach).1 == (S.m < 0) &&
        RoundedTo(Abs(S.m), 1, S.e + 15, mode, AddRounded(lhs, rhs, mode, Reach, true)))
  {
    var S := Plus(ValueOf(lhs), ValueOf(rhs));
    var a := Align(lhs, rhs, Reach);
    var c := Combined(lhs, rhs, Reach);
    ExactShape(lhs, rhs, mode, S, a, c);
    if S.m != 0 {
      ExactRounds(lhs, rhs, mode, S, a, c);
    }
  }

  /** Within the exact reach, add_r's combined magnitude is the exact sum's and feeds the normalisation. */
  lemma ExactShape(lhs: Dec, rhs: Dec, mode: int, S: Ext, a: Aligned, c: (int, bool))
    requires IsCanonicalNormal(lhs) && IsCanonicalNormal(rhs) && Gap(lhs, rhs) <= Reach
    requires S == Plus(ValueOf(lhs), ValueOf(rhs)) && a == Align(lhs, rhs, Reach) && c == Combined(lhs, rhs, Reach)
    ensures S.Fin? && c.0 == Abs(S.m) && S.e + 15 == a.exp - a.diff
    ensures S.m != 0 ==> c.1 == (S.m < 0)
    ensures 0 <= a.diff <= Reach && MinExp <= a.exp - a.diff
    ensures 2 <= a.diff ==> MaxSig < c.0
    ensures MaxSig < c.0 ==> MinSig * ShiftOf(a.diff) <= c.0 < Bias * ShiftOf(a.diff) * 100
    ensures c.0 != 0 ==> AddRounded(lhs, rhs, mode, Reach, true) == Normalise(c.0, c.1, a.exp, a.diff, mode, true)
  {
    AlignedValue(lhs, rhs, Reach);
    AlignBounds(lhs, rhs, Reach);
  }

  /** With the shape ExactShape gives, a nonzero exact sum is rounded by add_r. */
  lemma ExactRounds(lhs: Dec, rhs: Dec, mode: int, S: Ext, a: Aligned, c: (int, bool))
    requires IsCanonicalNormal(lhs) && IsCanonicalNormal(rhs) && Gap(lhs, rhs) <= Reach
    requires c == Combined(lhs, rhs, Reach)
    requires S.Fin? && c.0 == Abs(S.m) && S.e + 15 == a.exp - a.diff
    requires 0 <= a.diff <= Reach && MinExp <= a.exp - a.diff
    requires 2 <= a.diff ==> MaxSig < c.0
    requires MaxSig < c.0 ==> MinSig * ShiftOf(a.diff) <= c.0 < Bias * ShiftOf(a.diff) * 100
    requires c.0 != 0 ==> AddRounded(lhs, rhs, mode, Reach, true) == Normalise(c.0, c.1, a.exp, a.diff, mode, true)
    requires S.m != 0
    ensures RoundedTo(Abs(S.m), 1, S.e + 15, mode, AddRounded(lhs, rhs, mode, Reach, true))
  {
    ExactRelabel(Abs(S.m), S.e + 15, c.0, c.1, a.exp, a.diff, mode, AddRounded(lhs, rhs, mode, Reach, true));
  }

  /** The exact sum's magnitude N at exponent E, once aligned as n at exp - diff, is rounded by the normalisation. */
  lemma ExactRelabel(N: int, E: int, n: int, neg: bool, exp: int, diff: int, mode: int, v: Raw)
    requires N == n && E == exp - diff && 0 < n
    requires 0 <= diff <= Reach && MinExp <= exp - diff
    requires 2 <= diff ==> MaxSig < n
    requires MaxSig < n ==> MinSig * ShiftOf(diff) <= n < Bias * ShiftOf(diff) * 100
    requires v == Normalise(n, neg, exp, diff, mode, true)
    ensures RoundedTo(N, 1, E, mode, v)
  {
    NormaliseRounds(n, neg, exp, diff, mode);
  }

  /** The operand with the larger exponent, which the sticky path keeps. */
  function Larger(lhs: Dec, rhs: Dec): Dec
  {
    if lhs.exp < rhs.exp then rhs else lhs
  }

  /** The operand with the smaller exponent, which the sticky path replaces by a unit. */
  function Smaller(lhs: Dec, rhs: Dec): Dec
  {
    if lhs.exp < rhs.exp then lhs else rhs
  }

  /** The magnitude add_r combines on the sticky path: the larger significand times 100, plus or minus one. */
  function StickyUnit(lhs: Dec, rhs: Dec): int
  {
    var big, small := Larger(lhs, rhs), Smaller(lhs, rhs);
    if big.neg != small.neg then 100 * Sig(big) - 1 else 100 * Sig(big) + 1
  }

  /**
   * Past the reach, add_r combines 100 times the larger significand with
   * a sticky unit carrying the smaller operand's sign, and keeps the
   * larger operand's sign; the normalisation divides by ten or a hundred.
   */
  lemma StickyShape(lhs: Dec, rhs: Dec, mode: int)
    requires IsCanonicalNormal(lhs) && IsCanonicalNormal(rhs) && Reach < Gap(lhs, rhs)
    ensures var n1, big := StickyUnit(lhs, rhs), Larger(lhs, rhs);
      Combined(lhs, rhs, Reach) == (n1, big.neg) &&
      MaxSig < n1 && MinSig * ShiftOf(2) <= n1 < Bias * ShiftOf(2) * 100 &&
      AddRounded(lhs, rhs, mode, Reach, true) ==
        RoundQuotient(n1, NarrowStep(n1, big.exp, 2).0, NarrowStep(n1, big.exp, 2).1, big.neg, mode)
  {
    assert ShiftOf(2) == 10;
  }

  /**
   * The exact sum on the sticky path: the larger operand, scaled by
   * 10^gap, outweighs the smaller one, so the sum is nonzero, has the
   * larger operand's sign, and its magnitude is the scaled significand
   * plus or minus the smaller one.
   */
  lemma StickyMagnitude(A: int, B: int, D: int, bneg: bool, sneg: bool, m: int)
    requires MinSig <= A <= MaxSig && MinSig <= B <= MaxSig && 1 <= D
    requires m == Signed(bneg, A * Pow10(D)) + Signed(sneg, B)
    ensures m != 0 && (m < 0 <==> bneg)
    ensures Abs(m) == if bneg != sneg then A * Pow10(D) - B else A * Pow10(D) + B
  {
    Pow10Le(1, D);
    MulLe(A, 10, A, Pow10(D));
  }

  /**
   * Past the exact reach, add_r's sticky combination and normalisation
   * still give the sixteen-digit rounding of the exact sum, with its sign.
   */
  lemma StickyPathCorrect(lhs: Dec, rhs: Dec, mode: int)
    requires IsCanonicalNormal(lhs) && IsCanonicalNormal(rhs) && Reach < Gap(lhs, rhs)
    ensures var S := Plus(ValueOf(lhs), ValueOf(rhs));
      S.m != 0 && Combined(lhs, rhs, Reach).0 != 0 &&
      Combined(lhs, rhs, Reach).1 == (S.m < 0) &&
      RoundedTo(Abs(S.m), 1, S.e + 15, mode, AddRounded(lhs, rhs, mode, Reach, true))
  {
    var S := Plus(ValueOf(lhs), ValueOf(rhs));
    var big, small := Larger(lhs, rhs), Smaller(lhs, rhs);
    var A, B, D, M := Sig(big), Sig(small), Gap(lhs, rhs), big.exp;
    var n1 := StickyUnit(lhs, rhs);
    SortedSum(lhs, rhs);
    StickyMagnitude(A, B, D, big.neg, small.neg, S.m);
    StickyShape(lhs, rhs, mode);
    var s := NarrowStep(n1, M, 2);
    StickyCore(A, B, big.neg != small.neg, n1, Abs(S.m), s.0, s.1, D, S.e + 15, M, big.neg, mode);
  }

  /** The exact sum as the larger-exponent operand shifted by the gap plus the other one, at the larger exponent less the gap. */
  lemma SortedSum(lhs: Dec, rhs: Dec)
    requires IsCanonicalNormal(lhs) && IsCanonicalNormal(rhs)
    ensures var S, big, small := Plus(ValueOf(lhs), ValueOf(rhs)), Larger(lhs, rhs), Smaller(lhs, rhs);
      S.m == Signed(big.neg, Sig(big) * Pow10(Gap(lhs, rhs))) + Signed(small.neg, Sig(small)) &&
      S.e + 15 == big.exp - Gap(lhs, rhs)
  {
    AlignedValue(lhs, rhs, Reach);
  }

  /**
   * The divisor the sticky path uses is ten or a hundred, never a
   * thousand, and scaled by 10^(gap - 2) it is the power of ten between
   * the exact grid and the chosen exponent.
   */
  lemma StickyGrid(n1: int, M: int, D: int, t: int, g: int)
    requires Reach < D && MaxSig < n1 < 100 * Bias && MinSig * ShiftOf(2) <= n1 < Bias * ShiftOf(2) * 100
    requires t == NarrowStep(n1, M, 2).0 && g == NarrowStep(n1, M, 2).1
    ensures (t == 10 || t == 100) && t * Pow10(D - 2) == Pow10(g - (M - D)) && 2 <= D &&
      Bias <= Pow10(D - 2) && M - D < g && MinSig <= n1 / t <= MaxSig
  {
    ShiftTable(2);
    var s := NarrowStep(n1, M, 2);
    Pow10Table();
    if s.1 - (M - 2) >= 3 {
      Pow10Le(3, s.1 - (M - 2));
      MulLe(MinSig, 1000, n1 / s.0, s.0);
      DivModParts(n1, s.0, n1 / s.0, n1 % s.0);
      assert false;
    }
    Pow10Add(s.1 - (M - 2), D - 2);
    Pow10Le(16, D - 2);
  }

  /**
   * The sticky path rounds the exact magnitude A * 10^D plus or minus B
   * correctly: n1 = 100A plus or minus one goes through add_r's
   * normalisation, and the result is the sixteen-digit rounding of the
   * exact magnitude at the smaller exponent M - D.
   */
  lemma StickyCore(A: int, B: int, sub: bool, n1: int, N: int, t: int, g: int, D: int, e: int, M: int, neg: bool, mode: int)
    requires MinSig <= A <= MaxSig && MinSig <= B <= MaxSig && Reach < D && e == M - D
    requires n1 == if sub then 100 * A - 1 else 100 * A + 1
    requires N == if sub then A * Pow10(D) - B else A * Pow10(D) + B
    requires MaxSig < n1 && MinSig * ShiftOf(2) <= n1 < Bias * ShiftOf(2) * 100
    requires t == NarrowStep(n1, M, 2).0 && g == NarrowStep(n1, M, 2).1
    ensures RoundedTo(N, 1, e, mode, RoundQuotient(n1, t, g, neg, mode))
  {
    StickyGrid(n1, M, D, t, g);
    StickyTransfer(A, B, sub, n1, N, t, D, e, g, neg, mode);
  }

  /**
   * The sticky unit stands for the smaller operand: with L = 100A,
   * StickyBelow or StickyAbove carries the rounding of n1 by t over to the
   * exact magnitude n2 by T, for the significand or for the carry.
   */
  lemma StickyTransfer(A: int, B: int, sub: bool, n1: int, N: int, t: int, D: int, e: int, g: int, neg: bool, mode: int)
    requires MinSig <= A <= MaxSig && MinSig <= B <= MaxSig
    requires n1 == if sub then 100 * A - 1 else 100 * A + 1
    requires (t == 10 || t == 100) && 2 <= D && Bias <= Pow10(D - 2)
    requires N == if sub then A * Pow10(D) - B else A * Pow10(D) + B
    requires e < g && t * Pow10(D - 2) == Pow10(g - e)
    requires MinSig <= n1 / t <= MaxSig
    ensures RoundedTo(N, 1, e, mode, RoundQuotient(n1, t, g, neg, mode))
  {
    var P := Pow10(D - 2);
    var T, n2 := t * P, if sub then A * (100 * P) - B else A * (100 * P) + B;
    Pow10Two(D);
    assert n2 == N;
    var w := RoundQuotient(n1, t, g, neg, mode);
    if w.exp == g && RoundsTo(n1, t, neg, mode, w.sig) {
      StickyOne(A, B, sub, t, P, T, neg, mode, w.sig);
    } else {
      StickyOne(A, B, sub, t, P, T, neg, mode, Bias);
    }
    OnGrid(n2, e, g, T, mode, w);
  }

  /** One rounding carried over from the sticky magnitude to the exact one. */
  lemma StickyOne(A: int, B: int, sub: bool, t: int, P: int, T: int, neg: bool, mode: int, r: int)
    requires MinSig <= A <= MaxSig && MinSig <= B <= MaxSig
    requires (t == 10 || t == 100) && T == t * P && Bias <= P
    requires RoundsTo(if sub then 100 * A - 1 else 100 * A + 1, t, neg, mode, r)
    ensures var n2 := if sub then A * (100 * P) - B else A * (100 * P) + B;
      RoundsTo(n2, T, neg, mode, r) && n2 / T == (if sub then 100 * A - 1 else 100 * A + 1) / t
  {
    var k := if t == 10 then 10 * A else A;
    assert k * t == 100 * A;
    Regroup(A, P, k, t);
    MulLe(10, Bias, t, P);
    if sub {
      StickySub(A, B, k, t, P, T, neg, mode, r);
    } else {
      StickyAbove(100 * A + 1, A * (100 * P) + B, k, t, T, B, neg, mode, r);
    }
  }

  lemma StickySub(A: int, B: int, k: int, t: int, P: int, T: int, neg: bool, mode: int, r: int)
    requires MinSig <= A && MinSig <= B <= MaxSig && 10 <= t && 0 < k
    requires T == t * P && 10 * Bias <= T && A * (100 * P) == k * T && k * t == 100 * A
    requires RoundsTo(100 * A - 1, t, neg, mode, r)
    ensures RoundsTo(A * (100 * P) - B, T, neg, mode, r) && (A * (100 * P) - B) / T == (100 * A - 1) / t
  {
    assert (k - 1) * T == k * T - T;
    StickyBelow(100 * A - 1, A * (100 * P) - B, k - 1, t, T, B, neg, mode, r);
  }

  lemma Pow10Two(D: int)
    requires 2 <= D
    ensures Pow10(D) == 100 * Pow10(D - 2)
  {
  }

  lemma Regroup(A: int, P: int, k: int, t: int)
    requires k * t == 100 * A
    ensures A * (100 * P) == k * (t * P)
  {
    assert k * (t * P) == (k * t) * P;
    assert A * (100 * P) == (100 * A) * P;
  }

  /**
   * Counterexample to the cancellation fix: 10 - 9.5 cancels to 5 * 10^14
   * units of 10^-15 at a gap of one.  add_r as written multiplies up from
   * exponent 1 and returns 5.0; the corrected add_r returns 0.5, the exact
   * difference.
   */
  lemma CancelCounterexample()
    ensures var lhs, rhs := Pack(false, 1, MinSig), Pack(true, 0, 9_500_000_000_000_000);
      var S := Plus(ValueOf(lhs), ValueOf(rhs));
      AddRAsWritten(lhs, rhs, ToNearest) == Pack(false, 0, 5_000_000_000_000_000) &&
      AddR(lhs, rhs, ToNearest) == Pack(false, -1, 5_000_000_000_000_000) &&
      !Same(ValueOf(AddRAsWritten(lhs, rhs, ToNearest)), S) &&
      Same(ValueOf(AddR(lhs, rhs, ToNearest)), S)
  {
    var lhs, rhs := Pack(false, 1, MinSig), Pack(true, 0, 9_500_000_000_000_000);
    Pow10Table();
    assert Align(lhs, rhs, Cutoff) == Aligned(Bias, 9_500_000_000_000_000, 1, 1);
    assert Align(lhs, rhs, Reach) == Aligned(Bias, 9_500_000_000_000_000, 1, 1);
    assert Widen(500_000_000_000_000, false, 1) == Raw(false, 0, 5_000_000_000_000_000);
    assert Widen(500_000_000_000_000, false, 0) == Raw(false, -1, 5_000_000_000_000_000);
  }

  /**
   * Counterexample to the sticky path at a gap of seventeen:
   * 10^17 - 9.999999999999999 is 99999999999999990.000000000000001, whose
   * sixteen-digit rounding to nearest is 9.999999999999999e16.  add_r as
   * written stands in 10^17 - 10 for it and rounds up to 1.000000000000000e17.
   */
  lemma StickyGapCounterexample()
    ensures var lhs, rhs := Pack(false, 17, MinSig), Pack(true, 0, MaxSig);
      AddRAsWritten(lhs, rhs, ToNearest) == Pack(false, 17, MinSig) &&
      AddR(lhs, rhs, ToNearest) == Pack(false, 16, MaxSig)
  {
    var lhs, rhs := Pack(false, 17, MinSig), Pack(true, 0, MaxSig);
    Pow10Table();
    ShiftTable(2);
    ShiftTable(17);
    assert Align(lhs, rhs, Cutoff) == Aligned(100 * MinSig, 1, 17, 2);
    assert Pow10(17) == 10 * Pow10(16);
    assert Align(lhs, rhs, Reach) == Aligned(MinSig * Pow10(17), MaxSig, 17, 17);
  }
}
