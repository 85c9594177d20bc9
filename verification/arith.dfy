/**
 * The rounding yardstick the arithmetic shares, and mul_r and div_r of
 * dm_double.c and dm_double_m.c (the two files share the algorithms).
 *
 * The 128-bit dm_muldiv_t temporaries are modelled by the integers they
 * hold: WideInt and WideDiv show that each engine call yields the exact
 * integer result while it stays below 2^128, and every value formed here
 * is below 10^34.
 *
 * The yardstick is RoundedTo: the exact magnitude (n / d) * 10^(e - 15)
 * rounded in the mode to sixteen significant digits, before the exponent
 * range is applied (a Raw result).  Flush applies the range the way the
 * library does: above it a signed infinity, below it a signed zero.
 */
module Arith {
  import opened Pow
  import opened Decimal
  import opened Rounding
  import opened Exact
  import opened Integral

  /** A rounded sign, exponent and significand before the exponent range is applied. */
  datatype Raw = Raw(neg: bool, exp: int, sig: int)

  /** The numerator of (n / d) * 10^(e - 15) counted in units of 10^(g - 15). */
  function GridNum(n: int, e: int, g: int): int
  {
    if g <= e then n * Pow10(e - g) else n
  }

  /** The denominator of (n / d) * 10^(e - 15) counted in units of 10^(g - 15). */
  function GridDen(d: int, e: int, g: int): int
  {
    if g <= e then d else d * Pow10(g - e)
  }

  /**
   * w is the magnitude (n / d) * 10^(e - 15) rounded to sixteen digits: at
   * the exponent where its integer part has sixteen digits, rounded as the
   * mode prescribes, or, when that rounding carries to 10^16, 10^15 at the
   * next exponent.
   */
  predicate RoundedTo(n: int, d: int, e: int, mode: int, w: Raw)
  {
    0 < d && MinSig <= w.sig <= MaxSig &&
    ((MinSig <= GridNum(n, e, w.exp) / GridDen(d, e, w.exp) &&
      RoundsTo(GridNum(n, e, w.exp), GridDen(d, e, w.exp), w.neg, mode, w.sig)) ||
     (w.sig == MinSig && MinSig <= GridNum(n, e, w.exp - 1) / GridDen(d, e, w.exp - 1) &&
      RoundsTo(GridNum(n, e, w.exp - 1), GridDen(d, e, w.exp - 1), w.neg, mode, Bias)))
  }

  /** The exponent range applied to a rounded result: a signed infinity above it, a signed zero below it. */
  function Flush(w: Raw): (r: Dec)
    requires MinSig <= w.sig <= MaxSig
    ensures IsCanonical(r) && r.neg == w.neg
    ensures MaxExp < w.exp ==> r == SignedInf(w.neg)
    ensures w.exp < MinExp ==> r == SignedZero(w.neg)
    ensures MinExp <= w.exp <= MaxExp ==> IsCanonicalNormal(r) && r.exp == w.exp && Sig(r) == w.sig
  {
    if MaxExp < w.exp then SignedInf(w.neg)
    else if w.exp < MinExp then SignedZero(w.neg)
    else Pack(w.neg, w.exp, w.sig)
  }

  /**
   * n / t rounded in `mode` to a significand at exponent g, a carry to
   * 10^16 renormalised to 10^15 at g + 1: the rounding step of add_r.
   */
  function RoundQuotient(n: int, t: int, g: int, neg: bool, mode: int): (w: Raw)
    requires 0 < t && MinSig <= n / t <= MaxSig
    ensures w.neg == neg && MinSig <= w.sig <= MaxSig
    ensures (w.exp == g && RoundsTo(n, t, neg, mode, w.sig)) ||
            (w.exp == g + 1 && w.sig == MinSig && RoundsTo(n, t, neg, mode, Bias))
    ensures n / t < MaxSig ==> w.exp == g
  {
    var q, rem := n / t, n % t;
    var s := q + DecideRound(neg, q % 2 == 1, t - 2 * rem, rem == 0, mode);
    DivModParts(n, t, q, rem);
    DecideRoundCorrect(n, t, q, rem, neg, mode, s);
    if s == Bias then Raw(neg, g + 1, MinSig) else Raw(neg, g, s)
  }

  /**
   * A rounding of n / t taken at a grid exponent g above e, t being the
   * power of ten between them, is the sixteen-digit rounding of
   * n * 10^(e - 15).
   */
  lemma OnGrid(n: int, e: int, g: int, t: int, mode: int, w: Raw)
    requires e < g && t == Pow10(g - e) && MinSig <= n / t <= MaxSig
    requires MinSig <= w.sig <= MaxSig
    requires (w.exp == g && RoundsTo(n, t, w.neg, mode, w.sig)) ||
             (w.exp == g + 1 && w.sig == MinSig && RoundsTo(n, t, w.neg, mode, Bias))
    ensures RoundedTo(n, 1, e, mode, w)
  {
    assert GridNum(n, e, g) == n && GridDen(1, e, g) == t;
  }

  /**
   * A magnitude of at most sixteen digits is rounded exactly: the result
   * sits at or below the magnitude's own exponent and holds its digits
   * scaled up, in every mode.
   */
  lemma RoundedToExact(n: int, e: int, mode: int, w: Raw)
    requires 0 < n < Bias && RoundedTo(n, 1, e, mode, w)
    ensures w.exp <= e && w.sig == n * Pow10(e - w.exp)
  {
    if MinSig <= GridNum(n, e, w.exp) / GridDen(1, e, w.exp) &&
       RoundsTo(GridNum(n, e, w.exp), GridDen(1, e, w.exp), w.neg, mode, w.sig) {
      if e < w.exp {
        FewDigits(n, w.exp - e);
      }
      RoundsToWhole(GridNum(n, e, w.exp), w.neg, mode, w.sig);
    } else {
      if e < w.exp - 1 {
        FewDigits(n, w.exp - 1 - e);
      }
      RoundsToWhole(GridNum(n, e, w.exp - 1), w.neg, mode, Bias);
      assert Pow10(e - (w.exp - 1)) == 10 * Pow10(e - w.exp);
    }
  }

  /** Below 10^16, dividing by a power of ten above one leaves fewer than sixteen digits. */
  lemma FewDigits(n: int, k: int)
    requires 0 < n < Bias && 1 <= k
    ensures n / Pow10(k) < MinSig
  {
    var p := Pow10(k);
    Pow10Le(1, k);
    DivModParts(n, p, n / p, n % p);
    if n / p >= MinSig {
      MulLe(MinSig, 10, n / p, p);
    }
  }

  // ---------------------------------------------------------------- mul_r

  /** The product's special cases, in the source's order: NaN first, then inf * 0, inf, zero. */
  function MulSpecial(lhs: Dec, rhs: Dec): (r: Dec)
    requires !IsNormal(lhs) || !IsNormal(rhs)
    ensures IsNaN(lhs) ==> r == lhs
    ensures !IsNaN(lhs) && IsNaN(rhs) ==> r == rhs
    ensures !IsNaN(lhs) && !IsNaN(rhs) ==> r.neg == (lhs.neg != rhs.neg)
    ensures !IsNaN(lhs) && !IsNaN(rhs) && ((IsInf(lhs) && IsZero(rhs)) || (IsZero(lhs) && IsInf(rhs))) ==> r == DefaultNaN(r.neg)
    ensures (IsInf(lhs) && (IsInf(rhs) || IsNormal(rhs))) || (IsInf(rhs) && IsNormal(lhs)) ==> IsInf(r)
    ensures (IsZero(lhs) && (IsZero(rhs) || IsNormal(rhs))) || (IsZero(rhs) && IsNormal(lhs)) ==> IsZero(r)
  {
    var neg := lhs.neg != rhs.neg;
    if IsNaN(lhs) then lhs
    else if IsNaN(rhs) then rhs
    else if (IsInf(lhs) && IsZero(rhs)) || (IsZero(lhs) && IsInf(rhs)) then DefaultNaN(neg)
    else if IsInf(lhs) || IsInf(rhs) then SignedInf(neg)
    else SignedZero(neg)
  }

  /**
   * The significand of the product of two normal values, n = 10^30 .. 10^32,
   * divided by 10^15 or 10^16 so that sixteen digits remain, and rounded.
   * `carry` is the renormalisation of a rounding to 10^16; mul_r as written
   * does not have it.
   */
  function MulRounded(lhs: Dec, rhs: Dec, mode: int, carry: bool): (w: Raw)
    requires IsCanonicalNormal(lhs) && IsCanonicalNormal(rhs)
    ensures w.neg == (lhs.neg != rhs.neg)
    ensures MinSig <= w.sig <= Bias
    ensures lhs.exp + rhs.exp <= w.exp <= lhs.exp + rhs.exp + 1
    ensures carry ==> RoundedTo(Sig(lhs) * Sig(rhs), 1, lhs.exp + rhs.exp - 15, mode, w)
  {
    var neg := lhs.neg != rhs.neg;
    var n := Sig(lhs) * Sig(rhs);
    var e := lhs.exp + rhs.exp;
    ProductBounds(Sig(lhs), Sig(rhs), n);
    var big := n >= Bias * MinSig;
    var t := if big then MinSig * 10 else MinSig;
    var g := if big then e + 1 else e;
    Anchors();
    var q, rem := n / t, n % t;
    var s := q + DecideRound(neg, q % 2 == 1, t - 2 * rem, rem == 0, mode);
    if carry then
      var w := RoundQuotient(n, t, g, neg, mode);
      OnGrid(n, e - 15, g, t, mode, w);
      w
    else
      DivModParts(n, t, q, rem);
      Raw(neg, g, s)
  }

  /** The significand product lies in [10^30, 10^32), so its quotient by 10^15 or 10^16 has sixteen digits. */
  lemma ProductBounds(a: int, b: int, n: int)
    requires MinSig <= a <= MaxSig && MinSig <= b <= MaxSig && n == a * b
    ensures MinSig * MinSig <= n < Bias * Bias
    ensures n < Bias * MinSig ==> MinSig <= n / MinSig <= MaxSig
    ensures n >= Bias * MinSig ==> MinSig <= n / (MinSig * 10) < MaxSig
  {
    MulLe(MinSig, MinSig, a, b);
    MulLt(a, b, Bias, Bias);
    if n < Bias * MinSig {
      DivBetween(n, MinSig, MinSig, Bias);
    } else {
      MulLe(a, b, MaxSig, MaxSig);
      DivBetween(n, MinSig * 10, MinSig, MaxSig);
    }
  }

  /** lo * t <= n < hi * t puts n / t in [lo, hi). */
  lemma DivBetween(n: nat, t: int, lo: nat, hi: nat)
    requires 0 < t && lo * t <= n < hi * t
    ensures lo <= n / t < hi
  {
    DivAtLeast(n, t, lo);
    DivBelow(n, t, hi);
  }

  lemma DivAtLeast(n: nat, t: int, lo: nat)
    requires 0 < t && lo * t <= n
    ensures lo <= n / t
  {
    DivModParts(n, t, n / t, n % t);
    if n / t < lo {
      MulLe(n / t + 1, t, lo, t);
    }
  }

  lemma DivBelow(n: nat, t: int, hi: nat)
    requires 0 < t && n < hi * t
    ensures n / t < hi
  {
    DivModParts(n, t, n / t, n % t);
    if n / t >= hi {
      MulLe(hi, t, n / t, t);
    }
  }

  /**
   * dm_double_mul_r as written.  A rounding that carries the significand
   * to 10^16 is packed as it is, which gives a record that is not
   * canonical (MulCarryCounterexample).
   */
  function MulRAsWritten(lhs: Dec, rhs: Dec, mode: int): (r: Dec)
    requires IsCanonical(lhs) && IsCanonical(rhs)
    ensures !IsNormal(lhs) || !IsNormal(rhs) ==> r == MulSpecial(lhs, rhs)
    ensures IsNormal(lhs) && IsNormal(rhs) ==> r.neg == (lhs.neg != rhs.neg)
  {
    if !IsNormal(lhs) || !IsNormal(rhs) then MulSpecial(lhs, rhs)
    else
      var neg := lhs.neg != rhs.neg;
      var e := lhs.exp + rhs.exp;
      if e > MaxExp then SignedInf(neg)
      else if e < MinExp - 1 then SignedZero(neg)
      else
        var w := MulRounded(lhs, rhs, mode, false);
        if w.exp > MaxExp then SignedInf(neg)
        else if w.exp < MinExp then SignedZero(neg)
        else Pack(neg, w.exp, w.sig)
  }

  /**
   * dm_double_mul_r corrected: a rounding to 10^16 becomes 10^15 at the
   * next exponent, as add_r does.  The product of two normal values is the
   * exact product rounded to sixteen digits, flushed to a signed infinity
   * or zero outside the exponent range.
   */
  function MulR(lhs: Dec, rhs: Dec, mode: int): (r: Dec)
    requires IsCanonical(lhs) && IsCanonical(rhs)
    ensures IsCanonical(r)
    ensures !IsNormal(lhs) || !IsNormal(rhs) ==> r == MulSpecial(lhs, rhs)
    ensures IsNormal(lhs) && IsNormal(rhs) ==> r == Flush(MulRounded(lhs, rhs, mode, true))
  {
    if !IsNormal(lhs) || !IsNormal(rhs) then MulSpecial(lhs, rhs)
    else
      var neg := lhs.neg != rhs.neg;
      var e := lhs.exp + rhs.exp;
      var w := MulRounded(lhs, rhs, mode, true);
      if e > MaxExp then SignedInf(neg)
      else if e < MinExp - 1 then SignedZero(neg)
      else Flush(w)
  }

  /**
   * 4000000000000008e-15 * 2499999999999995e-15 = 9.99999999999999999...96:
   * the product rounds to 10^16 under ties-to-even, which mul_r as written
   * packs as a significand of 10^16 at exponent 0, a record that is not
   * canonical; the corrected mul_r gives 10^15 at exponent 1, that is 10.
   */
  lemma MulCarryCounterexample()
    ensures var lhs, rhs := Pack(false, 0, 4000000000000008), Pack(false, 0, 2499999999999995);
      MulRAsWritten(lhs, rhs, ToNearest) == Pack(false, 0, Bias) &&
      !IsCanonical(MulRAsWritten(lhs, rhs, ToNearest)) &&
      MulR(lhs, rhs, ToNearest) == Pack(false, 1, MinSig)
  {
    var lhs, rhs := Pack(false, 0, 4000000000000008), Pack(false, 0, 2499999999999995);
    var n := Sig(lhs) * Sig(rhs);
    assert n == 9999999999999999999999999999960;
    assert n / MinSig == MaxSig && n % MinSig == 999999999999960;
  }

  // ---------------------------------------------------------------- div_r

  /** The quotient's special cases, in the source's order: NaN first, then 0/0 and inf/inf, inf, zero. */
  function DivSpecial(lhs: Dec, rhs: Dec): (r: Dec)
    requires !IsNormal(lhs) || !IsNormal(rhs)
    ensures IsNaN(lhs) ==> r == lhs
    ensures !IsNaN(lhs) && IsNaN(rhs) ==> r == rhs
    ensures !IsNaN(lhs) && !IsNaN(rhs) ==> r.neg == (lhs.neg != rhs.neg)
    ensures ((IsZero(lhs) && IsZero(rhs)) || (IsInf(lhs) && IsInf(rhs))) ==> IsNaN(r)
    ensures !IsNaN(lhs) && !IsNaN(rhs) && ((IsZero(lhs) && IsZero(rhs)) || (IsInf(lhs) && IsInf(rhs))) ==> r == DefaultNaN(r.neg)
    ensures (IsInf(lhs) && !IsNaN(rhs) && !IsInf(rhs)) || (IsZero(rhs) && IsNormal(lhs)) ==> IsInf(r)
    ensures (IsZero(lhs) && !IsNaN(rhs) && !IsZero(rhs)) || (IsInf(rhs) && IsNormal(lhs)) ==> IsZero(r)
  {
    var neg := lhs.neg != rhs.neg;
    if IsNaN(lhs) then lhs
    else if IsNaN(rhs) then rhs
    else if (IsZero(lhs) && IsZero(rhs)) || (IsInf(lhs) && IsInf(rhs)) then DefaultNaN(neg)
    else if IsInf(lhs) || IsZero(rhs) then SignedInf(neg)
    else SignedZero(neg)
  }

  /**
   * The ratio a / b of two sixteen-digit significands lies in (0.1, 10):
   * a * 10^16 / b reaches 10^16 exactly when a >= b, and dividing by b or
   * 10b as the source chooses leaves sixteen digits that rounding cannot
   * carry to 10^16.
   */
  lemma QuotientBoundsDiv(a: int, b: int)
    requires MinSig <= a <= MaxSig && MinSig <= b <= MaxSig
    ensures (a * Bias) / b >= Bias <==> a >= b
    ensures a >= b ==> MinSig <= (a * Bias) / (b * 10) <= MaxSig
    ensures a >= b && (a * Bias) / (b * 10) == MaxSig ==> (a * Bias) % (b * 10) == 0
    ensures a < b ==> MinSig <= (a * Bias) / b < MaxSig
  {
    var n := a * Bias;
    if a >= b {
      MulLe(b, Bias, a, Bias);
      DivAtLeast(n, b, Bias);
      assert MinSig * (b * 10) == b * Bias;
      assert a < b * 10;
      MulLt(a, Bias, b * 10, Bias + 1);
      assert n < Bias * (b * 10);
      DivBetween(n, b * 10, MinSig, Bias);
      if n / (b * 10) == MaxSig {
        DivModParts(n, b * 10, MaxSig, n % (b * 10));
        MulLe(b * 10, MaxSig, b * 10, MaxSig);
        assert MaxSig * (b * 10) <= n;
        MulLe(a, Bias, MaxSig, Bias);
        MulDivExact(a, Bias);
      }
    } else {
      MulLt(a, Bias, b, Bias + 1);
      DivBelow(n, b, Bias);
      assert b <= 10 * a;
      MulLe(MinSig, b, MinSig, 10 * a);
      assert MinSig * b <= n;
      assert (b - a) * Bias >= Bias;
      assert n < MaxSig * b;
      DivBetween(n, b, MinSig, MaxSig);
    }
  }

  /**
   * The quotient of two normal values: a * 10^16 / b, divided again by ten
   * when it has seventeen digits, rounded.  The exact ratio is
   * (a * 10^16 / b) * 10^(e - 16) with e the difference of exponents, and
   * the result is its sixteen-digit rounding, never a carry.
   */
  function DivRounded(lhs: Dec, rhs: Dec, mode: int): (w: Raw)
    requires IsCanonicalNormal(lhs) && IsCanonicalNormal(rhs)
    ensures w.neg == (lhs.neg != rhs.neg)
    ensures lhs.exp - rhs.exp - 1 <= w.exp <= lhs.exp - rhs.exp
    ensures w.exp == lhs.exp - rhs.exp <==> Sig(lhs) >= Sig(rhs)
    ensures RoundedTo(Sig(lhs) * Bias, Sig(rhs), lhs.exp - rhs.exp - 1, mode, w)
  {
    var neg := lhs.neg != rhs.neg;
    var n := Sig(lhs) * Bias;
    var e := lhs.exp - rhs.exp;
    QuotientBoundsDiv(Sig(lhs), Sig(rhs));
    var big := n / Sig(rhs) >= Bias;
    var d := if big then Sig(rhs) * 10 else Sig(rhs);
    var g := if big then e else e - 1;
    var q, rem := n / d, n % d;
    var s := q + DecideRound(neg, q % 2 == 1, d - 2 * rem, rem == 0, mode);
    DivModParts(n, d, q, rem);
    DecideRoundCorrect(n, d, q, rem, neg, mode, s);
    Anchors();
    assert GridNum(n, e - 1, g) == n && GridDen(Sig(rhs), e - 1, g) == d;
    Raw(neg, g, s)
  }

  /**
   * dm_double_div_r: NaNs and the special cases first, then a quotient
   * whose exponent is certainly out of range flushes early, and otherwise
   * the exact quotient rounded to sixteen digits and flushed.
   */
  function DivR(lhs: Dec, rhs: Dec, mode: int): (r: Dec)
    requires IsCanonical(lhs) && IsCanonical(rhs)
    ensures IsCanonical(r)
    ensures !IsNormal(lhs) || !IsNormal(rhs) ==> r == DivSpecial(lhs, rhs)
    ensures IsNormal(lhs) && IsNormal(rhs) ==> r == Flush(DivRounded(lhs, rhs, mode))
  {
    if !IsNormal(lhs) || !IsNormal(rhs) then DivSpecial(lhs, rhs)
    else
      var neg := lhs.neg != rhs.neg;
      var e := lhs.exp - rhs.exp;
      var w := DivRounded(lhs, rhs, mode);
      if e > MaxExp + 1 then SignedInf(neg)
      else if e < MinExp then SignedZero(neg)
      else Flush(w)
  }
}
