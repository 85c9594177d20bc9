/**
 * ceil, floor, trunc, nearbyint, round and roundeven of dm_double.c and
 * dm_double_m.c (the two files share the algorithm).
 *
 * A canonical value with exponent e in [0, 15] has 15 - e digits of its
 * significand below the units place; the rounding functions clear them by
 * dividing by shift = 10^(15 - e), the entry CUTOFF - e of makeShift.  The
 * lemmas state the result as the integer n / d rounded in the function's
 * mode, where n / d = significand / 10^(15 - e) is the magnitude of the
 * argument (Rounding.RoundsTo).
 */
module Integral {
  import opened Pow
  import opened Decimal
  import opened Rounding
  import opened Exact

  /** CUTOFF: from this exponent on a canonical value has no fractional digits. */
  const Cutoff: int := 16

  /**
   * makeShift: one entry for exponent -1, then 10^0 .. 10^15 for exponents
   * 15 .. 0 (in reverse), then 10^16 twice.
   */
  const MakeShift: seq<int> := [
    1, 1, 10, 100, 1000, 10000, 100000, 1000000, 10000000, 100000000,
    1000000000, 10000000000, 100000000000, 1000000000000, 10000000000000,
    100000000000000, 1000000000000000, 10000000000000000, 10000000000000000]

  /** `makeShift[CUTOFF - exponent]`: the weight of the units digit within the significand. */
  function Shift(e: int): (p: int)
    requires -1 <= e < Cutoff
    ensures p == Pow10(15 - e)
  {
    Pow10Table();
    MakeShift[Cutoff - e]
  }

  /** The value has no digits after the decimal point. */
  predicate IsIntegral(r: Dec)
  {
    IsZero(r) || (IsNormal(r) && (15 <= r.exp || (0 <= r.exp && Sig(r) % Pow10(15 - r.exp) == 0)))
  }

  /** The magnitude of an integral value, as an integer. */
  function IntMagnitude(r: Dec): nat
    requires IsIntegral(r)
  {
    if IsZero(r) then 0
    else if 15 <= r.exp then MulLe(0, 0, Sig(r), Pow10(r.exp - 15)); Sig(r) * Pow10(r.exp - 15)
    else Sig(r) / Pow10(15 - r.exp)
  }

  /** An integral record stands for the integer (-1)^sign * IntMagnitude. */
  lemma IntMagnitudeIsValue(r: Dec)
    requires IsIntegral(r)
    ensures Same(ValueOf(r), Fin(if r.neg then -(IntMagnitude(r) as int) else IntMagnitude(r), 0))
  {
    if IsNormal(r) {
      var m: int := IntMagnitude(r);
      var s := Sig(r);
      var sm := if r.neg then -s else s;
      var mm := if r.neg then -m else m;
      assert ValueOf(r) == Fin(sm, r.exp - 15);
      if 15 <= r.exp {
        var p := Pow10(r.exp - 15);
        SignedProduct(r.neg, s, p, m);
        SameByScale(sm, r.exp - 15, mm, 0);
      } else {
        var p := Pow10(15 - r.exp);
        DivModParts(s, p, m, 0);
        SignedProduct(r.neg, m, p, s);
        SameByScale(mm, 0, sm, r.exp - 15);
      }
    }
  }

  /** A sign carried through a product. */
  lemma SignedProduct(neg: bool, a: int, p: int, b: int)
    requires a * p == b
    ensures (if neg then -a else a) * p == (if neg then -b else b)
  {
    if neg {
      assert (-a) * p == -(a * p);
    }
  }

  /** Integral magnitudes scale back to the significand: m * 10^15 = significand * 10^exponent. */
  lemma IntMagnitudeScales(r: Dec)
    requires IsIntegral(r) && IsNormal(r)
    ensures 0 <= r.exp && IntMagnitude(r) * Pow10(15) == Sig(r) * Pow10(r.exp)
  {
    var m := IntMagnitude(r);
    var s := Sig(r);
    if 15 <= r.exp {
      var p := Pow10(r.exp - 15);
      Pow10Add(15, r.exp - 15);
      Reassociate(s, p, Pow10(15));
    } else {
      var p := Pow10(15 - r.exp);
      DivModParts(s, p, m, 0);
      Pow10Add(15 - r.exp, r.exp);
      Reassociate(m, p, Pow10(r.exp));
    }
  }

  lemma Reassociate(a: int, b: int, c: int)
    ensures (a * b) * c == a * (c * b) && (a * b) * c == a * (b * c)
  {
  }

  /** Canonical integral records of one sign and one magnitude are the same record. */
  lemma IntMagnitudeInjective(a: Dec, b: Dec)
    requires IsIntegral(a) && IsIntegral(b) && IsCanonical(a) && IsCanonical(b)
    requires a.neg == b.neg && IntMagnitude(a) == IntMagnitude(b)
    ensures a == b
  {
    if IsNormal(a) && IsNormal(b) {
      IntMagnitudeScales(a);
      IntMagnitudeScales(b);
      if a.exp < b.exp {
        SameScale(Sig(a), a.exp, Sig(b), b.exp);
      } else if b.exp < a.exp {
        SameScale(Sig(b), b.exp, Sig(a), a.exp);
      }
      ScaleLessBackBoth(Sig(a), Sig(b), Pow10(a.exp));
    } else if IsNormal(a) {
      NormalMagnitude(a);
    } else if IsNormal(b) {
      NormalMagnitude(b);
    }
  }

  lemma ScaleLessBackBoth(x: int, y: int, p: int)
    requires 0 < p && x * p == y * p
    ensures x == y
  {
    if x < y {
      ScaleLess(x, y, p);
    } else if y < x {
      ScaleLess(y, x, p);
    }
  }

  /** Canonical significands at different exponents never scale to the same integer. */
  lemma SameScale(sa: int, ea: nat, sb: int, eb: nat)
    requires MinSig <= sa <= MaxSig && MinSig <= sb <= MaxSig && ea < eb
    ensures sa * Pow10(ea) < sb * Pow10(eb)
  {
    var pa, pd := Pow10(ea), Pow10(eb - ea);
    Pow10Add(eb - ea, ea);
    Pow10Lt(0, eb - ea);
    assert Pow10(0) == 1;
    MulLe(10, MinSig, pd, sb);
    ScaleLess(sa, pd * sb, pa);
    Reassociate(sb, pd, pa);
  }

  /** A normal integral value is at least one. */
  lemma NormalMagnitude(r: Dec)
    requires IsIntegral(r) && IsNormal(r)
    ensures IntMagnitude(r) >= 1
  {
    IntMagnitudeScales(r);
    if IntMagnitude(r) == 0 {
      MulLe(1, 1, Sig(r), Pow10(r.exp));
    }
  }

  /** The quotient and residue of a canonical significand by the units weight at exponent e. */
  lemma QuotientBounds(sig: int, e: int, shift: int, q: int, rem: int, inc: int)
    requires MinSig <= sig <= MaxSig && -1 <= e < Cutoff && shift == Pow10(15 - e)
    requires q == sig / shift && rem == sig % shift && (inc == 0 || inc == 1)
    ensures sig == q * shift + rem && 0 <= rem < shift && sig - rem == q * shift
    ensures 0 <= e ==> MinSig <= q * shift
    ensures e == -1 ==> q == 0
    ensures (q * shift) % shift == 0 && (q * shift) / shift == q
    ensures 0 <= (q + inc) * shift <= Bias
    ensures ((q + inc) * shift) % shift == 0 && ((q + inc) * shift) / shift == q + inc
    ensures (q + inc) * shift == 0 || MinSig <= (q + inc) * shift
  {
    var k := 15 - e;
    Pow10Add(k, 16 - k);
    Pow10Table();
    if 0 <= e {
      Pow10Add(k, 15 - k);
      ScaledQuotient(sig, shift, Pow10(16 - k), Pow10(15 - k), q, rem, inc);
    } else {
      ScaledQuotient(sig, shift, 1, 0, q, rem, inc);
    }
  }

  /**
   * The arithmetic of QuotientBounds with the powers of ten named: BIAS is
   * `top` units and, when low > 0, 10^15 is `low` units.
   */
  lemma ScaledQuotient(sig: int, shift: int, top: nat, low: nat, q: int, rem: int, inc: int)
    requires MinSig <= sig <= MaxSig && 0 < shift && top * shift == Bias
    requires low == 0 ==> top == 1
    requires low == 0 || low * shift == MinSig
    requires q == sig / shift && rem == sig % shift && (inc == 0 || inc == 1)
    ensures sig == q * shift + rem && 0 <= rem < shift && sig - rem == q * shift
    ensures low > 0 ==> MinSig <= q * shift
    ensures low == 0 ==> q == 0
    ensures (q * shift) % shift == 0 && (q * shift) / shift == q
    ensures 0 <= (q + inc) * shift <= Bias
    ensures ((q + inc) * shift) % shift == 0 && ((q + inc) * shift) / shift == q + inc
    ensures (q + inc) * shift == 0 || MinSig <= (q + inc) * shift
  {
    DivModParts(sig, shift, q, rem);
    MulDivExact(q, shift);
    MulDivExact(q + inc, shift);
    if low > 0 {
      QuotientAbove(sig, shift, top, low, q, rem, inc);
    } else {
      DivModUnique(sig, shift, 0, sig);
    }
  }

  /** With 10^15 a whole number of units, the rounded quotient stays between 10^15 and BIAS once scaled back. */
  lemma QuotientAbove(sig: int, shift: int, top: nat, low: nat, q: int, rem: int, inc: int)
    requires MinSig <= sig <= MaxSig && 0 < shift && top * shift == Bias && 0 < low && low * shift == MinSig
    requires sig == q * shift + rem && 0 <= rem < shift && (inc == 0 || inc == 1)
    ensures MinSig <= q * shift && MinSig <= (q + inc) * shift <= Bias
  {
    assert (q + 1) * shift == q * shift + shift;
    assert q * shift < top * shift;
    ScaleLessBack(q, top, shift);
    MulLe(q + inc, shift, top, shift);
    assert low * shift < (q + 1) * shift;
    ScaleLessBack(low, q + 1, shift);
    MulLe(low, shift, q, shift);
    MulLe(low, shift, q + inc, shift);
  }

  /** A multiple of 10^(15 - e) in [10^15, 10^16) packed at exponent e is integral, of magnitude s / 10^(15 - e). */
  lemma PackedMagnitude(neg: bool, e: int, s: int)
    requires 0 <= e < Cutoff && MinSig <= s <= MaxSig && s % Pow10(15 - e) == 0
    ensures IsIntegral(Pack(neg, e, s)) && IntMagnitude(Pack(neg, e, s)) == s / Pow10(15 - e)
  {
    if e == 15 {
      assert Pow10(0) == 1;
    }
  }

  /** The carry of a rounding at exponent e: 10^15 at exponent e + 1 is 10^16 units of 10^(e - 15). */
  lemma CarryMagnitude(neg: bool, e: int)
    requires -1 <= e < Cutoff
    ensures IsIntegral(Pack(neg, e + 1, MinSig))
    ensures IntMagnitude(Pack(neg, e + 1, MinSig)) == Bias / Pow10(15 - e)
  {
    var a := e + 1;
    var y := Pack(neg, a, MinSig);
    assert Sig(y) == MinSig && y.exp == a && IsNormal(y);
    Anchors();
    if a < 15 {
      Pow10Add(15 - a, a);
      Pow10Add(16 - a, a);
      Split(Pow10(a), Pow10(15 - a), Pow10(16 - a));
    }
  }

  /** 10^15 and 10^16 are both multiples of 10^a: a scalar step of CarryMagnitude. */
  lemma Split(pa: int, p15: int, p16: int)
    requires 0 < p15 && 0 < p16 && MinSig == p15 * pa && Bias == p16 * pa
    ensures MinSig % p15 == 0 && MinSig / p15 == pa && Bias / p16 == pa
  {
    MulDivExact(pa, p15);
    MulDivExact(pa, p16);
  }

  /** The powers of ten the field bounds are made of. */
  lemma Anchors()
    ensures Pow10(0) == 1 && Pow10(1) == 10 && Pow10(15) == MinSig && Pow10(16) == Bias
  {
    Pow10Table();
  }

  /** 1.0, the one record of magnitude one. */
  lemma UnitMagnitude(neg: bool)
    ensures IsIntegral(Pack(neg, 0, MinSig)) && IntMagnitude(Pack(neg, 0, MinSig)) == 1
  {
    Pow10Table();
  }

  /** A positive multiple of p is at least p. */
  lemma MultipleAtLeast(s: int, p: int)
    requires 0 < s && 0 < p && s % p == 0
    ensures p <= s
  {
    DivModParts(s, p, s / p, 0);
    MulLe(1, p, s / p, p);
  }

  /** A canonical significand at a negative exponent is below one unit, and below half a unit under exponent -1. */
  lemma Tiny(sig: int, e: int)
    requires MinSig <= sig <= MaxSig && e < 0
    ensures sig < Pow10(15 - e)
    ensures e < -1 ==> 2 * sig < Pow10(15 - e)
  {
    Pow10Table();
    Pow10Le(16, 15 - e);
    if e < -1 {
      Pow10Le(17, 15 - e);
    }
  }

  /**
   * The tail the rounding functions share: a rounded significand s that
   * reached BIAS becomes 10^15 at the next exponent (the exponent is at most
   * 15, so this cannot overflow), and one rounded to nothing gives a signed
   * zero.
   */
  function Settle(neg: bool, e: int, s: int): (r: Dec)
    requires -1 <= e < Cutoff && 0 <= s <= Bias && s % Pow10(15 - e) == 0
    requires s == 0 || MinSig <= s
    ensures IsCanonical(r) && IsIntegral(r) && r.neg == neg
    ensures IntMagnitude(r) == s / Pow10(15 - e)
  {
    if s == Bias then
      CarryMagnitude(neg, e);
      Pack(neg, e + 1, MinSig)
    else if s != 0 then
      Pow10Table();
      MultipleAtLeast(s, Pow10(15 - e));
      PackedMagnitude(neg, e, s);
      Pack(neg, e, s)
    else
      SignedZero(neg)
  }

  /**
   * The main path the rounding functions share, for exponents -1 to 15:
   * the digits below the units are cleared (`sig - rem`, a multiple of
   * `shift`), `inc` units are added, and the result is settled.
   */
  function AddUnits(x: Dec, inc: int): (r: Dec)
    requires IsCanonicalNormal(x) && -1 <= x.exp < Cutoff && (inc == 0 || inc == 1)
    ensures IsCanonical(r) && IsIntegral(r) && r.neg == x.neg
    ensures IntMagnitude(r) == Sig(x) / Shift(x.exp) + inc
  {
    var shift := Shift(x.exp);
    var sig := Sig(x);
    var q, rem := sig / shift, sig % shift;
    QuotientBounds(sig, x.exp, shift, q, rem, inc);
    Settle(x.neg, x.exp, (q + inc) * shift)
  }

  /** The result of rounding a value below one unit: 1.0 when a unit is added, else zero, with the argument's sign. */
  function OneOrZero(neg: bool, inc: int): (r: Dec)
    requires inc == 0 || inc == 1
    ensures IsCanonical(r) && IsIntegral(r) && r.neg == neg && IntMagnitude(r) == inc
  {
    if inc == 1 then
      UnitMagnitude(neg);
      Pack(neg, 0, MinSig)
    else
      SignedZero(neg)
  }

  /**
   * dm_double_ceil: the least integer not below x.  The magnitude of a
   * positive value rounds up, that of a negative one down.
   */
  function Ceil(x: Dec): (r: Dec)
    requires IsCanonical(x)
    ensures IsCanonical(r) && r.neg == x.neg
    ensures !IsNormal(x) || Cutoff <= x.exp ==> r == x
    ensures IsNormal(x) && x.exp < Cutoff ==>
      IsIntegral(r) && RoundsTo(Sig(x), Pow10(15 - x.exp), x.neg, Upward, IntMagnitude(r))
  {
    if x.exp == SpecialExp then x
    else if 0 > x.exp then
      Tiny(Sig(x), x.exp);
      var r := OneOrZero(x.neg, if x.neg then 0 else 1);
      DecideRoundCorrect(Sig(x), Pow10(15 - x.exp), 0, Sig(x), x.neg, Upward, IntMagnitude(r));
      r
    else if x.exp >= Cutoff then x
    else
      var shift := Shift(x.exp);
      var sig := Sig(x);
      var q, rem := sig / shift, sig % shift;
      var inc := if rem != 0 && !x.neg then 1 else 0;
      DivModParts(sig, shift, q, rem);
      var r := AddUnits(x, inc);
      DecideRoundCorrect(sig, Pow10(15 - x.exp), q, rem, x.neg, Upward, IntMagnitude(r));
      r
  }

  /** dm_double_floor: the greatest integer not above x, ceil with the signs' roles exchanged. */
  function Floor(x: Dec): (r: Dec)
    requires IsCanonical(x)
    ensures IsCanonical(r) && r.neg == x.neg
    ensures !IsNormal(x) || Cutoff <= x.exp ==> r == x
    ensures IsNormal(x) && x.exp < Cutoff ==>
      IsIntegral(r) && RoundsTo(Sig(x), Pow10(15 - x.exp), x.neg, Downward, IntMagnitude(r))
  {
    if x.exp == SpecialExp then x
    else if 0 > x.exp then
      Tiny(Sig(x), x.exp);
      var r := OneOrZero(x.neg, if x.neg then 1 else 0);
      DecideRoundCorrect(Sig(x), Pow10(15 - x.exp), 0, Sig(x), x.neg, Downward, IntMagnitude(r));
      r
    else if x.exp >= Cutoff then x
    else
      var shift := Shift(x.exp);
      var sig := Sig(x);
      var q, rem := sig / shift, sig % shift;
      var inc := if rem != 0 && x.neg then 1 else 0;
      DivModParts(sig, shift, q, rem);
      var r := AddUnits(x, inc);
      DecideRoundCorrect(sig, Pow10(15 - x.exp), q, rem, x.neg, Downward, IntMagnitude(r));
      r
  }

  /** dm_double_trunc: the fraction dropped, so the magnitude never grows. */
  function Trunc(x: Dec): (r: Dec)
    requires IsCanonical(x)
    ensures IsCanonical(r) && r.neg == x.neg
    ensures !IsNormal(x) || Cutoff <= x.exp ==> r == x
    ensures IsNormal(x) && x.exp < Cutoff ==>
      IsIntegral(r) && RoundsTo(Sig(x), Pow10(15 - x.exp), x.neg, TowardZero, IntMagnitude(r))
    ensures IsNormal(x) && x.exp < Cutoff ==> IntMagnitude(r) * Pow10(15 - x.exp) <= Sig(x)
  {
    if x.exp == SpecialExp then x
    else if 0 > x.exp then
      Tiny(Sig(x), x.exp);
      DecideRoundCorrect(Sig(x), Pow10(15 - x.exp), 0, Sig(x), x.neg, TowardZero, 0);
      SignedZero(x.neg)
    else if x.exp >= Cutoff then x
    else
      var shift := Shift(x.exp);
      var sig := Sig(x);
      var q, rem := sig / shift, sig % shift;
      var inc := 0;
      DivModParts(sig, shift, q, rem);
      var r := AddUnits(x, inc);
      DecideRoundCorrect(sig, Pow10(15 - x.exp), q, rem, x.neg, TowardZero, IntMagnitude(r));
      r
  }

  /**
   * Between exponents 0 and 15 trunc keeps the exponent and clears the
   * significand's digits below the units place; what it clears is less
   * than one unit.
   */
  lemma TruncShape(x: Dec)
    requires IsCanonicalNormal(x) && 0 <= x.exp < Cutoff
    ensures var r, p := Trunc(x), Pow10(15 - x.exp);
      IsCanonicalNormal(r) && r.neg == x.neg && r.exp == x.exp &&
      Sig(r) == Sig(x) - Sig(x) % p && Sig(x) % p < p
  {
    var p := Pow10(15 - x.exp);
    var q, rem := Sig(x) / p, Sig(x) % p;
    Pow10Le(15 - x.exp, 15);
    Pow10Table();
    DivModParts(Sig(x), p, q, rem);
    MulLe(1, p, q, p);
  }

  /**
   * dm_double_nearbyint as written.  `arg & SIGN_BIT` reaches
   * dm_decideRound's `int` sign parameter and converts to 0 in both layouts
   * (LayoutA.SignArgumentLost, LayoutB.SignArgumentLost), so the decision is
   * taken as for a positive value; and a value below 0.1 in magnitude
   * becomes zero whatever the mode.
   */
  function NearbyIntAsWritten(x: Dec, mode: int): (r: Dec)
    requires IsCanonical(x)
    ensures IsCanonical(r) && r.neg == x.neg
    ensures !IsNormal(x) || Cutoff <= x.exp ==> r == x
    ensures IsNormal(x) && x.exp < Cutoff ==>
      IsIntegral(r) && RoundsTo(Sig(x), Pow10(15 - x.exp), false, if x.exp < -1 then TowardZero else mode, IntMagnitude(r))
  {
    if x.exp == SpecialExp then x
    else if -1 > x.exp then
      Tiny(Sig(x), x.exp);
      DecideRoundCorrect(Sig(x), Pow10(15 - x.exp), 0, Sig(x), false, TowardZero, 0);
      SignedZero(x.neg)
    else if x.exp >= Cutoff then x
    else
      var shift := Shift(x.exp);
      var sig := Sig(x);
      var q, rem := sig / shift, sig % shift;
      var inc := DecideRound(false, q % 2 == 1, shift - 2 * rem, rem == 0, mode);
      DivModParts(sig, shift, q, rem);
      var r := AddUnits(x, inc);
      DecideRoundCorrect(sig, Pow10(15 - x.exp), q, rem, false, mode, IntMagnitude(r));
      r
  }

  /**
   * dm_double_nearbyint corrected: x rounded as the mode prescribes, by its
   * own sign.  The decision sees the argument's sign, and a value below 0.1
   * in magnitude (under half a unit, so never a tie and never exact) is
   * decided like any other, which gives one unit in the modes that round
   * its magnitude up.
   */
  function NearbyInt(x: Dec, mode: int): (r: Dec)
    requires IsCanonical(x)
    ensures IsCanonical(r) && r.neg == x.neg
    ensures !IsNormal(x) || Cutoff <= x.exp ==> r == x
    ensures IsNormal(x) && x.exp < Cutoff ==>
      IsIntegral(r) && RoundsTo(Sig(x), Pow10(15 - x.exp), x.neg, mode, IntMagnitude(r))
  {
    if x.exp == SpecialExp then x
    else if -1 > x.exp then
      Tiny(Sig(x), x.exp);
      var inc := DecideRound(x.neg, false, 1, false, mode);
      DecideRoundAbove(x.neg, false, 1, Pow10(15 - x.exp) - 2 * Sig(x), mode);
      var r := OneOrZero(x.neg, inc);
      DecideRoundCorrect(Sig(x), Pow10(15 - x.exp), 0, Sig(x), x.neg, mode, IntMagnitude(r));
      r
    else if x.exp >= Cutoff then x
    else
      var shift := Shift(x.exp);
      var sig := Sig(x);
      var q, rem := sig / shift, sig % shift;
      var inc := DecideRound(x.neg, q % 2 == 1, shift - 2 * rem, rem == 0, mode);
      DivModParts(sig, shift, q, rem);
      var r := AddUnits(x, inc);
      DecideRoundCorrect(sig, Pow10(15 - x.exp), q, rem, x.neg, mode, IntMagnitude(r));
      r
  }

  /** dm_double_round: a nearest integer, halfway cases away from zero. */
  function Round(x: Dec): (r: Dec)
    requires IsCanonical(x)
    ensures IsCanonical(r) && r.neg == x.neg
    ensures !IsNormal(x) || Cutoff <= x.exp ==> r == x
    ensures IsNormal(x) && x.exp < Cutoff ==>
      IsIntegral(r) && RoundsTo(Sig(x), Pow10(15 - x.exp), x.neg, ToNearestFromZero, IntMagnitude(r))
  {
    if x.exp == SpecialExp then x
    else if -1 > x.exp then
      Tiny(Sig(x), x.exp);
      DecideRoundCorrect(Sig(x), Pow10(15 - x.exp), 0, Sig(x), x.neg, ToNearestFromZero, 0);
      SignedZero(x.neg)
    else if x.exp >= Cutoff then x
    else
      var shift := Shift(x.exp);
      var sig := Sig(x);
      var q, rem := sig / shift, sig % shift;
      var inc := if shift <= 2 * rem then 1 else 0;
      DivModParts(sig, shift, q, rem);
      var r := AddUnits(x, inc);
      DecideRoundCorrect(sig, Pow10(15 - x.exp), q, rem, x.neg, ToNearestFromZero, IntMagnitude(r));
      r
  }

  /** dm_double_roundeven: a nearest integer, halfway cases to the even one. */
  function RoundEven(x: Dec): (r: Dec)
    requires IsCanonical(x)
    ensures IsCanonical(r) && r.neg == x.neg
    ensures !IsNormal(x) || Cutoff <= x.exp ==> r == x
    ensures IsNormal(x) && x.exp < Cutoff ==>
      IsIntegral(r) && RoundsTo(Sig(x), Pow10(15 - x.exp), x.neg, ToNearest, IntMagnitude(r))
  {
    if x.exp == SpecialExp then x
    else if -1 > x.exp then
      Tiny(Sig(x), x.exp);
      DecideRoundCorrect(Sig(x), Pow10(15 - x.exp), 0, Sig(x), x.neg, ToNearest, 0);
      SignedZero(x.neg)
    else if x.exp >= Cutoff then x
    else
      var shift := Shift(x.exp);
      var sig := Sig(x);
      var q, rem := sig / shift, sig % shift;
      var inc := if shift < 2 * rem then 1 else if shift == 2 * rem && q % 2 == 1 then 1 else 0;
      DivModParts(sig, shift, q, rem);
      var r := AddUnits(x, inc);
      DecideRoundCorrect(sig, Pow10(15 - x.exp), q, rem, x.neg, ToNearest, IntMagnitude(r));
      r
  }

  /**
   * The fixed-mode functions are nearbyint in the mode the header names
   * for each: ceil upward, floor downward, trunc toward zero, round to
   * nearest from zero, roundeven to nearest even.
   */
  lemma FixedModes(x: Dec)
    requires IsCanonical(x)
    ensures Ceil(x) == NearbyInt(x, Upward)
    ensures Floor(x) == NearbyInt(x, Downward)
    ensures Trunc(x) == NearbyInt(x, TowardZero)
    ensures Round(x) == NearbyInt(x, ToNearestFromZero)
    ensures RoundEven(x) == NearbyInt(x, ToNearest)
  {
    if IsNormal(x) && x.exp < Cutoff {
      SameRounding(x, Upward, Ceil(x), NearbyInt(x, Upward));
      SameRounding(x, Downward, Floor(x), NearbyInt(x, Downward));
      SameRounding(x, TowardZero, Trunc(x), NearbyInt(x, TowardZero));
      SameRounding(x, ToNearestFromZero, Round(x), NearbyInt(x, ToNearestFromZero));
      SameRounding(x, ToNearest, RoundEven(x), NearbyInt(x, ToNearest));
    }
  }

  /** Two canonical integral results that round x the same way are the same record. */
  lemma SameRounding(x: Dec, mode: int, a: Dec, b: Dec)
    requires IsNormal(x) && x.exp < Cutoff
    requires IsCanonical(a) && IsIntegral(a) && a.neg == x.neg
    requires IsCanonical(b) && IsIntegral(b) && b.neg == x.neg
    requires RoundsTo(Sig(x), Pow10(15 - x.exp), x.neg, mode, IntMagnitude(a))
    requires RoundsTo(Sig(x), Pow10(15 - x.exp), x.neg, mode, IntMagnitude(b))
    ensures a == b
  {
    RoundsToUnique(Sig(x), Pow10(15 - x.exp), x.neg, mode, IntMagnitude(a), IntMagnitude(b));
    IntMagnitudeInjective(a, b);
  }

  /** Where the sign does not enter the decision, nearbyint as written agrees with the corrected one. */
  lemma NearbyIntAgrees(x: Dec, mode: int)
    requires IsCanonical(x) && (mode == ToNearest || mode == ToNearestFromZero || mode == TowardZero)
    requires x.neg || x.exp >= -1
    ensures NearbyIntAsWritten(x, mode) == NearbyInt(x, mode)
  {
    if IsNormal(x) && x.exp < Cutoff {
      if x.exp < -1 {
        Tiny(Sig(x), x.exp);
      }
      SameRounding(x, mode, NearbyIntAsWritten(x, mode), NearbyInt(x, mode));
    }
  }

  /**
   * Counterexample to the sign-blind decision: -1.5 rounded upward is -1
   * (what ceil gives), but nearbyint as written decides as for +1.5 and
   * gives -2, which lies below the argument.
   */
  lemma NearbyIntSignCounterexample()
    ensures var x := Pack(true, 0, 1_500_000_000_000_000);
      IntMagnitude(NearbyIntAsWritten(x, Upward)) == 2 &&
      NearbyInt(x, Upward) == Ceil(x) && IntMagnitude(Ceil(x)) == 1
  {
    var x := Pack(true, 0, 1_500_000_000_000_000);
    FixedModes(x);
    MinusOneAndHalfAsWritten(x);
    MinusOneAndHalfCeil(x);
  }

  /** nearbyint as written moves -1.5 away from zero when rounding upward. */
  lemma MinusOneAndHalfAsWritten(x: Dec)
    requires x == Pack(true, 0, 1_500_000_000_000_000)
    ensures IntMagnitude(NearbyIntAsWritten(x, Upward)) == 2
  {
    Anchors();
    assert IsCeiling(Sig(x), MinSig, IntMagnitude(NearbyIntAsWritten(x, Upward)));
  }

  /** ceil moves -1.5 toward zero. */
  lemma MinusOneAndHalfCeil(x: Dec)
    requires x == Pack(true, 0, 1_500_000_000_000_000)
    ensures IntMagnitude(Ceil(x)) == 1
  {
    Anchors();
    assert IsFloor(Sig(x), MinSig, IntMagnitude(Ceil(x)));
  }

  /**
   * Counterexample to the flush of small values: 0.01 rounded upward is 1
   * (what ceil gives), but nearbyint as written returns +0 in every mode.
   */
  lemma NearbyIntTinyCounterexample()
    ensures var x := Pack(false, -2, MinSig);
      NearbyIntAsWritten(x, Upward) == SignedZero(false) &&
      NearbyInt(x, Upward) == Ceil(x) && Ceil(x) == Pack(false, 0, MinSig)
  {
    FixedModes(Pack(false, -2, MinSig));
  }
}
