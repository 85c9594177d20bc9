/**
 * The exact value a record stands for, as an independent yardstick for the
 * operations: a finite value is an integer times a power of ten, compared
 * by scaling both to the smaller exponent, and the two infinities close the
 * line.  NaN has no value.
 */
module Exact {
  import opened Pow
  import opened Decimal

  datatype Ext = NegInf | Fin(m: int, e: int) | PosInf

  /** The value of a record other than NaN: (-1)^sign * significand * 10^(exponent - 15), or 0, or an infinity. */
  function ValueOf(d: Dec): Ext
    requires !IsNaN(d)
  {
    if IsInf(d) then (if d.neg then NegInf else PosInf)
    else if IsZero(d) then Fin(0, 0)
    else Fin(if d.neg then -Sig(d) else Sig(d), d.exp - 15)
  }

  /** The smaller of two exponents. */
  function Base(a: int, b: int): int
  {
    if a <= b then a else b
  }

  /** m * 10^(e - base): the value in units of 10^base. */
  function Scaled(m: int, e: int, base: int): int
    requires base <= e
  {
    m * Pow10(e - base)
  }

  predicate Less(a: Ext, b: Ext)
  {
    match a
    case NegInf => !b.NegInf?
    case PosInf => false
    case Fin(ma, ea) =>
      match b
      case NegInf => false
      case PosInf => true
      case Fin(mb, eb) => Scaled(ma, ea, Base(ea, eb)) < Scaled(mb, eb, Base(ea, eb))
  }

  /** The exact sum of two finite values, at the smaller of their exponents. */
  function Plus(a: Ext, b: Ext): (s: Ext)
    requires a.Fin? && b.Fin?
    ensures s.Fin? && s.e == Base(a.e, b.e)
  {
    var base := Base(a.e, b.e);
    Fin(Scaled(a.m, a.e, base) + Scaled(b.m, b.e, base), base)
  }

  /** The additive inverse: the integer part changes sign and the infinities swap. */
  function Negate(a: Ext): Ext
  {
    match a
    case NegInf => PosInf
    case PosInf => NegInf
    case Fin(m, e) => Fin(-m, e)
  }

  /** Numeric equality. */
  predicate Same(a: Ext, b: Ext)
  {
    match a
    case NegInf => b.NegInf?
    case PosInf => b.PosInf?
    case Fin(ma, ea) =>
      match b
      case Fin(mb, eb) => Scaled(ma, ea, Base(ea, eb)) == Scaled(mb, eb, Base(ea, eb))
      case _ => false
  }

  /** Scaling keeps the sign of the integer part. */
  lemma ScaledSign(m: int, e: int, base: int)
    requires base <= e
    ensures m > 0 ==> Scaled(m, e, base) > 0
    ensures m < 0 ==> Scaled(m, e, base) < 0
    ensures m == 0 ==> Scaled(m, e, base) == 0
  {
    var p := Pow10(e - base);
    if m > 0 {
      MulLe(1, 1, m, p);
    } else if m < 0 {
      MulLe(1, 1, -m, p);
      assert m * p == -((-m) * p);
    }
  }

  /**
   * A significand in [10^15, 10^16) at a smaller exponent is below any such
   * significand at a larger one: the ordering of canonical magnitudes is
   * by exponent first.
   */
  lemma MagnitudeByExponent(sa: int, ea: int, sb: int, eb: int)
    requires MinSig <= sa <= MaxSig && MinSig <= sb <= MaxSig && ea < eb
    ensures Scaled(sa, ea, ea) < Scaled(sb, eb, ea)
  {
    Pow10Le(1, eb - ea);
    assert Pow10(1) == 10;
    MulLe(MinSig, 10, sb, Pow10(eb - ea));
    assert Pow10(0) == 1;
  }

  /** Equal scaled significands of canonical magnitudes have equal exponents. */
  lemma SameMagnitude(sa: int, ea: int, sb: int, eb: int)
    requires MinSig <= sa <= MaxSig && MinSig <= sb <= MaxSig
    requires Scaled(sa, ea, Base(ea, eb)) == Scaled(sb, eb, Base(ea, eb))
    ensures ea == eb && sa == sb
  {
    if ea < eb {
      MagnitudeByExponent(sa, ea, sb, eb);
    } else if eb < ea {
      MagnitudeByExponent(sb, eb, sa, ea);
    } else {
      assert Pow10(0) == 1;
    }
  }

  /** m1 * 10^e1 and m2 * 10^e2 are the same number when m1 scaled down to exponent e2 is m2. */
  lemma SameByScale(m1: int, e1: int, m2: int, e2: int)
    requires e2 <= e1 && m1 * Pow10(e1 - e2) == m2
    ensures Same(Fin(m1, e1), Fin(m2, e2)) && Same(Fin(m2, e2), Fin(m1, e1))
  {
    assert Pow10(0) == 1;
  }

  /** Negating both integer parts reverses the comparison. */
  lemma ScaledNeg(m: int, e: int, base: int)
    requires base <= e
    ensures Scaled(-m, e, base) == -Scaled(m, e, base)
  {
  }

  /** Less is a strict order: irreflexive and transitive. */
  lemma LessIrreflexive(a: Ext)
    ensures !Less(a, a)
  {
  }

  lemma {:induction false} LessTransitive(a: Ext, b: Ext, c: Ext)
    requires Less(a, b) && Less(b, c)
    ensures Less(a, c)
  {
    if a.Fin? && b.Fin? && c.Fin? {
      var m := Base(a.e, Base(b.e, c.e));
      Rebase(a.m, a.e, Base(a.e, b.e), m);
      Rebase(b.m, b.e, Base(a.e, b.e), m);
      Rebase(b.m, b.e, Base(b.e, c.e), m);
      Rebase(c.m, c.e, Base(b.e, c.e), m);
      Rebase(a.m, a.e, Base(a.e, c.e), m);
      Rebase(c.m, c.e, Base(a.e, c.e), m);
      ScaleLess(Scaled(a.m, a.e, Base(a.e, b.e)), Scaled(b.m, b.e, Base(a.e, b.e)), Pow10(Base(a.e, b.e) - m));
      ScaleLess(Scaled(b.m, b.e, Base(b.e, c.e)), Scaled(c.m, c.e, Base(b.e, c.e)), Pow10(Base(b.e, c.e) - m));
      ScaleLessBack(Scaled(a.m, a.e, Base(a.e, c.e)), Scaled(c.m, c.e, Base(a.e, c.e)), Pow10(Base(a.e, c.e) - m));
    }
  }

  /** Scaling to a smaller base multiplies by the power of ten in between. */
  lemma Rebase(x: int, e: int, base: int, lower: int)
    requires lower <= base <= e
    ensures Scaled(x, e, lower) == Scaled(x, e, base) * Pow10(base - lower)
  {
    Pow10Add(e - base, base - lower);
    assert x * (Pow10(e - base) * Pow10(base - lower)) == (x * Pow10(e - base)) * Pow10(base - lower);
  }

  lemma ScaleLess(x: int, y: int, p: int)
    requires x < y && 0 < p
    ensures x * p < y * p
  {
    MulLe(1, p, y - x, p);
    assert y * p - x * p == (y - x) * p;
  }

  lemma ScaleLessBack(x: int, y: int, p: int)
    requires x * p < y * p && 0 < p
    ensures x < y
  {
    assert x * p - y * p == (x - y) * p;
    if y <= x {
      MulLe(0, p, x - y, p);
    }
  }

  /** Negation reverses the order and keeps numeric equality. */
  lemma {:induction false} LessNegate(a: Ext, b: Ext)
    ensures Less(a, b) <==> Less(Negate(b), Negate(a))
    ensures Same(a, b) <==> Same(Negate(a), Negate(b))
  {
    if a.Fin? && b.Fin? {
      var base := Base(a.e, b.e);
      assert Base(b.e, a.e) == base;
      ScaledNeg(a.m, a.e, base);
      ScaledNeg(b.m, b.e, base);
    }
  }

  /** Exactly one of a < b, a = b, b < a holds. */
  lemma Trichotomy(a: Ext, b: Ext)
    ensures Less(a, b) || Same(a, b) || Less(b, a)
    ensures !(Less(a, b) && Same(a, b)) && !(Less(b, a) && Same(a, b)) && !(Less(a, b) && Less(b, a))
  {
  }
}
