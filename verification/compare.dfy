/**
 * The comparison macros of section 7.12.14 of ISO C11 (isgreater, isless,
 * ...) and fmin/fmax/copysign/fabs/neg of dm_double.c and dm_double_m.c,
 * on records.  The ordered predicates work on the packed fields directly,
 * taking the exponent of zero to be the most negative one; the lemmas show
 * that this agrees with the numeric order of the values.
 */
module Compare {
  import opened Pow
  import opened Decimal
  import opened Exact

  /** dm_double_signbit */
  function SignBit(d: Dec): bool
  {
    d.neg
  }

  /** dm_double_isgreater */
  predicate IsGreater(lhs: Dec, rhs: Dec)
  {
    if IsNaN(lhs) || IsNaN(rhs) then false
    else if IsInf(lhs) || IsInf(rhs) then
      if IsInf(lhs) then
        if IsInf(rhs) && lhs.neg == rhs.neg then false else !lhs.neg
      else rhs.neg
    else if IsZero(lhs) && IsZero(rhs) then false
    else if lhs.neg != rhs.neg then rhs.neg
    else if lhs.exp != rhs.exp then lhs.neg != (lhs.exp > rhs.exp)
    else if !lhs.neg then lhs.field > rhs.field
    else lhs.field < rhs.field
  }

  /** dm_double_isgreaterequal */
  predicate IsGreaterEqual(lhs: Dec, rhs: Dec)
  {
    if IsNaN(lhs) || IsNaN(rhs) then false
    else if IsInf(lhs) || IsInf(rhs) then
      if IsInf(lhs) then
        if IsInf(rhs) && lhs.neg == rhs.neg then true else !lhs.neg
      else rhs.neg
    else if IsZero(lhs) && IsZero(rhs) then true
    else if lhs.neg != rhs.neg then rhs.neg
    else if lhs.exp != rhs.exp then lhs.neg != (lhs.exp > rhs.exp)
    else if !lhs.neg then lhs.field >= rhs.field
    else lhs.field <= rhs.field
  }

  /** dm_double_isless */
  predicate IsLess(lhs: Dec, rhs: Dec)
  {
    if IsNaN(lhs) || IsNaN(rhs) then false
    else if IsInf(lhs) || IsInf(rhs) then
      if IsInf(lhs) then
        if IsInf(rhs) && lhs.neg == rhs.neg then false else lhs.neg
      else !rhs.neg
    else if IsZero(lhs) && IsZero(rhs) then false
    else if lhs.neg != rhs.neg then lhs.neg
    else if lhs.exp != rhs.exp then lhs.neg != (lhs.exp < rhs.exp)
    else if !lhs.neg then lhs.field < rhs.field
    else lhs.field > rhs.field
  }

  /** dm_double_islessequal */
  predicate IsLessEqual(lhs: Dec, rhs: Dec)
  {
    if IsNaN(lhs) || IsNaN(rhs) then false
    else if IsInf(lhs) || IsInf(rhs) then
      if IsInf(lhs) then
        if IsInf(rhs) && lhs.neg == rhs.neg then true else lhs.neg
      else !rhs.neg
    else if IsZero(lhs) && IsZero(rhs) then true
    else if lhs.neg != rhs.neg then lhs.neg
    else if lhs.exp != rhs.exp then lhs.neg != (lhs.exp < rhs.exp)
    else if !lhs.neg then lhs.field <= rhs.field
    else lhs.field >= rhs.field
  }

  /** dm_double_islessgreater */
  predicate IsLessGreater(lhs: Dec, rhs: Dec)
  {
    IsGreater(lhs, rhs) || IsLess(lhs, rhs)
  }

  /** dm_double_isunordered */
  predicate IsUnordered(lhs: Dec, rhs: Dec)
  {
    IsNaN(lhs) || IsNaN(rhs)
  }

  /** dm_double_isequal: the words are compared, except that the two zeros are equal. */
  predicate IsEqual(lhs: Dec, rhs: Dec)
  {
    if IsNaN(lhs) || IsNaN(rhs) then false
    else if IsZero(lhs) && IsZero(rhs) then true
    else lhs == rhs
  }

  /** dm_double_isunequal */
  predicate IsUnequal(lhs: Dec, rhs: Dec)
  {
    if IsNaN(lhs) || IsNaN(rhs) then true
    else if IsZero(lhs) && IsZero(rhs) then false
    else lhs != rhs
  }

  /** dm_double_fabs */
  function Fabs(d: Dec): (r: Dec)
    ensures !r.neg && r.exp == d.exp && r.field == d.field
  {
    d.(neg := false)
  }

  /** dm_double_neg */
  function Neg(d: Dec): (r: Dec)
    ensures r.neg != d.neg && r.exp == d.exp && r.field == d.field
  {
    d.(neg := !d.neg)
  }

  /** dm_double_copysign */
  function CopySign(mag: Dec, sgn: Dec): (r: Dec)
    ensures r.neg == sgn.neg && r.exp == mag.exp && r.field == mag.field
  {
    mag.(neg := sgn.neg)
  }

  /** dm_double_fmin: a NaN operand gives way to the other one. */
  function FMin(lhs: Dec, rhs: Dec): (r: Dec)
    ensures r == lhs || r == rhs
    ensures IsNaN(r) ==> IsNaN(lhs) && IsNaN(rhs)
    ensures !IsNaN(lhs) && !IsNaN(rhs) ==> IsLessEqual(r, lhs) && IsLessEqual(r, rhs)
    ensures IsNaN(rhs) ==> r == lhs
    ensures IsNaN(lhs) && !IsNaN(rhs) ==> r == rhs
    ensures !IsNaN(lhs) && !IsNaN(rhs) ==> (r == lhs <==> IsLessEqual(lhs, rhs))
  {
    if IsNaN(rhs) then lhs
    else if IsNaN(lhs) then rhs
    else
      LessEqualTotal(lhs, rhs);
      if IsLessEqual(lhs, rhs) then lhs else rhs
  }

  /** dm_double_fmax: a NaN operand gives way to the other one. */
  function FMax(lhs: Dec, rhs: Dec): (r: Dec)
    ensures r == lhs || r == rhs
    ensures IsNaN(r) ==> IsNaN(lhs) && IsNaN(rhs)
    ensures !IsNaN(lhs) && !IsNaN(rhs) ==> IsGreaterEqual(r, lhs) && IsGreaterEqual(r, rhs)
    ensures IsNaN(rhs) ==> r == lhs
    ensures IsNaN(lhs) && !IsNaN(rhs) ==> r == rhs
    ensures !IsNaN(lhs) && !IsNaN(rhs) ==> (r == lhs <==> IsGreaterEqual(lhs, rhs))
  {
    if IsNaN(rhs) then lhs
    else if IsNaN(lhs) then rhs
    else
      LessEqualTotal(lhs, rhs);
      if IsGreaterEqual(lhs, rhs) then lhs else rhs
  }

  /** neg keeps the class and canonicity and undoes itself. */
  lemma NegClass(d: Dec)
    ensures Classify(Neg(d)) == Classify(d) && IsCanonical(Neg(d)) == IsCanonical(d)
    ensures Neg(Neg(d)) == d && SignBit(Neg(d)) == !SignBit(d)
  {
  }

  /** neg negates the exact value. */
  lemma NegVal(d: Dec)
    ensures !IsNaN(d) ==> ValueOf(Neg(d)) == Negate(ValueOf(d))
  {
    if !IsNaN(d) && IsNormal(d) {
      assert ValueOf(Neg(d)).m == -ValueOf(d).m;
    }
  }

  /** neg reverses the order. */
  lemma NegLess(d: Dec, b: Dec)
    ensures IsLess(d, b) <==> IsLess(Neg(b), Neg(d))
  {
    var nd, nb := Neg(d), Neg(b);
    assert Classify(nd) == Classify(d) && Classify(nb) == Classify(b);
  }

  /** neg keeps equality. */
  lemma NegEq(d: Dec, b: Dec)
    ensures IsEqual(d, b) <==> IsEqual(Neg(d), Neg(b))
  {
    var nd, nb := Neg(d), Neg(b);
    assert Classify(nd) == Classify(d) && Classify(nb) == Classify(b);
  }

  /**
   * neg is the additive inverse: it keeps the class and canonicity, undoes
   * itself, negates the exact value, and reverses the order.
   */
  lemma NegValue(d: Dec, b: Dec)
    ensures Classify(Neg(d)) == Classify(d) && IsCanonical(Neg(d)) == IsCanonical(d)
    ensures Neg(Neg(d)) == d && SignBit(Neg(d)) == !SignBit(d)
    ensures !IsNaN(d) ==> ValueOf(Neg(d)) == Negate(ValueOf(d))
    ensures IsLess(d, b) <==> IsLess(Neg(b), Neg(d))
    ensures IsEqual(d, b) <==> IsEqual(Neg(d), Neg(b))
  {
    NegClass(d);
    NegVal(d);
    NegLess(d, b);
    NegEq(d, b);
  }

  /** fabs keeps the class and canonicity; it is neg on negative records and the identity otherwise. */
  lemma FabsShape(d: Dec)
    ensures Classify(Fabs(d)) == Classify(d) && IsCanonical(Fabs(d)) == IsCanonical(d)
    ensures Fabs(d) == (if SignBit(d) then Neg(d) else d) && Fabs(Fabs(d)) == Fabs(d)
  {
  }

  /** fabs of anything but NaN is at least +0. */
  lemma FabsAboveZero(d: Dec)
    ensures !IsNaN(d) ==> IsLessEqual(SignedZero(false), Fabs(d))
  {
  }

  /** The value of fabs is the magnitude of the value. */
  lemma FabsMagnitude(d: Dec)
    requires !IsNaN(d)
    ensures ValueOf(Fabs(d)) == (if d.neg then Negate(ValueOf(d)) else ValueOf(d))
    ensures !Less(ValueOf(Fabs(d)), Fin(0, 0))
  {
    if IsNormal(d) {
      var e := d.exp - 15;
      assert ValueOf(Fabs(d)) == Fin(Sig(d), e);
      ScaledSign(Sig(d), e, Base(e, 0));
    }
  }

  /**
   * fabs is the magnitude: the value itself when positive, its negation
   * when negative, never below +0, and idempotent.
   */
  lemma FabsValue(d: Dec)
    ensures Classify(Fabs(d)) == Classify(d) && IsCanonical(Fabs(d)) == IsCanonical(d)
    ensures Fabs(d) == (if SignBit(d) then Neg(d) else d) && Fabs(Fabs(d)) == Fabs(d)
    ensures !IsNaN(d) ==> IsLessEqual(SignedZero(false), Fabs(d))
    ensures !IsNaN(d) ==> ValueOf(Fabs(d)) == (if d.neg then Negate(ValueOf(d)) else ValueOf(d))
    ensures !IsNaN(d) ==> !Less(ValueOf(Fabs(d)), Fin(0, 0))
  {
    FabsShape(d);
    FabsAboveZero(d);
    if !IsNaN(d) {
      FabsMagnitude(d);
    }
  }

  /**
   * copysign is the magnitude of the first argument with the sign of the
   * second: fabs of it, or its negation.
   */
  lemma CopySignValue(mag: Dec, sgn: Dec)
    ensures CopySign(mag, sgn) == (if SignBit(sgn) then Neg(Fabs(mag)) else Fabs(mag))
    ensures Fabs(CopySign(mag, sgn)) == Fabs(mag) && SignBit(CopySign(mag, sgn)) == SignBit(sgn)
    ensures !IsNaN(mag) ==> ValueOf(CopySign(mag, sgn)) == (if mag.neg == sgn.neg then ValueOf(mag) else Negate(ValueOf(mag)))
  {
    if !IsNaN(mag) {
      NegVal(mag);
    }
  }

  /**
   * fmin and fmax on values: the minimum is at most both values and the
   * maximum at least both; between two different values they pick the
   * smaller and the larger, and between equal ones (+0 and -0 included)
   * both return lhs.
   */
  lemma MinMaxValue(a: Dec, b: Dec)
    requires !IsNaN(a) && !IsNaN(b) && IsCanonical(a) && IsCanonical(b)
    ensures !Less(ValueOf(a), ValueOf(FMin(a, b))) && !Less(ValueOf(b), ValueOf(FMin(a, b)))
    ensures !Less(ValueOf(FMax(a, b)), ValueOf(a)) && !Less(ValueOf(FMax(a, b)), ValueOf(b))
    ensures Less(ValueOf(a), ValueOf(b)) ==> FMin(a, b) == a && FMax(a, b) == b
    ensures Less(ValueOf(b), ValueOf(a)) ==> FMin(a, b) == b && FMax(a, b) == a
    ensures Same(ValueOf(a), ValueOf(b)) ==> FMin(a, b) == a && FMax(a, b) == a
  {
    CompareMatchesValue(a, b);
    CompareMatchesValue(b, a);
    Mirrors(a, b);
    Mirrors(b, a);
    Trichotomy(ValueOf(a), ValueOf(b));
    LessIrreflexive(ValueOf(a));
    LessIrreflexive(ValueOf(b));
  }

  /** islessequal is reflexive and total on records other than NaN, and isgreaterequal is its mirror. */
  lemma LessEqualTotal(a: Dec, b: Dec)
    requires !IsNaN(a) && !IsNaN(b)
    ensures IsLessEqual(a, a) && IsGreaterEqual(a, a)
    ensures IsLessEqual(a, b) || IsLessEqual(b, a)
    ensures IsGreaterEqual(a, b) <==> IsLessEqual(b, a)
  {
  }

  /** Any NaN operand makes every ordered predicate false and the unordered ones true. */
  lemma NaNUnordered(a: Dec, b: Dec)
    requires IsNaN(a) || IsNaN(b)
    ensures !IsLess(a, b) && !IsLessEqual(a, b) && !IsGreater(a, b) && !IsGreaterEqual(a, b)
    ensures !IsEqual(a, b) && !IsLessGreater(a, b)
    ensures IsUnordered(a, b) && IsUnequal(a, b)
  {
  }

  /** The mirror images of the source's four ordered predicates agree with each other. */
  lemma Mirrors(a: Dec, b: Dec)
    ensures IsGreater(a, b) == IsLess(b, a)
    ensures IsGreaterEqual(a, b) == IsLessEqual(b, a)
    ensures IsLessEqual(a, b) == (IsLess(a, b) || IsEqual(a, b))
    ensures IsUnequal(a, b) == !IsEqual(a, b)
  {
  }

  /** With no NaN operand exactly one of isless, isequal, isgreater holds. */
  lemma CompareTrichotomy(a: Dec, b: Dec)
    requires !IsNaN(a) && !IsNaN(b)
    ensures IsLess(a, b) || IsEqual(a, b) || IsGreater(a, b)
    ensures !(IsLess(a, b) && IsEqual(a, b)) && !(IsLess(a, b) && IsGreater(a, b)) && !(IsEqual(a, b) && IsGreater(a, b))
  {
  }

  /** +0 and -0 compare equal and neither is below the other. */
  lemma ZerosEqual(a: Dec, b: Dec)
    requires IsZero(a) && IsZero(b)
    ensures IsEqual(a, b) && !IsLess(a, b) && !IsGreater(a, b)
  {
  }

  /**
   * On canonical records other than NaN, isless is the numeric order of
   * the values and isequal is numeric equality.
   */
  lemma CompareMatchesValue(a: Dec, b: Dec)
    requires !IsNaN(a) && !IsNaN(b) && IsCanonical(a) && IsCanonical(b)
    ensures IsLess(a, b) <==> Less(ValueOf(a), ValueOf(b))
    ensures IsEqual(a, b) <==> Same(ValueOf(a), ValueOf(b))
  {
    var va, vb := ValueOf(a), ValueOf(b);
    if va.Fin? && vb.Fin? {
      var base := Base(va.e, vb.e);
      ScaledSign(va.m, va.e, base);
      ScaledSign(vb.m, vb.e, base);
      if IsNormal(a) && IsNormal(b) && a.neg == b.neg {
        SameSign(a, b);
      }
    }
  }

  /** Two canonical normal values of one sign: the field order, exponent first, is the value order. */
  lemma SameSign(a: Dec, b: Dec)
    requires IsCanonicalNormal(a) && IsCanonicalNormal(b) && a.neg == b.neg
    ensures IsLess(a, b) <==> Less(ValueOf(a), ValueOf(b))
    ensures a == b <==> Same(ValueOf(a), ValueOf(b))
  {
    var ea, eb := a.exp - 15, b.exp - 15;
    var base := Base(ea, eb);
    var sa, sb := Sig(a), Sig(b);
    if Same(ValueOf(a), ValueOf(b)) {
      if a.neg {
        ScaledNeg(sa, ea, base);
        ScaledNeg(sb, eb, base);
      }
      SameMagnitude(sa, ea, sb, eb);
    }
    if ea < eb {
      MagnitudeByExponent(sa, ea, sb, eb);
    } else if eb < ea {
      MagnitudeByExponent(sb, eb, sa, ea);
    } else {
      assert Pow10(0) == 1;
    }
    if a.neg {
      ScaledNeg(sa, ea, base);
      ScaledNeg(sb, eb, base);
    }
  }
}
