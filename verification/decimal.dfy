/**
 * The abstract dm_double record shared by both bit layouts: a sign, an
 * exponent in [-512, 511] and a 53-bit significand field.  A finite value is
 * (-1)^sign * (field + 10^15) * 10^(exponent - 15); the exponent -512 is
 * reserved for zero (field 0), infinity (field 2^53 - 1) and NaN (any other
 * field, the payload).
 *
 * Every 64-bit word of either layout decodes to exactly one record and back
 * (LayoutA, LayoutB), so the operations are defined once, on records.
 */
module Decimal {
  import opened Pow

  const SpecialExp: int := -512
  const MaxExp: int := 511
  const MinExp: int := -511
  /** DM_INFINITY: the all-ones field, also the field mask. */
  const InfField: int := 0x1F_FFFF_FFFF_FFFF
  const MinSig: int := 1_000_000_000_000_000
  const MaxSig: int := 9_999_999_999_999_999
  /** BIAS: one past the largest significand, 10^16. */
  const Bias: int := 10_000_000_000_000_000
  /** The payload of the NaN the library produces itself. */
  const DefaultPayload: int := 255

  type Exp = e: int | -512 <= e <= 511
  type Field = f: int | 0 <= f < 0x20_0000_0000_0000

  datatype Dec = Dec(neg: bool, exp: Exp, field: Field)

  /** The FP_* classes the source distinguishes (it never reports FP_SUBNORMAL). */
  datatype Class = FpZero | FpInfinite | FpNaN | FpNormal

  /** dm_double_fpclassify */
  function Classify(d: Dec): Class
  {
    if d.exp != SpecialExp then FpNormal
    else if d.field == InfField then FpInfinite
    else if d.field == 0 then FpZero
    else FpNaN
  }

  predicate IsNaN(d: Dec) { Classify(d) == FpNaN }
  predicate IsInf(d: Dec) { Classify(d) == FpInfinite }
  predicate IsZero(d: Dec) { Classify(d) == FpZero }
  predicate IsNormal(d: Dec) { Classify(d) == FpNormal }
  predicate IsFinite(d: Dec) { !IsInf(d) && !IsNaN(d) }

  /** DM_DOUBLE_UNPACK_SIGNIFICAND: the field plus the implicit 10^15. */
  function Sig(d: Dec): int
  {
    d.field + MinSig
  }

  /** dm_double_iscanonical: only a normal value can be out of range. */
  predicate IsCanonical(d: Dec)
  {
    !IsNormal(d) || Sig(d) <= MaxSig
  }

  /** DM_DOUBLE_PACK for a significand whose field fits in 53 bits. */
  function Pack(neg: bool, exp: Exp, sig: int): (r: Dec)
    requires MinSig <= sig < MinSig + 0x20_0000_0000_0000
    ensures Sig(r) == sig && r.neg == neg && r.exp == exp
  {
    Dec(neg, exp, sig - MinSig)
  }

  function SignedZero(neg: bool): Dec { Dec(neg, SpecialExp, 0) }
  function SignedInf(neg: bool): Dec { Dec(neg, SpecialExp, InfField) }
  /** dm_double_NaN, or its negation. */
  function DefaultNaN(neg: bool): Dec { Dec(neg, SpecialExp, DefaultPayload) }

  /** The records a finite nonzero value in range may take. */
  predicate IsCanonicalNormal(d: Dec)
  {
    IsNormal(d) && Sig(d) <= MaxSig
  }

  /** Every record is in exactly one class, and canonical unless it is a normal value out of range. */
  lemma ClassifyCases(d: Dec)
    ensures IsZero(d) <==> d.exp == SpecialExp && d.field == 0
    ensures IsInf(d) <==> d.exp == SpecialExp && d.field == InfField
    ensures IsNaN(d) <==> d.exp == SpecialExp && d.field != 0 && d.field != InfField
    ensures IsNormal(d) <==> d.exp != SpecialExp
    ensures IsFinite(d) <==> IsZero(d) || IsNormal(d)
    ensures !IsCanonical(d) <==> d.exp != SpecialExp && d.field > MaxSig - MinSig
  {
  }

  lemma SpecialsClassified(neg: bool)
    ensures IsZero(SignedZero(neg)) && IsInf(SignedInf(neg)) && IsNaN(DefaultNaN(neg))
    ensures IsCanonical(SignedZero(neg)) && IsCanonical(SignedInf(neg)) && IsCanonical(DefaultNaN(neg))
  {
  }
}
