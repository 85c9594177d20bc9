/**
 * The word layout of dm_double_m.c: the exponent plus 512 in bits 53-62,
 * the sign in bit 63, the significand field in bits 0-52.  Zero is the word
 * 0, and the classification tests `isinf` and `iszero` are mask comparisons
 * on the word rather than unpackings.
 */
module LayoutB {
  import opened Pow
  import opened Decimal

  /** SIGN_BIT, bit 63. */
  const SignBit: int := 0x8000_0000_0000_0000
  /** The weight of the exponent field's lowest bit, 2^53. */
  const ExpUnit: int := 0x20_0000_0000_0000

  /** DM_DOUBLE_PACK_ALT: `((uint64_t)(exponent + 512) << 53) | significand | sign`. */
  function Encode(d: Dec): u64
  {
    (d.exp + 512) * ExpUnit + d.field + (if d.neg then SignBit else 0)
  }

  /** DM_DOUBLE_UNPACK_EXPONENT: `((value >> 53) & 1023) - 512`. */
  function UnpackExp(w: u64): Exp
  {
    (w / ExpUnit) % 1024 - 512
  }

  function Decode(w: u64): Dec
  {
    Dec(w >= SignBit, UnpackExp(w), w % ExpUnit)
  }

  /** Every record survives packing and unpacking. */
  lemma DecodeEncode(d: Dec)
    ensures Decode(Encode(d)) == d
  {
    var w := Encode(d);
    var k := d.exp + 512;
    var s := if d.neg then 1 else 0;
    assert w == (1024 * s + k) * ExpUnit + d.field;
    DivModUnique(w, ExpUnit, 1024 * s + k, d.field);
    DivModUnique(1024 * s + k, 1024, s, k);
  }

  /** Every word is the packing of its own unpacking: the layout is a bijection. */
  lemma EncodeDecode(w: u64)
    ensures Encode(Decode(w)) == w
  {
    var q := w / ExpUnit;
    DivModParts(w, ExpUnit, q, w % ExpUnit);
    DivModParts(q, 1024, q / 1024, q % 1024);
    assert q / 1024 == (if w >= SignBit then 1 else 0);
  }

  /** dm_double_Zero, dm_double_NaN and dm_double_Inf of this layout. */
  const ZeroWord: u64 := 0
  const NaNWord: u64 := 255
  const InfWord: u64 := 0x1F_FFFF_FFFF_FFFF

  lemma SpecialWords()
    ensures Decode(ZeroWord) == SignedZero(false)
    ensures Decode(NaNWord) == DefaultNaN(false)
    ensures Decode(InfWord) == SignedInf(false)
  {
  }

  /** `arg & ~SIGN_BIT`: the word without its sign. */
  function Magnitude(w: u64): (m: u64)
    ensures m < SignBit
  {
    w % SignBit
  }

  /** dm_double_isinf of this file: the word without its sign is DM_INFINITY. */
  predicate IsInfMask(w: u64)
  {
    Magnitude(w) == InfField
  }

  /** dm_double_iszero of this file: the word without its sign is 0. */
  predicate IsZeroMask(w: u64)
  {
    Magnitude(w) == 0
  }

  /** The mask tests agree with fpclassify on every word. */
  lemma MaskTestsAgree(w: u64)
    ensures IsInfMask(w) <==> IsInf(Decode(w))
    ensures IsZeroMask(w) <==> IsZero(Decode(w))
  {
    var m := Magnitude(w);
    var q := w / ExpUnit;
    DivModParts(w, ExpUnit, q, w % ExpUnit);
    DivModUnique(w, SignBit, if w >= SignBit then 1 else 0, m);
    DivModUnique(m, ExpUnit, q % 1024, w % ExpUnit);
    DivModParts(q, 1024, q / 1024, q % 1024);
    assert q / 1024 == (if w >= SignBit then 1 else 0);
  }

  /** `w & SIGN_BIT` */
  function SignOf(w: u64): (r: u64)
    ensures r == 0 <==> !Decode(w).neg
  {
    if w >= SignBit then SignBit else 0
  }

  /** dm_double_neg: `arg ^ SIGN_BIT` flips the top bit. */
  function NegWord(w: u64): u64
  {
    if w >= SignBit then w - SignBit else w + SignBit
  }

  /** dm_double_fabs: `arg & ~SIGN_BIT`. */
  function FabsWord(w: u64): u64
  {
    Magnitude(w)
  }

  /** dm_double_copysign: `(mag & ~SIGN_BIT) | (sgn & SIGN_BIT)`. */
  function CopySignWord(mag: u64, sgn: u64): u64
  {
    Magnitude(mag) + SignOf(sgn)
  }

  /** Flipping bit 63 negates the record and changes nothing else. */
  lemma NegWordNegates(w: u64)
    ensures Decode(NegWord(w)) == Decode(w).(neg := !Decode(w).neg)
  {
    var d := Decode(w);
    EncodeDecode(w);
    DecodeEncode(d.(neg := !d.neg));
    assert NegWord(w) == Encode(d.(neg := !d.neg));
  }

  /** Clearing bit 63 gives the record its positive sign and changes nothing else. */
  lemma FabsWordClears(w: u64)
    ensures Decode(FabsWord(w)) == Decode(w).(neg := false)
  {
    var d := Decode(w);
    EncodeDecode(w);
    DecodeEncode(d.(neg := false));
    DivModUnique(w, SignBit, if w >= SignBit then 1 else 0, Magnitude(w));
    assert FabsWord(w) == Encode(d.(neg := false));
  }

  /** copysign keeps the magnitude's exponent and field and takes the other operand's sign. */
  lemma CopySignWordSigns(mag: u64, sgn: u64)
    ensures Decode(CopySignWord(mag, sgn)) == Decode(mag).(neg := Decode(sgn).neg)
  {
    var d := Decode(mag);
    EncodeDecode(mag);
    DecodeEncode(d.(neg := Decode(sgn).neg));
    DivModUnique(mag, SignBit, if mag >= SignBit then 1 else 0, Magnitude(mag));
    assert CopySignWord(mag, sgn) == Encode(d.(neg := Decode(sgn).neg));
  }

  /** `arg & SIGN_BIT` passed where an `int` is expected, as nearbyint does: bit 63 is lost. */
  lemma SignArgumentLost(w: u64)
    ensures ToInt32(SignOf(w)) == 0
  {
    DivModUnique(SignBit, 0x1_0000_0000, 0x8000_0000, 0);
  }
}
