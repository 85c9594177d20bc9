/**
 * The word layout of dm_double.c: the exponent as a 10-bit two's-complement
 * number in bits 54-63, the sign in bit 53, the significand field in bits
 * 0-52.  Zero is therefore 0x8000000000000000.
 *
 * The three fields never overlap, so the `|` that assembles a word is
 * addition here; a test `w & bit` is a digit of `w` in base 2.
 */
module LayoutA {
  import opened Pow
  import opened Decimal

  /** SIGN_BIT, bit 53. */
  const SignBit: int := 0x20_0000_0000_0000
  /** The weight of the exponent's lowest bit, 2^54. */
  const ExpUnit: int := 0x40_0000_0000_0000

  /** The word read as int64_t. */
  function AsSigned(w: u64): int
  {
    if w < 0x8000_0000_0000_0000 then w else w - 0x1_0000_0000_0000_0000
  }

  /** `((uint64_t)(exponent)) << 54`: the conversion wraps modulo 2^64 and so does the shift. */
  function ExpBits(e: Exp): u64
  {
    ((e % 0x1_0000_0000_0000_0000) * ExpUnit) % 0x1_0000_0000_0000_0000
  }

  /** DM_DOUBLE_PACK_ALT, which DM_DOUBLE_PACK reaches after subtracting 10^15. */
  function Encode(d: Dec): u64
  {
    ExpBitsBound(d.exp);
    ExpBits(d.exp) + (if d.neg then SignBit else 0) + d.field
  }

  /** DM_DOUBLE_UNPACK_EXPONENT: `((int64_t)(value)) >> 54`, an arithmetic shift, so a floor division. */
  function UnpackExp(w: u64): Exp
  {
    UnpackExpRange(w);
    AsSigned(w) / ExpUnit
  }

  function Decode(w: u64): Dec
  {
    Dec((w / SignBit) % 2 == 1, UnpackExp(w), w % SignBit)
  }

  lemma ExpBitsBound(e: Exp)
    ensures ExpBits(e) == (e % 1024) * 0x40_0000_0000_0000
  {
    var k := e % 1024;
    var j := (e % 0x1_0000_0000_0000_0000) / 1024;
    DivModParts(e % 0x1_0000_0000_0000_0000, 1024, j, (e % 0x1_0000_0000_0000_0000) % 1024);
    WrapLow(e);
    assert (e % 0x1_0000_0000_0000_0000) * 0x40_0000_0000_0000 == k * 0x40_0000_0000_0000 + j * 0x1_0000_0000_0000_0000;
    ModAddMultiple(k * 0x40_0000_0000_0000, 0x1_0000_0000_0000_0000, j);
    DivModUnique(k * 0x40_0000_0000_0000, 0x1_0000_0000_0000_0000, 0, k * 0x40_0000_0000_0000);
  }

  /** Reducing modulo 2^64 keeps the residue modulo 1024. */
  lemma WrapLow(e: int)
    ensures (e % 0x1_0000_0000_0000_0000) % 1024 == e % 1024
  {
    var q := e / 0x1_0000_0000_0000_0000;
    DivModParts(e, 0x1_0000_0000_0000_0000, q, e % 0x1_0000_0000_0000_0000);
    ModAddMultiple(e % 0x1_0000_0000_0000_0000, 1024, q * 0x40_0000_0000_0000);
  }

  lemma UnpackExpRange(w: u64)
    ensures -512 <= AsSigned(w) / ExpUnit <= 511
  {
    var s := AsSigned(w);
    var q := s / ExpUnit;
    DivModParts(s, ExpUnit, q, s % ExpUnit);
  }

  /** Every record survives packing and unpacking. */
  lemma DecodeEncode(d: Dec)
    ensures Decode(Encode(d)) == d
  {
    var w := Encode(d);
    var k := d.exp % 1024;
    var s := if d.neg then 1 else 0;
    var low := s * SignBit + d.field;
    ExpBitsBound(d.exp);
    assert w == k * ExpUnit + low;
    DivModUnique(w, SignBit, 2 * k + s, d.field);
    DivModUnique(2 * k + s, 2, k, s);
    ExpOfWord(d.exp, k, low, w);
  }

  lemma ExpOfWord(e: Exp, k: int, low: int, w: u64)
    requires k == e % 1024 && 0 <= low < 0x40_0000_0000_0000 && w == k * 0x40_0000_0000_0000 + low
    ensures UnpackExp(w) == e
  {
    DivModParts(e, 1024, e / 1024, k);
    if e < 0 {
      assert k == e + 1024;
      DivModUnique(AsSigned(w), ExpUnit, e, low);
    } else {
      assert k == e;
      DivModUnique(AsSigned(w), ExpUnit, e, low);
    }
  }

  /** Every word is the packing of its own unpacking: the layout is a bijection. */
  lemma EncodeDecode(w: u64)
    ensures Encode(Decode(w)) == w
  {
    var d := Decode(w);
    var top := w / ExpUnit;
    var mid := (w / SignBit) % 2;
    DivModParts(w, ExpUnit, top, w % ExpUnit);
    DivModParts(w, SignBit, w / SignBit, d.field);
    DivModParts(w / SignBit, 2, w / SignBit / 2, mid);
    DivDivWord(w);
    TopOfWord(w, top);
    ExpBitsBound(d.exp);
  }

  lemma DivDivWord(w: u64)
    ensures w / SignBit / 2 == w / ExpUnit
  {
    var q := w / ExpUnit;
    var r := w % ExpUnit;
    DivModParts(w, ExpUnit, q, r);
    DivModUnique(w, SignBit, 2 * q + r / SignBit, r % SignBit);
    DivModUnique(2 * q + r / SignBit, 2, q, r / SignBit);
  }

  /** The exponent's residue modulo 1024 is the word's top ten bits. */
  lemma TopOfWord(w: u64, top: int)
    requires top == w / ExpUnit
    ensures UnpackExp(w) % 1024 == top
  {
    var r := w % ExpUnit;
    DivModParts(w, ExpUnit, top, r);
    if w < 0x8000_0000_0000_0000 {
      DivModUnique(AsSigned(w), ExpUnit, top, r);
      DivModUnique(top, 1024, 0, top);
    } else {
      DivModUnique(AsSigned(w), ExpUnit, top - 1024, r);
      DivModUnique(top - 1024, 1024, -1, top);
    }
  }

  /** dm_double_Zero, dm_double_NaN and dm_double_Inf of this layout. */
  const ZeroWord: u64 := 0x8000_0000_0000_0000
  const NaNWord: u64 := 0x8000_0000_0000_00FF
  const InfWord: u64 := 0x801F_FFFF_FFFF_FFFF

  lemma SpecialWords()
    ensures Decode(ZeroWord) == SignedZero(false)
    ensures Decode(NaNWord) == DefaultNaN(false)
    ensures Decode(InfWord) == SignedInf(false)
  {
    DivModUnique(AsSigned(ZeroWord), ExpUnit, -512, 0);
    DivModUnique(AsSigned(NaNWord), ExpUnit, -512, 255);
    DivModUnique(AsSigned(InfWord), ExpUnit, -512, InfField);
  }

  /** `w & SIGN_BIT` */
  function SignOf(w: u64): (r: u64)
    ensures r == 0 <==> !Decode(w).neg
  {
    if (w / SignBit) % 2 == 1 then SignBit else 0
  }

  /** dm_double_neg: `arg ^ SIGN_BIT` flips one bit. */
  function NegWord(w: u64): u64
  {
    DivModParts(w, SignBit, w / SignBit, w % SignBit);
    if (w / SignBit) % 2 == 1 then w - SignBit else w + SignBit
  }

  /** dm_double_fabs: `arg & ~SIGN_BIT` clears one bit. */
  function FabsWord(w: u64): u64
  {
    DivModParts(w, SignBit, w / SignBit, w % SignBit);
    if (w / SignBit) % 2 == 1 then w - SignBit else w
  }

  /** dm_double_copysign: `(mag & ~SIGN_BIT) | (sgn & SIGN_BIT)`. */
  function CopySignWord(mag: u64, sgn: u64): u64
  {
    FabsBitClear(mag);
    FabsWord(mag) + SignOf(sgn)
  }

  lemma FabsBitClear(w: u64)
    ensures (FabsWord(w) / SignBit) % 2 == 0 && FabsWord(w) + SignBit < 0x1_0000_0000_0000_0000
  {
    var q := w / SignBit;
    DivModParts(w, SignBit, q, w % SignBit);
    if q % 2 == 1 {
      DivModUnique(w - SignBit, SignBit, q - 1, w % SignBit);
    } else {
      DivModUnique(w, SignBit, q, w % SignBit);
    }
    DivModParts(q, 2, q / 2, q % 2);
  }

  /** Flipping bit 53 negates the record and changes nothing else. */
  lemma NegWordNegates(w: u64)
    ensures Decode(NegWord(w)) == Decode(w).(neg := !Decode(w).neg)
  {
    var d := Decode(w);
    EncodeDecode(w);
    DecodeEncode(d.(neg := !d.neg));
    assert NegWord(w) == Encode(d.(neg := !d.neg));
  }

  /** Clearing bit 53 gives the record its positive sign and changes nothing else. */
  lemma FabsWordClears(w: u64)
    ensures Decode(FabsWord(w)) == Decode(w).(neg := false)
  {
    var d := Decode(w);
    EncodeDecode(w);
    DecodeEncode(d.(neg := false));
    assert FabsWord(w) == Encode(d.(neg := false));
  }

  /** copysign keeps the magnitude's exponent and field and takes the other operand's sign. */
  lemma CopySignWordSigns(mag: u64, sgn: u64)
    ensures Decode(CopySignWord(mag, sgn)) == Decode(mag).(neg := Decode(sgn).neg)
  {
    var d := Decode(mag);
    EncodeDecode(mag);
    DecodeEncode(d.(neg := Decode(sgn).neg));
    assert CopySignWord(mag, sgn) == Encode(d.(neg := Decode(sgn).neg));
  }

  /**
   * `arg & SIGN_BIT` passed where an `int` is expected, as nearbyint does:
   * the usual conversion keeps the low 32 bits, and bit 53 is not among them.
   */
  lemma SignArgumentLost(w: u64)
    ensures ToInt32(SignOf(w)) == 0
  {
    DivModUnique(SignBit, 0x1_0000_0000, 0x20_0000, 0);
  }
}
