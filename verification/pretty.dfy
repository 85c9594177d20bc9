/**
 * dm_double_toprettystring of dm_double_pretty.c: tostring's text with
 * the noise taken out.  Infinities and NaNs print as tostring prints them,
 * a non-canonical record prints "Err" and a zero prints "0" or "-0".  A
 * value with an exponent from 0 to 15 prints without an exponent part,
 * its point moved into place; one with an exponent from -1 to -10 prints
 * as "0." and leading zeros when that takes no more than the 23
 * characters the buffer holds; every other value prints tostring's
 * digits with the trailing zeros dropped and the exponent part kept.
 *
 * The character loops of the source are modelled as written on strings
 * (a NUL-terminated prefix of a buffer is the string).  Each branch is
 * shown equal to a numeral in the sense of Text.Numeral, and every
 * canonical finite value is read back exactly by fromstring.
 */
module Pretty {
  import opened Pow
  import opened Decimal
  import opened Compare
  import opened Scale
  import opened Arith
  import opened Text

  // ---------------------------------------------------------------- the character loops

  /** `while ('0' == s[index]) --index;` from i: the last place at or before i without a '0'.  s[0] stops the walk. */
  function LastNonZero(s: string, i: int): (j: int)
    requires 0 <= i < |s| && s[0] != '0'
    ensures 0 <= j <= i && s[j] != '0'
    ensures forall k | j < k <= i :: s[k] == '0'
    decreases i
  {
    if s[i] != '0' then i else LastNonZero(s, i - 1)
  }

  /** The place of the last fraction digit in tostring's text: 16, or 17 after a '-'. */
  function Base(s: string): int
  {
    if |s| > 0 && s[0] == '-' then 17 else 16
  }

  /**
   * conditionResult: trailing zeros of the sixteen digits go, and the point
   * with them when no fraction digit is left; the six bytes from the 'e'
   * on, the suffix and its terminator, move up behind what remains.
   */
  function ConditionResult(s: string): (r: string)
    requires Base(s) < |s| <= Base(s) + 6 && s[0] != '0' && s[0] != '.'
    ensures |r| <= |s|
  {
    var base := Base(s);
    var i := LastNonZero(s, base);
    var index := if s[i] == '.' then i - 1 else i;
    if index != base then s[..index + 1] + s[base + 1..] else s
  }

  /** The swap loop: the character at `index` walks `count` places to the right. */
  function ShiftPoint(t: string, index: nat, count: nat): (r: string)
    requires index + count < |t|
    ensures |r| == |t| && r[..index] == t[..index]
    decreases count
  {
    if count == 0 then t
    else ShiftPoint(t[index := t[index + 1]][index + 1 := t[index]], index + 1, count - 1)
  }

  /**
   * The branch for exponents 0 to 15 on the significand's text t: the
   * point moved `e` places right, the text cut before the 'e', trailing
   * zeros dropped and then a point left last.
   */
  function FixedText(neg: bool, t: string, e: nat): (r: string)
    requires 17 <= |t| && e <= 15 && t[0] != '0'
  {
    var moved := ShiftPoint(t, 1, e)[..17];
    var j := LastNonZero(moved, 16);
    SignText(neg) + (if moved[j] == '.' then moved[..j] else moved[..j + 1])
  }

  /**
   * The leading-zero form for exponents -1 to -10: "0.", -e - 1 zeros, the
   * leading digit and the fraction digits up to place j of the text t.
   */
  function LeadingZeroText(neg: bool, t: string, j: int, e: int): (r: string)
    requires 1 <= j < |t| && e < 0
  {
    SignText(neg) + "0." + Zeros(-e - 1) + [t[0]] + t[2..j + 1]
  }

  // ---------------------------------------------------------------- tostring's text

  /** The leading digit of a canonical normal value. */
  function Lead(x: Dec): (c: char)
    requires IsCanonicalNormal(x)
    ensures IsDigit(c) && c != '0'
  {
    LeadingDigit(x);
    DigitChar(Sig(x) / MinSig)
  }

  /** The fifteen digits after the point. */
  function Frac(x: Dec): (fr: string)
    requires IsCanonicalNormal(x)
    ensures |fr| == 15 && AllDigits(fr)
  {
    FifteenZeros();
    Padded(Sig(x) % MinSig, 15)
  }

  /** All sixteen digits of the significand. */
  function Digits(x: Dec): (ds: string)
    requires IsCanonicalNormal(x)
    ensures |ds| == 16 && AllDigits(ds) && ds[0] == Lead(x) && ds[1..] == Frac(x)
  {
    [Lead(x)] + Frac(x)
  }

  /** tostring's text of a canonical normal value, part by part. */
  lemma TextOf(x: Dec)
    requires IsCanonicalNormal(x)
    ensures ToString(x) == SignText(x.neg) + ([Lead(x)] + ("." + (Frac(x) + ("e" + ExpText(x.exp)))))
    ensures 2 <= |ExpText(x.exp)| <= 4
  {
    LeadingDigit(x);
    ToStringNormal(x);
    SameDigits(Sig(x) / MinSig, Sig(x) % MinSig, x.exp);
  }

  /** A text laid out as tostring lays it out: leading digit, point, fifteen digits, then the rest. */
  lemma Layout(ld: char, fr: string, tail: string)
    requires |fr| == 15
    ensures var t := [ld] + ("." + (fr + tail));
      |t| == 17 + |tail| && t[0] == ld && t[1] == '.' && t[2..17] == fr && t[17..] == tail &&
      t[..17] == [ld] + "." + fr
  {
  }

  // ---------------------------------------------------------------- trailing zeros

  /** s without its trailing zeros. */
  function TrimZeros(s: string): (t: string)
    ensures |t| <= |s| && t == s[..|t|]
    ensures t == [] || t[|t| - 1] != '0'
    ensures forall i | |t| <= i < |s| :: s[i] == '0'
  {
    if |s| > 0 && s[|s| - 1] == '0' then TrimZeros(s[..|s| - 1]) else s
  }

  /** Dropping trailing zeros divides the value by ten per zero. */
  lemma TrimValue(a: string, b: string)
    requires AllDigits(a) && AllDigits(b)
    ensures AllDigits(a + TrimZeros(b))
    ensures Value(a + b) == Value(a + TrimZeros(b)) * Pow10(|b| - |TrimZeros(b)|)
  {
    var t := TrimZeros(b);
    var z := b[|t|..];
    assert b == t + z;
    assert a + b == (a + t) + z;
    ZerosValue(z);
    ValueAppend(a + t, z);
  }

  /** The walk over a text stops at j when j holds no '0' and every later place does. */
  lemma LastNonZeroIs(s: string, i: int, j: int)
    requires 0 <= j <= i < |s| && s[0] != '0' && s[j] != '0'
    requires forall k | j < k <= i :: s[k] == '0'
    ensures LastNonZero(s, i) == j
  {
    var j' := LastNonZero(s, i);
  }

  /**
   * In a text `p`, digits `ds` and a tail, the walk from the last digit
   * stops on the last digit that is not a zero, or on the last character
   * of p when every digit is a zero.
   */
  lemma WalkStops(p: string, ds: string, tail: string, i: int)
    requires 1 <= |p| && p[0] != '0' && p[|p| - 1] != '0' && i == |p| + |ds| - 1
    ensures var s, t := p + ds + tail, TrimZeros(ds); LastNonZero(s, i) == |p| - 1 + |t|
  {
    var s, t := p + ds + tail, TrimZeros(ds);
    var j := |p| - 1 + |t|;
    if t != [] {
      assert s[j] == ds[|t| - 1] == t[|t| - 1];
    } else {
      assert s[j] == p[|p| - 1];
    }
    forall k | j < k <= i
      ensures s[k] == '0'
    {
      assert s[k] == ds[k - |p|];
    }
    LastNonZeroIs(s, i, j);
  }

  // ---------------------------------------------------------------- the branches as numerals

  /**
   * A text `p` ending in a point, digits `ds` and a tail: the walk from the
   * last digit and the cut after it keep p and the digits without their
   * trailing zeros, or p without its point when every digit is a zero.
   */
  lemma Kept(p: string, ds: string, tail: string)
    requires 2 <= |p| && p[0] != '0' && p[|p| - 1] == '.' && AllDigits(ds)
    ensures LastNonZero(p + ds + tail, |p| + |ds| - 1) == |p| - 1 + |TrimZeros(ds)|
    ensures (p + ds + tail)[|p| + |ds|..] == tail
    ensures var s, j, fs := p + ds + tail, |p| - 1 + |TrimZeros(ds)|, TrimZeros(ds);
      (s[j] == '.' <==> fs == []) &&
      (if s[j] == '.' then s[..j] else s[..j + 1]) == p[..|p| - 1] + (PointText(fs != []) + fs)
  {
    var s, i, fs := p + ds + tail, |p| + |ds| - 1, TrimZeros(ds);
    var j := |p| - 1 + |fs|;
    assert LastNonZero(s, i) == j by {
      WalkStops(p, ds, tail, i);
    }
    assert s[i + 1..] == tail;
    if fs == [] {
      assert s[j] == '.';
      assert s[..j] == p[..|p| - 1];
    } else {
      assert s[j] == fs[|fs| - 1] && s[..j + 1] == p + fs by {
        PrefixOf(p, ds, tail, |fs|);
      }
      assert p + fs == p[..|p| - 1] + ("." + fs);
    }
  }

  /** A text `p`, digits `ds` and a tail, cut after the first k digits. */
  lemma PrefixOf(p: string, ds: string, tail: string, k: int)
    requires 0 < k <= |ds|
    ensures (p + ds + tail)[..|p| + k] == p + ds[..k]
    ensures (p + ds + tail)[|p| + k - 1] == ds[k - 1]
  {
  }

  /** conditionResult on tostring's text: the numeral with the fraction's trailing zeros dropped. */
  lemma ConditionShape(neg: bool, ld: char, fr: string, tail: string)
    requires IsDigit(ld) && ld != '0' && |fr| == 15 && AllDigits(fr) && 1 <= |tail| <= 5
    ensures var s, fs := SignText(neg) + ([ld] + ("." + (fr + tail))), TrimZeros(fr);
      Base(s) < |s| <= Base(s) + 6 && s[0] != '0' && s[0] != '.' &&
      ConditionResult(s) == SignText(neg) + ([ld] + (PointText(fs != []) + (fs + tail)))
  {
    var sg, fs := SignText(neg), TrimZeros(fr);
    var h := sg + [ld];
    var p := h + ".";
    var s := p + fr + tail;
    TextParts(neg, ld, fr, tail, h, p, s);
    ConditionCut(h, p, fr, tail, s);
    Regroup(sg, [ld], PointText(fs != []), fs, tail);
  }

  /** tostring's text split as the leading digit with its sign, the point, the fraction and the tail. */
  lemma TextParts(neg: bool, ld: char, fr: string, tail: string, h: string, p: string, s: string)
    requires IsDigit(ld) && ld != '0' && |fr| == 15 && 1 <= |tail| <= 5
    requires h == SignText(neg) + [ld] && p == h + "." && s == p + fr + tail
    ensures SignText(neg) + ([ld] + ("." + (fr + tail))) == s
    ensures 2 <= |p| && p[0] != '0' && p[|p| - 1] == '.' && p[..|p| - 1] == h
    ensures Base(s) == |p| + 14 && Base(s) < |s| <= Base(s) + 6 && s[0] != '0' && s[0] != '.'
  {
    assert s[0] == p[0] == h[0];
  }

  /** conditionResult on such a text keeps the leading part, the point only before digits, the trimmed fraction and the tail. */
  lemma ConditionCut(h: string, p: string, fr: string, tail: string, s: string)
    requires |fr| == 15 && AllDigits(fr) && 1 <= |tail| <= 5 && s == p + fr + tail
    requires 2 <= |p| && p[0] != '0' && p[|p| - 1] == '.' && p[..|p| - 1] == h
    requires Base(s) == |p| + 14 && Base(s) < |s| <= Base(s) + 6 && s[0] != '0' && s[0] != '.'
    ensures ConditionResult(s) == h + (PointText(TrimZeros(fr) != []) + TrimZeros(fr)) + tail
  {
    var fs := TrimZeros(fr);
    Kept(p, fr, tail);
    var j := |p| - 1 + |fs|;
    CutJoins(s, |p| + 14, j);
  }

  lemma Regroup(a: string, b: string, c: string, d: string, e: string)
    ensures ((a + b) + (c + d)) + e == a + (b + (c + (d + e)))
  {
  }

  /** conditionResult joins what the cut keeps to the suffix, also when nothing is cut. */
  lemma CutJoins(s: string, base: int, j: int)
    requires 0 <= j <= base < |s| && Base(s) == base && s[0] != '0' && s[0] != '.' && base < |s| <= base + 6
    requires LastNonZero(s, base) == j && (s[j] == '.' ==> 1 <= j)
    ensures ConditionResult(s) == (if s[j] == '.' then s[..j] else s[..j + 1]) + s[base + 1..]
  {
    if j == base && s[j] != '.' {
      assert s == s[..base + 1] + s[base + 1..];
    }
  }

  /** The swap loop moves the character at `index` behind the next `count` characters. */
  lemma {:induction false} ShiftPointMoves(t: string, index: nat, count: nat)
    requires index + count < |t|
    ensures ShiftPoint(t, index, count) ==
      t[..index] + t[index + 1..index + 1 + count] + [t[index]] + t[index + 1 + count..]
    decreases count
  {
    if count > 0 {
      var t' := t[index := t[index + 1]][index + 1 := t[index]];
      ShiftPointMoves(t', index + 1, count - 1);
      assert t'[..index + 1] == t[..index] + [t[index + 1]];
      assert t'[index + 2..index + 1 + count] == t[index + 2..index + 1 + count];
      assert t[index + 1..index + 1 + count] == [t[index + 1]] + t[index + 2..index + 1 + count];
      assert t'[index + 1] == t[index];
      assert t'[index + 1 + count..] == t[index + 1 + count..];
    }
  }

  /** The branch for exponents 0 to 15: the first e + 1 digits, then a point and the rest when not all zeros. */
  lemma FixedShape(neg: bool, ld: char, fr: string, tail: string, e: nat)
    requires IsDigit(ld) && ld != '0' && |fr| == 15 && AllDigits(fr) && e <= 15
    ensures var gs := TrimZeros(fr[e..]);
      FixedText(neg, [ld] + ("." + (fr + tail)), e) == SignText(neg) + (([ld] + fr[..e]) + (PointText(gs != []) + gs))
  {
    var t := [ld] + ("." + (fr + tail));
    var p, ds := [ld] + fr[..e] + ".", fr[e..];
    Shifted(ld, fr, tail, e);
    Kept(p, ds, "");
    assert |p| + |ds| - 1 == 16;
    FixedCut(neg, t, e, p + ds + "");
    assert p[..|p| - 1] == [ld] + fr[..e];
  }

  /** FixedText cuts the moved text at its last digit other than zero, given what the moved text is. */
  lemma FixedCut(neg: bool, t: string, e: nat, moved: string)
    requires 17 <= |t| && e <= 15 && t[0] != '0' && moved == ShiftPoint(t, 1, e)[..17]
    ensures var j := LastNonZero(moved, 16);
      FixedText(neg, t, e) == SignText(neg) + (if moved[j] == '.' then moved[..j] else moved[..j + 1])
  {
  }

  /** The point moved e places and the text cut before the 'e'. */
  lemma Shifted(ld: char, fr: string, tail: string, e: nat)
    requires |fr| == 15 && e <= 15
    ensures ShiftPoint([ld] + ("." + (fr + tail)), 1, e)[..17] == [ld] + fr[..e] + "." + fr[e..] + ""
  {
    var t := [ld] + ("." + (fr + tail));
    Layout(ld, fr, tail);
    ShiftPointMoves(t, 1, e);
    assert t[..1] == [ld] && t[2..2 + e] == fr[..e] && t[2 + e..] == fr[e..] + tail;
  }

  /** The leading-zero branch: the fraction's trailing zeros counted and dropped. */
  lemma ShortShape(neg: bool, ld: char, fr: string, tail: string, e: int)
    requires IsDigit(ld) && ld != '0' && |fr| == 15 && AllDigits(fr) && e < 0
    ensures var t, fs := ([ld] + ("." + (fr + tail)))[..17], TrimZeros(fr);
      LastNonZero(t, 16) == 1 + |fs| &&
      LeadingZeroText(neg, t, 1 + |fs|, e) == SignText(neg) + ("0" + ("." + (Zeros(-1 - e) + ([ld] + fs))))
  {
    var fs := TrimZeros(fr);
    Layout(ld, fr, tail);
    var t := [ld] + "." + fr;
    WalkStops([ld] + ".", fr, "", 16);
    assert t + "" == t;
    assert t[2..2 + |fs|] == fs;
  }

  // ---------------------------------------------------------------- toprettystring

  /**
   * The canonical normal value x printed: tostring's text conditioned, or
   * the significand's text (exponent 0, sign cleared) with its point moved
   * or with leading zeros put in front.
   */
  function PrettyNormal(x: Dec): (r: string)
    requires IsCanonicalNormal(x)
  {
    var sg := Fabs(Frexp(x).0);
    var exponent := Frexp(x).1;
    TextOf(x);
    TextOf(sg);
    ConditionShape(x.neg, Lead(x), Frac(x), "e" + ExpText(x.exp));
    Layout(Lead(sg), Frac(sg), "e" + ExpText(0));
    if exponent > 15 || exponent < -10 then ConditionResult(ToString(x))
    else if exponent >= 0 then FixedText(x.neg, ToString(sg), exponent)
    else
      var t := ToString(sg)[..17];
      assert t[1] == '.';
      var j := LastNonZero(t, 16);
      if exponent + (16 - j) >= -5 then LeadingZeroText(x.neg, t, j, exponent)
      else ConditionResult(ToString(x))
  }

  /** dm_double_toprettystring */
  function PrettyString(x: Dec): (r: string)
    ensures IsNaN(x) || IsInf(x) ==> r == ToString(x)
    ensures IsFinite(x) && !IsCanonical(x) ==> r == "Err"
    ensures IsZero(x) ==> r == (if x.neg then "-0" else "0")
  {
    if IsNaN(x) || IsInf(x) then ToString(x)
    else if !IsCanonical(x) then "Err"
    else if IsZero(x) then (if x.neg then "-0" else "0")
    else PrettyNormal(x)
  }

  // ---------------------------------------------------------------- the reference forms

  /** The digits a point may be followed by in a value's exponent form: the fifteen, trailing zeros dropped. */
  function Fraction(x: Dec): (fs: string)
    requires IsCanonicalNormal(x)
    ensures |fs| <= 15 && AllDigits(fs) && (fs == [] || fs[|fs| - 1] != '0')
  {
    TrimZeros(Frac(x))
  }

  /** Exponents 0 to 15: the first e + 1 digits, then a point and the rest when they are not all zeros. */
  function FixedForm(x: Dec): (r: string)
    requires IsCanonicalNormal(x) && 0 <= x.exp <= 15
  {
    var gs := TrimZeros(Frac(x)[x.exp..]);
    Numeral(x.neg, [Lead(x)] + Frac(x)[..x.exp], gs != [], gs, false, 0)
  }

  /** Whether the leading-zero form is chosen: exponent -1 to -10, and at most 23 characters. */
  predicate LeadingZeroFits(x: Dec)
    requires IsCanonicalNormal(x)
  {
    -10 <= x.exp < 0 && x.exp + (15 - |Fraction(x)|) >= -5
  }

  /** Negative exponents: "0.", -e - 1 zeros, and the digits without trailing zeros. */
  function LeadingZeroForm(x: Dec): (r: string)
    requires IsCanonicalNormal(x) && x.exp < 0
  {
    Numeral(x.neg, "0", true, Zeros(-1 - x.exp as int) + ([Lead(x)] + Fraction(x)), false, 0)
  }

  /** The leading digit, a point and the fraction when it is not all zeros, and the exponent part. */
  function ExpForm(x: Dec): (r: string)
    requires IsCanonicalNormal(x)
  {
    Numeral(x.neg, [Lead(x)], Fraction(x) != [], Fraction(x), true, x.exp)
  }

  /** What toprettystring promises for a canonical normal value, as a numeral. */
  function PrettyNumeral(x: Dec): (r: string)
    requires IsCanonicalNormal(x)
  {
    if 0 <= x.exp <= 15 then FixedForm(x)
    else if LeadingZeroFits(x) then LeadingZeroForm(x)
    else ExpForm(x)
  }

  /** The significand frexp and fabs hand to tostring: the value's digits at exponent 0, positive. */
  lemma SignificandOf(x: Dec)
    requires IsCanonicalNormal(x)
    ensures var sg := Fabs(Frexp(x).0);
      Frexp(x).1 == x.exp && IsCanonicalNormal(sg) && sg.exp == 0 && !sg.neg &&
      Lead(sg) == Lead(x) && Frac(sg) == Frac(x)
  {
  }

  /** The character loops print exactly the reference numeral. */
  lemma PrettyAgrees(x: Dec)
    requires IsCanonicalNormal(x)
    ensures PrettyString(x) == PrettyNumeral(x)
  {
    if x.exp > 15 || x.exp < -10 {
      SignificandOf(x);
      Conditioned(x);
    } else if x.exp >= 0 {
      FixedLoops(x);
    } else {
      ShortLoops(x);
    }
  }

  /** tostring's text conditioned is the exponent form. */
  lemma Conditioned(x: Dec)
    requires IsCanonicalNormal(x)
    ensures var s := ToString(x);
      Base(s) < |s| <= Base(s) + 6 && s[0] != '0' && s[0] != '.' && ConditionResult(s) == ExpForm(x)
  {
    TextOf(x);
    ConditionShape(x.neg, Lead(x), Frac(x), "e" + ExpText(x.exp));
  }

  /** The loops of the branch for exponents 0 to 15 print the fixed form. */
  lemma FixedLoops(x: Dec)
    requires IsCanonicalNormal(x) && 0 <= x.exp <= 15
    ensures PrettyNormal(x) == FixedForm(x)
  {
    var ld, fr, e := Lead(x), Frac(x), x.exp;
    var gs := TrimZeros(fr[e..]);
    assert PrettyNormal(x) == SignText(x.neg) + (([ld] + fr[..e]) + (PointText(gs != []) + gs)) by {
      var sg := Fabs(Frexp(x).0);
      SignificandOf(x);
      TextOf(sg);
      var tail0 := "e" + ExpText(0);
      assert ToString(sg) == [ld] + ("." + (fr + tail0));
      FixedShape(x.neg, ld, fr, tail0, e);
    }
    assert gs + ExpPart(false, 0) == gs;
  }

  /** The loops of the branch for exponents -1 to -10 print the leading-zero form when it fits, the exponent form otherwise. */
  lemma ShortLoops(x: Dec)
    requires IsCanonicalNormal(x) && -10 <= x.exp < 0
    ensures PrettyNormal(x) == if LeadingZeroFits(x) then LeadingZeroForm(x) else ExpForm(x)
  {
    ShortText(x);
    LeadingZeroSpelled(x);
  }

  /** The leading-zero form spelled out: no exponent part follows the digits. */
  lemma LeadingZeroSpelled(x: Dec)
    requires IsCanonicalNormal(x) && x.exp < 0
    ensures LeadingZeroForm(x) == SignText(x.neg) + ("0" + ("." + (Zeros(-1 - x.exp as int) + ([Lead(x)] + Fraction(x)))))
  {
    var frac := Zeros(-1 - x.exp as int) + ([Lead(x)] + Fraction(x));
    assert frac + ExpPart(false, 0) == frac;
  }

  lemma ShortText(x: Dec)
    requires IsCanonicalNormal(x) && -10 <= x.exp < 0
    ensures PrettyNormal(x) == if LeadingZeroFits(x)
      then SignText(x.neg) + ("0" + ("." + (Zeros(-1 - x.exp as int) + ([Lead(x)] + Fraction(x)))))
      else ExpForm(x)
  {
    var sg := Fabs(Frexp(x).0);
    ShortFacts(x, sg);
    Conditioned(x);
    var t := ToString(sg)[..17];
    ShortCut(x, sg, t, 1 + |Fraction(x)|);
  }

  /** For exponents -1 to -10: the significand's text, where its walk stops, and the text with a leading zero. */
  lemma ShortFacts(x: Dec, sg: Dec)
    requires IsCanonicalNormal(x) && -10 <= x.exp < 0 && sg == Fabs(Frexp(x).0)
    ensures 17 <= |ToString(sg)|
    ensures var t, j := ToString(sg)[..17], 1 + |Fraction(x)|;
      t[0] != '0' && t[1] == '.' && j == LastNonZero(t, 16) &&
      LeadingZeroText(x.neg, t, j, x.exp) ==
        SignText(x.neg) + ("0" + ("." + (Zeros(-1 - x.exp as int) + ([Lead(x)] + Fraction(x)))))
  {
    var ld, fr, e := Lead(x), Frac(x), x.exp;
    SignificandOf(x);
    TextOf(sg);
    var tail0 := "e" + ExpText(0);
    assert ToString(sg) == [ld] + ("." + (fr + tail0));
    ShortShape(x.neg, ld, fr, tail0, e);
  }

  /** The branch for exponents -1 to -10, given the significand's text cut before its 'e' and where its walk stops. */
  lemma ShortCut(x: Dec, sg: Dec, t: string, j: int)
    requires IsCanonicalNormal(x) && -10 <= x.exp < 0 && sg == Fabs(Frexp(x).0)
    requires 17 <= |ToString(sg)| && t == ToString(sg)[..17] && t[0] != '0' && t[1] == '.'
    requires j == LastNonZero(t, 16)
    requires var s := ToString(x); Base(s) < |s| <= Base(s) + 6 && s[0] != '0' && s[0] != '.'
    ensures PrettyNormal(x) == if x.exp + (16 - j) >= -5
      then LeadingZeroText(x.neg, t, j, x.exp) else ConditionResult(ToString(x))
  {
    SignificandOf(x);
  }

  // ---------------------------------------------------------------- reading back

  /** The sixteen digits spell the significand. */
  lemma DigitsValue(x: Dec)
    requires IsCanonicalNormal(x)
    ensures Value(Digits(x)) == Sig(x)
  {
    LeadingDigit(x);
    assert Value([Lead(x)]) == Sig(x) / MinSig by {
      assert [Lead(x)][..0] == [];
    }
    SplitValue(Sig(x), [Lead(x)], Frac(x));
  }

  /**
   * A numeral whose digits, scaled by 10^p, make x's significand, with the
   * exponent that puts them at x's exponent, reads back as x.
   */
  lemma NumeralReadsBack(x: Dec, mode: int, whole: string, point: bool, frac: string, hasExp: bool, e: int, p: nat)
    requires IsCanonicalNormal(x) && NumeralShape(whole, point, frac, hasExp, e)
    requires AllDigits(whole + frac) && Value(whole + frac) * Pow10(p) == Sig(x) && e - |frac| + 15 - p == x.exp
    ensures FromString(Numeral(x.neg, whole, point, frac, hasExp, e), mode) == x
  {
    ReadNumeral(x.neg, whole, point, frac, hasExp, e, mode);
    NumeralRounded(x, mode, whole, point, frac, hasExp, e, p);
  }

  /** NumeralReadsBack given what the reading of the numeral is. */
  lemma NumeralRounded(x: Dec, mode: int, whole: string, point: bool, frac: string, hasExp: bool, e: int, p: nat)
    requires IsCanonicalNormal(x) && AllDigits(whole + frac)
    requires Value(whole + frac) * Pow10(p) == Sig(x) && e - |frac| + 15 - p == x.exp
    requires var n, w := Value(whole + frac), ReadRaw(Numeral(x.neg, whole, point, frac, hasExp, e), mode);
      w.neg == x.neg && (n == 0 <==> w.sig == 0) && (n != 0 ==> RoundedTo(n, 1, e - |frac| + 15, mode, w))
    ensures FromString(Numeral(x.neg, whole, point, frac, hasExp, e), mode) == x
  {
    ReadsBackRounded(x, mode, Numeral(x.neg, whole, point, frac, hasExp, e), Value(whole + frac), p, e - |frac| + 15);
  }

  /** The fixed form reads back as the value, in every mode. */
  lemma FixedRoundTrip(x: Dec, mode: int)
    requires IsCanonicalNormal(x) && 0 <= x.exp <= 15
    ensures FromString(FixedForm(x), mode) == x
  {
    var fr, e := Frac(x), x.exp;
    var whole, gs := [Lead(x)] + fr[..e], TrimZeros(fr[e..]);
    DigitsValue(x);
    assert whole + fr[e..] == Digits(x);
    TrimValue(whole, fr[e..]);
    NumeralReadsBack(x, mode, whole, gs != [], gs, false, 0, 15 - e - |gs|);
  }

  /** The leading-zero form reads back as the value, whatever the negative exponent. */
  lemma LeadingZeroRoundTrip(x: Dec, mode: int)
    requires IsCanonicalNormal(x) && x.exp < 0
    ensures FromString(LeadingZeroForm(x), mode) == x
  {
    var fs := Fraction(x);
    LeadingZeroValue(x);
    NumeralReadsBack(x, mode, "0", true, Zeros(-1 - x.exp as int) + ([Lead(x)] + fs), false, 0, 15 - |fs|);
  }

  /** The digits of the leading-zero form, scaled by the zeros dropped, spell the significand. */
  lemma LeadingZeroValue(x: Dec)
    requires IsCanonicalNormal(x) && x.exp < 0
    ensures var frac := Zeros(-1 - x.exp as int) + ([Lead(x)] + Fraction(x));
      NumeralShape("0", true, frac, false, 0) && 0 - |frac| + 15 - (15 - |Fraction(x)|) == x.exp &&
      AllDigits("0" + frac) && Value("0" + frac) * Pow10(15 - |Fraction(x)|) == Sig(x)
  {
    var fs := Fraction(x);
    var t := [Lead(x)] + fs;
    assert Value(t) * Pow10(15 - |fs|) == Sig(x) by {
      DigitsValue(x);
      TrimValue([Lead(x)], Frac(x));
    }
    ZerosFirst(-1 - x.exp as int, t);
  }

  /** Zeros in front of digits change nothing of their value. */
  lemma ZerosFirst(k: nat, t: string)
    requires AllDigits(t)
    ensures AllDigits(Zeros(k) + t) && AllDigits("0" + (Zeros(k) + t)) && Value("0" + (Zeros(k) + t)) == Value(t)
  {
    assert "0" + (Zeros(k) + t) == Zeros(k + 1) + t;
    ZerosValue(Zeros(k + 1));
    ValueAppend(Zeros(k + 1), t);
  }

  /** The exponent form reads back as the value, in every mode. */
  lemma ExpRoundTrip(x: Dec, mode: int)
    requires IsCanonicalNormal(x)
    ensures FromString(ExpForm(x), mode) == x
  {
    var fs := Fraction(x);
    DigitsValue(x);
    TrimValue([Lead(x)], Frac(x));
    NumeralReadsBack(x, mode, [Lead(x)], fs != [], fs, true, x.exp, 15 - |fs|);
  }

  /**
   * fromstring reads back every canonical finite value toprettystring
   * prints, in every rounding mode: the dropped zeros and the moved point
   * lose nothing.
   */
  lemma PrettyRoundTrip(x: Dec, mode: int)
    requires IsCanonical(x) && IsFinite(x)
    ensures FromString(PrettyString(x), mode) == x
  {
    if IsZero(x) {
      ZeroPrettyRoundTrip(x, mode);
    } else {
      PrettyAgrees(x);
      if 0 <= x.exp <= 15 {
        FixedRoundTrip(x, mode);
      } else if LeadingZeroFits(x) {
        LeadingZeroRoundTrip(x, mode);
      } else {
        ExpRoundTrip(x, mode);
      }
    }
  }

  /** "0" and "-0" read back as the zero of their sign. */
  lemma ZeroPrettyRoundTrip(x: Dec, mode: int)
    requires IsCanonical(x) && IsZero(x)
    ensures FromString(PrettyString(x), mode) == x
  {
    ZeroNumeral(x.neg);
    ReadNumeral(x.neg, "0", false, "", false, 0, mode);
    ZeroReads(Numeral(x.neg, "0", false, "", false, 0), mode, x);
  }

  /** The text of a zero is the numeral of a single digit 0. */
  lemma ZeroNumeral(neg: bool)
    ensures Numeral(neg, "0", false, "", false, 0) == (if neg then "-0" else "0")
    ensures NumeralShape("0", false, "", false, 0) && AllDigits("0" + "") && Value("0" + "") == 0
  {
    assert "0" + "" == "0";
    assert "" + ExpPart(false, 0) == "";
  }

  /** Text read as no significant digits with x's sign converts to x, a zero. */
  lemma ZeroReads(s: string, mode: int, x: Dec)
    requires IsCanonical(x) && IsZero(x)
    requires var w := ReadRaw(s, mode); w.neg == x.neg && w.sig == 0
    ensures FromString(s, mode) == x
  {
  }

  // ---------------------------------------------------------------- the shape of the text

  /** The fixed form: at most 18 characters, a '-' only for a negative value, no exponent, no zero ending a fraction. */
  lemma FixedFacts(x: Dec, r: string)
    requires IsCanonicalNormal(x) && 0 <= x.exp <= 15 && r == FixedForm(x)
    ensures |r| <= 18 && 'e' !in r && r != "Err" && (r[0] == '-' <==> x.neg) &&
      ('.' in r ==> r[|r| - 1] != '0')
  {
    FixedSpelled(x);
    var whole, gs := [Lead(x)] + Frac(x)[..x.exp], TrimZeros(Frac(x)[x.exp..]);
    PiecesFacts(x.neg, whole, gs);
  }

  /** The fixed form spelled out: no exponent part follows the digits. */
  lemma FixedSpelled(x: Dec)
    requires IsCanonicalNormal(x) && 0 <= x.exp <= 15
    ensures var gs := TrimZeros(Frac(x)[x.exp..]);
      FixedForm(x) == SignText(x.neg) + (([Lead(x)] + Frac(x)[..x.exp]) + (PointText(gs != []) + gs))
  {
    var gs := TrimZeros(Frac(x)[x.exp..]);
    assert gs + ExpPart(false, 0) == gs;
  }

  /** A sign, digits led by a nonzero one, and a point with digits not ending in a zero. */
  lemma PiecesFacts(neg: bool, whole: string, gs: string)
    requires 1 <= |whole| <= 16 && AllDigits(whole) && whole[0] != '0' && AllDigits(gs)
    requires |whole| + |gs| <= 16 && (gs == [] || gs[|gs| - 1] != '0')
    ensures var r := SignText(neg) + (whole + (PointText(gs != []) + gs));
      |r| <= 18 && 'e' !in r && r != "Err" && (r[0] == '-' <==> neg) &&
      ('.' in r ==> r[|r| - 1] != '0')
  {
    var r := SignText(neg) + (whole + (PointText(gs != []) + gs));
    assert 'e' !in whole && 'e' !in gs && '.' !in whole && 'E' !in whole;
    assert r[|SignText(neg)|] == whole[0];
    if gs != [] {
      assert r[|r| - 1] == gs[|gs| - 1];
    }
  }

  /** The leading-zero form, when chosen: at most 23 characters, the sign rule, no exponent, a nonzero last digit. */
  lemma LeadingZeroFacts(x: Dec, r: string)
    requires IsCanonicalNormal(x) && LeadingZeroFits(x) && r == LeadingZeroForm(x)
    ensures |r| <= 23 && 'e' !in r && r != "Err" && (r[0] == '-' <==> x.neg) && r[|r| - 1] != '0'
  {
    var t := [Lead(x)] + Fraction(x);
    var frac := Zeros(-1 - x.exp as int) + t;
    assert r == SignText(x.neg) + ("0" + ("." + frac));
    assert 'e' !in frac;
    assert r[|SignText(x.neg)|] == '0';
    assert r[|r| - 1] == t[|t| - 1];
  }

  /** The exponent form: at most 23 characters, the sign rule, an 'e'. */
  lemma ExpFacts(x: Dec, r: string)
    requires IsCanonicalNormal(x) && r == ExpForm(x)
    ensures |r| <= 23 && 'e' in r && r != "Err" && (r[0] == '-' <==> x.neg)
  {
    var fs := Fraction(x);
    assert r == SignText(x.neg) + ([Lead(x)] + (PointText(fs != []) + (fs + ("e" + ExpText(x.exp)))));
    assert r[|r| - |ExpText(x.exp)| - 1] == 'e';
    assert r[|SignText(x.neg)|] == Lead(x);
  }

  /** The reference numeral: the length bound, the sign rule, where exponents appear, no zero ending a fraction. */
  lemma NumeralFacts(x: Dec, r: string)
    requires IsCanonicalNormal(x) && r == PrettyNumeral(x)
    ensures |r| <= 23 && r != "Err" && (r[0] == '-' <==> x.neg) &&
      (-5 <= x.exp <= 15 ==> 'e' !in r) &&
      (x.exp > 15 || x.exp < -10 ==> 'e' in r) &&
      ('e' !in r && '.' in r ==> r[|r| - 1] != '0')
  {
    if 0 <= x.exp <= 15 {
      FixedFacts(x, r);
    } else if LeadingZeroFits(x) {
      LeadingZeroFacts(x, r);
    } else {
      ExpFacts(x, r);
    }
  }

  /** Every output of toprettystring, with its terminator, fits the 24-byte result buffer. */
  lemma PrettyLength(x: Dec)
    ensures |PrettyString(x)| <= 23
  {
    if IsCanonicalNormal(x) {
      PrettyAgrees(x);
      NumeralFacts(x, PrettyString(x));
    }
  }

  /**
   * "Err" is printed exactly for the non-canonical records; every other
   * text starts with '-' exactly when the sign is set.
   */
  lemma PrettySign(x: Dec)
    ensures var r := PrettyString(x);
      (r == "Err" <==> IsFinite(x) && !IsCanonical(x)) &&
      (r != "Err" ==> 1 <= |r| && (r[0] == '-' <==> x.neg))
  {
    if IsNaN(x) || IsInf(x) {
      SpecialSign(x);
    } else if IsCanonicalNormal(x) {
      NormalSign(x);
    }
  }

  /** A NaN or an infinity prints tostring's text, never "Err", signed as the record. */
  lemma SpecialSign(x: Dec)
    requires IsNaN(x) || IsInf(x)
    ensures var r := PrettyString(x);
      r != "Err" && 1 <= |r| && (r[0] == '-' <==> x.neg)
  {
    if IsNaN(x) {
      assert ToString(x)[|ToString(x)| - 1] == 'N';
    } else {
      assert ToString(x)[|ToString(x)| - 1] == 'f';
    }
  }

  /** A canonical normal value prints a numeral, never "Err", signed as the record. */
  lemma NormalSign(x: Dec)
    requires IsCanonicalNormal(x)
    ensures var r := PrettyString(x);
      r != "Err" && 1 <= |r| && (r[0] == '-' <==> x.neg)
  {
    PrettyAgrees(x);
    NumeralFacts(x, PrettyString(x));
  }

  /**
   * Exponents from -5 to 15 never print an exponent part and exponents
   * above 15 or below -10 always do; without an exponent part, a point is
   * never followed by a trailing zero.
   */
  lemma PrettyExponent(x: Dec)
    requires IsCanonicalNormal(x)
    ensures var r := PrettyString(x);
      (-5 <= x.exp <= 15 ==> 'e' !in r) &&
      (x.exp > 15 || x.exp < -10 ==> 'e' in r) &&
      ('e' !in r && '.' in r ==> r[|r| - 1] != '0')
  {
    PrettyAgrees(x);
    NumeralFacts(x, PrettyString(x));
  }
}
