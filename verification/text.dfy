/**
 * dm_double_tostring and dm_double_fromstring of dm_double.c and
 * dm_double_m.c.
 *
 * tostring writes `[-]D.DDDDDDDDDDDDDDDe±E`: the leading digit, a point,
 * the other fifteen digits of the significand and the exponent with its
 * sign; a zero is `0.000000000000000e+0` and the specials are `Inf` and
 * `NaN`, each after a '-' when the sign is set.  dm_double.c formats with
 * sprintf, dm_double_m.c digit by digit; they differ only on
 * non-canonical values.
 *
 * fromstring reads an optional '-', integer digits, a '.' or ',', fraction
 * digits and an optional exponent field, and stops at the first character
 * that fits none of these.  The first sixteen significant digits make the
 * significand; the later ones fold into a three-state residue that says
 * whether they are below, at or above half a unit, which is all the
 * rounding decision needs.  A string is its characters before the
 * terminating NUL.
 */
module Text {
  import opened Pow
  import opened Decimal
  import opened Rounding
  import opened Integral
  import opened Arith

  predicate IsDigit(c: char)
  {
    '0' <= c <= '9'
  }

  predicate AllDigits(s: string)
  {
    forall i | 0 <= i < |s| :: IsDigit(s[i])
  }

  function DigitValue(c: char): (d: int)
    requires IsDigit(c)
    ensures 0 <= d <= 9
  {
    c as int - '0' as int
  }

  /** `'0' + d`, the character of a digit. */
  function DigitChar(d: int): (c: char)
    requires 0 <= d <= 9
    ensures IsDigit(c) && DigitValue(c) == d
  {
    (d + '0' as int) as char
  }

  /** The integer a string of digits spells, most significant digit first. */
  function Value(s: string): nat
    requires AllDigits(s)
  {
    if |s| == 0 then 0 else Value(s[..|s| - 1]) * 10 + DigitValue(s[|s| - 1])
  }

  /**
   * `%0<k>` formatting of n, and the digit loop of dm_double_m.c's
   * tostring: k digits, the last one n % 10, zero-padded on the left.
   */
  function Padded(n: nat, k: nat): (s: string)
    requires n < Pow10(k)
    ensures |s| == k && AllDigits(s) && Value(s) == n
  {
    if k == 0 then ""
    else
      var s := Padded(n / 10, k - 1) + [DigitChar(n % 10)];
      assert s[..|s| - 1] == Padded(n / 10, k - 1);
      s
  }

  /** `%d` of a natural number: its digits without leading zeros. */
  function DigitsOf(n: nat): (s: string)
    ensures 1 <= |s| && AllDigits(s) && Value(s) == n
    ensures n != 0 ==> s[0] != '0'
  {
    if n < 10 then
      assert [DigitChar(n)][..0] == [];
      [DigitChar(n)]
    else
      var s := DigitsOf(n / 10) + [DigitChar(n % 10)];
      assert s[..|s| - 1] == DigitsOf(n / 10);
      s
  }

  /** A number below 10^k has at most k digits. */
  lemma DigitsOfLength(n: nat, k: nat)
    requires n < Pow10(k) && 1 <= k
    ensures |DigitsOf(n)| <= k
  {
    if 10 <= n {
      DigitsOfLength(n / 10, k - 1);
    }
  }

  lemma ShortDigits(m: nat)
    ensures m < 10 ==> |DigitsOf(m)| == 1
    ensures m < 1000 ==> |DigitsOf(m)| <= 3
  {
    if m < 1000 {
      Pow10Table();
      DigitsOfLength(m, 3);
    }
  }

  /** k zeros. */
  function Zeros(k: nat): (s: string)
    ensures |s| == k && forall i | 0 <= i < k :: s[i] == '0'
  {
    seq(k, i => '0')
  }

  lemma {:induction false} PaddedZero(k: nat)
    ensures Padded(0, k) == Zeros(k)
  {
    if k > 0 {
      PaddedZero(k - 1);
    }
  }

  function SignText(neg: bool): string
  {
    if neg then "-" else ""
  }

  /** `%+d`: the exponent with its sign always written. */
  function ExpText(e: int): (s: string)
    ensures 2 <= |s| && (s[0] == '+' || s[0] == '-') && AllDigits(s[1..])
    ensures -1000 < e < 1000 ==> |s| <= 4
  {
    var m := if e >= 0 then e else -e;
    ShortDigits(m);
    (if e >= 0 then "+" else "-") + DigitsOf(m)
  }

  /** The leading digit of a significand: 1 to 9, or 10 for a non-canonical one. */
  lemma LeadingDigit(x: Dec)
    requires IsNormal(x)
    ensures 1 <= Sig(x) / MinSig <= 10
    ensures IsCanonical(x) <==> Sig(x) / MinSig <= 9
  {
  }

  function PointText(point: bool): string
  {
    if point then "." else ""
  }

  function ExpPart(hasExp: bool, e: int): (s: string)
    ensures s == [] || s[0] == 'e'
  {
    if hasExp then "e" + ExpText(e) else ""
  }

  /**
   * The numerals fromstring reads and tostring writes: an optional '-',
   * integer digits, an optional point, fraction digits and an optional
   * 'e' with a signed exponent.
   */
  function Numeral(neg: bool, whole: string, point: bool, frac: string, hasExp: bool, e: int): (s: string)
    ensures |s| == |SignText(neg)| + |whole| + (if point then 1 else 0) + |frac| + (if hasExp then 1 + |ExpText(e)| else 0)
  {
    SignText(neg) + (whole + (PointText(point) + (frac + ExpPart(hasExp, e))))
  }

  /**
   * dm_double_tostring of dm_double.c: sprintf of the leading digit
   * (negated when the sign is set), a point, the other fifteen digits
   * zero-padded, 'e' and the exponent with its sign.  A non-canonical
   * value prints its leading 10, which the 25-byte buffer has room for.
   */
  function ToString(x: Dec): (s: string)
    ensures 3 <= |s| <= 24 && (IsCanonical(x) ==> |s| <= 23)
    ensures s[0] == '-' <==> x.neg
  {
    if IsNaN(x) then SignText(x.neg) + "NaN"
    else if IsInf(x) then SignText(x.neg) + "Inf"
    else if IsZero(x) then SignText(x.neg) + "0.000000000000000e+0"
    else
      Pow10Table();
      LeadingDigit(x);
      DigitsOfLength(Sig(x) / MinSig, 2);
      Numeral(x.neg, DigitsOf(Sig(x) / MinSig), true, Padded(Sig(x) % MinSig, 15), true, x.exp)
  }

  /** The exponent digits dm_double_m.c's tostring writes: three, two or one, by the exponent's size. */
  function ExpDigits3(m: int): (s: string)
    requires 0 <= m <= 999
    ensures AllDigits(s)
  {
    if m > 99 then [DigitChar(m / 100), DigitChar(m / 10 % 10), DigitChar(m % 10)]
    else if m > 9 then [DigitChar(m / 10), DigitChar(m % 10)]
    else [DigitChar(m)]
  }

  /**
   * The characters dm_double_m.c's tostring writes after the sign: one
   * digit, the point, fifteen digits, 'e', the exponent's sign and its
   * digits.
   */
  function ManualDigits(digit: int, rest: int, exp: int): (s: string)
    requires 0 <= digit <= 9 && 0 <= rest < MinSig && -999 <= exp <= 999
    ensures 19 <= |s| <= 22
  {
    Pow10Table();
    [DigitChar(digit)] + ("." + (Padded(rest, 15) +
      ("e" + ([if exp >= 0 then '+' else '-'] + ExpDigits3(if exp >= 0 then exp else -exp)))))
  }

  /**
   * dm_double_tostring of dm_double_m.c, which writes the characters one
   * by one: a zero as significand 0 at exponent 0, and a leading digit of
   * 10 written as '0'.
   */
  function ToStringManual(x: Dec): (s: string)
    ensures 3 <= |s| <= 23
    ensures s[0] == '-' <==> x.neg
  {
    if IsNaN(x) then SignText(x.neg) + "NaN"
    else if IsInf(x) then SignText(x.neg) + "Inf"
    else
      var exp := if IsZero(x) then 0 else x.exp;
      var sig := if IsZero(x) then 0 else Sig(x);
      var digit := if sig / MinSig == 10 then 0 else sig / MinSig;
      SignText(x.neg) + ManualDigits(digit, sig % MinSig, exp)
  }

  /** Up to three digits, dm_double_m.c's exponent digits are `%d`'s. */
  lemma ExpDigitsAgree(m: int)
    requires 0 <= m <= 999
    ensures ExpDigits3(m) == DigitsOf(m)
  {
    if m > 9 {
      assert DigitsOf(m) == DigitsOf(m / 10) + [DigitChar(m % 10)];
      if m > 99 {
        assert DigitsOf(m / 10) == DigitsOf(m / 100) + [DigitChar(m / 10 % 10)];
      }
    }
  }

  /** The two layouts print the same string exactly for the canonical values. */
  lemma ToStringLayouts(x: Dec)
    ensures ToStringManual(x) == ToString(x) <==> IsCanonical(x)
  {
    if IsZero(x) {
      ZeroLayouts(x);
    } else if IsNormal(x) {
      LeadingDigit(x);
      if IsCanonical(x) {
        NormalLayouts(x);
      } else {
        OverLayouts(x);
      }
    }
  }

  lemma ZeroLayouts(x: Dec)
    requires IsZero(x)
    ensures ToStringManual(x) == ToString(x)
  {
    ManualZero(x);
    ZeroDigits();
  }

  lemma ManualZero(x: Dec)
    requires IsZero(x)
    ensures ToStringManual(x) == SignText(x.neg) + ManualDigits(0, 0, 0)
  {
  }

  /** The digits of zero as dm_double_m.c writes them, which dm_double.c spells out. */
  lemma ZeroDigits()
    ensures ManualDigits(0, 0, 0) == "0.000000000000000e+0"
  {
    FifteenZeros();
    assert ExpDigits3(0) == "0" && DigitChar(0) == '0';
    assert ManualDigits(0, 0, 0) == "0" + ("." + ("000000000000000" + ("e" + ("+" + "0"))));
    assert "e" + ("+" + "0") == "e+0";
    ZeroJoins();
  }

  lemma FifteenZeros()
    ensures Pow10(15) == MinSig && Padded(0, 15) == "000000000000000"
  {
    Pow10Table();
    PaddedZero(15);
    assert Zeros(15) == "000000000000000";
  }

  lemma NormalLayouts(x: Dec)
    requires IsNormal(x) && 1 <= Sig(x) / MinSig <= 9
    ensures ToStringManual(x) == ToString(x)
  {
    var d, rest := Sig(x) / MinSig, Sig(x) % MinSig;
    Pow10Table();
    ToStringNormal(x);
    ManualNormal(x, d);
    SameDigits(d, rest, x.exp);
  }

  lemma ToStringNormal(x: Dec)
    requires IsNormal(x) && 1 <= Sig(x) / MinSig <= 9
    ensures Sig(x) % MinSig < Pow10(15)
    ensures ToString(x) == Numeral(x.neg, DigitsOf(Sig(x) / MinSig), true, Padded(Sig(x) % MinSig, 15), true, x.exp)
  {
    Pow10Table();
  }

  lemma ManualNormal(x: Dec, d: int)
    requires IsNormal(x) && d == Sig(x) / MinSig && 1 <= d <= 9
    ensures ToStringManual(x) == SignText(x.neg) + ManualDigits(d, Sig(x) % MinSig, x.exp)
  {
  }

  /** A one-digit lead and a short exponent: dm_double_m.c's characters are the numeral's. */
  lemma SameDigits(d: int, rest: int, e: int)
    requires 1 <= d <= 9 && 0 <= rest < MinSig && -999 <= e <= 999
    ensures rest < Pow10(15)
    ensures ManualDigits(d, rest, e) == [DigitChar(d)] + (PointText(true) + (Padded(rest, 15) + ExpPart(true, e)))
    ensures DigitsOf(d) == [DigitChar(d)]
  {
    Pow10Table();
    var m := if e >= 0 then e else -e;
    ExpDigitsAgree(m);
    assert ExpText(e) == [if e >= 0 then '+' else '-'] + DigitsOf(m);
  }

  lemma OverLayouts(x: Dec)
    requires IsNormal(x) && Sig(x) / MinSig == 10
    ensures ToStringManual(x) != ToString(x)
  {
    var k := |SignText(x.neg)|;
    assert DigitsOf(10) == [DigitChar(1), DigitChar(0)];
    assert ToString(x)[k] == '1' && ToStringManual(x)[k] == '0';
  }

  /**
   * The significand state of fromstring: the digits kept and their count,
   * whether a significant digit has been seen, and, past sixteen digits,
   * whether any were dropped, whether all of those were zeros, and the
   * residue: 1 below half a unit, 0 at exactly half (or while all are
   * zeros), -1 above.
   */
  datatype Scan = Scan(sig: int, digits: int, realDigit: bool, hasResidue: bool, allZero: bool, residue: int)

  const Start: Scan := Scan(0, 0, false, false, true, 0)

  /** The states the digit loops keep. */
  predicate Good(st: Scan)
  {
    0 <= st.digits <= Cutoff && 0 <= st.sig < Pow10(st.digits) &&
    (st.realDigit <==> 0 < st.digits) &&
    (0 < st.digits ==> Pow10(st.digits - 1) <= st.sig) &&
    (st.hasResidue ==> st.digits == Cutoff) &&
    (!st.hasResidue ==> st.allZero && st.residue == 0) &&
    -1 <= st.residue <= 1 && (st.residue != 0 ==> !st.allZero)
  }

  /**
   * The body the two digit loops share: below sixteen digits a digit is
   * appended unless it is a leading zero; the first dropped digit sets the
   * residue by its comparison with 5; a later nonzero one decides a
   * residue still at 0, below half after zeros, above half after a 5.
   */
  function Take(st: Scan, c: char): (r: Scan)
    requires IsDigit(c)
  {
    if st.digits < Cutoff then
      if st.realDigit || c != '0' then
        st.(sig := st.sig * 10 + DigitValue(c), digits := st.digits + 1, realDigit := true)
      else st
    else if !st.hasResidue then
      if c == '0' then st.(hasResidue := true)
      else st.(hasResidue := true, allZero := false, residue := if c > '5' then -1 else if c < '5' then 1 else 0)
    else if st.residue == 0 && c != '0' then
      st.(residue := if st.allZero then 1 else -1, allZero := false)
    else st
  }

  lemma TakeGood(st: Scan, c: char)
    requires Good(st) && IsDigit(c)
    ensures Good(Take(st, c))
  {
    if st.digits < Cutoff && (st.realDigit || c != '0') {
      if st.digits > 0 {
        assert Pow10(st.digits) == 10 * Pow10(st.digits - 1);
      }
    }
  }

  /** The integer-digit loop: each digit taken, the exponent raised once a significant digit has been seen. */
  function IntPart(s: string, st: Scan, exp: int): (Scan, int, string)
    decreases |s|
  {
    if |s| == 0 || !IsDigit(s[0]) then (st, exp, s)
    else
      var st' := Take(st, s[0]);
      IntPart(s[1..], st', if st'.realDigit then exp + 1 else exp)
  }

  /** The fraction-digit loop: each digit taken, the exponent lowered while no significant digit has been seen. */
  function FracPart(s: string, st: Scan, exp: int): (Scan, int, string)
    decreases |s|
  {
    if |s| == 0 || !IsDigit(s[0]) then (st, exp, s)
    else
      var st' := Take(st, s[0]);
      FracPart(s[1..], st', if !st'.realDigit then exp - 1 else exp)
  }

  /**
   * The exponent digits: each one appended to the value, and the loop
   * left once the signed value passes twice the exponent range.
   */
  function ExpDigits(s: string, value: int, sgn: int): (v: int)
    requires sgn == 1 || sgn == -1
    requires 0 <= value <= 2 * MaxExp
    ensures 0 <= v <= 20 * MaxExp + 9
    decreases |s|
  {
    if |s| == 0 || !IsDigit(s[0]) then value
    else
      var v := value * 10 + DigitValue(s[0]);
      if v * sgn > 2 * MaxExp || v * sgn < 2 * MinExp then v
      else ExpDigits(s[1..], v, sgn)
  }

  /** The exponent field after the 'e': a '-', then a '+' is still skipped, and the digits. */
  function ExponentField(s: string): (e: int)
    ensures -(20 * MaxExp + 9) <= e <= 20 * MaxExp + 9
  {
    var negExp := |s| > 0 && s[0] == '-';
    var s1 := if negExp then s[1..] else s;
    var s2 := if |s1| > 0 && s1[0] == '+' then s1[1..] else s1;
    var sgn := if negExp then -1 else 1;
    ExpDigits(s2, 0, sgn) * sgn
  }

  /** A significand of `digits` digits, the first one nonzero, padded to sixteen. */
  lemma PadBounds(sig: int, digits: int)
    requires 0 < digits <= Cutoff && Pow10(digits - 1) <= sig < Pow10(digits)
    ensures MinSig <= sig * Pow10(Cutoff - digits) < Bias
  {
    Pow10Add(digits - 1, Cutoff - digits);
    Pow10Add(digits, Cutoff - digits);
    Pow10Table();
    MulLe(Pow10(digits - 1), Pow10(Cutoff - digits), sig, Pow10(Cutoff - digits));
    MulLt(sig, Pow10(Cutoff - digits), Pow10(digits), Pow10(Cutoff - digits) + 1);
    assert sig * Pow10(Cutoff - digits) < Pow10(digits) * Pow10(Cutoff - digits) by {
      ScaleBelow(sig, Pow10(digits), Pow10(Cutoff - digits));
    }
  }

  lemma ScaleBelow(a: int, b: int, p: int)
    requires 0 <= a < b && 0 < p
    ensures a * p < b * p
  {
    MulLe(a + 1, p, b, p);
  }

  /**
   * The significand padded to sixteen digits and rounded by the residue:
   * a dropped part of exactly zero counts as below half and exact.
   */
  function RoundedSig(st: Scan, neg: bool, mode: int): (r: int)
    requires Good(st)
    ensures st.digits == 0 ==> r == 0
    ensures 0 < st.digits ==> MinSig <= r <= Bias
  {
    var sig := PaddedSig(st);
    var residue := if st.allZero then 1 else st.residue;
    sig + DecideRound(neg, sig % 2 == 1, residue, st.allZero, mode)
  }

  /** The digits kept, shifted up to sixteen places. */
  function PaddedSig(st: Scan): (sig: int)
    requires Good(st)
    ensures st.digits == 0 ==> sig == 0
    ensures 0 < st.digits ==> MinSig <= sig < Bias
  {
    if 0 < st.digits then PadBounds(st.sig, st.digits); st.sig * Pow10(Cutoff - st.digits)
    else 0
  }

  /**
   * The digit loops of fromstring: the integer digits from the start
   * state and an exponent of -1, a '.' or ',' skipped, then the fraction
   * digits.
   */
  function Mantissa(s: string): (Scan, int, string)
  {
    var i := IntPart(s, Start, -1);
    FracPart(SkipSeparator(i.2), i.0, i.1)
  }

  /** The loops keep the state good. */
  lemma {:induction false} IntPartGood(s: string, st: Scan, exp: int)
    requires Good(st)
    ensures Good(IntPart(s, st, exp).0)
    decreases |s|
  {
    if |s| > 0 && IsDigit(s[0]) {
      var st' := Take(st, s[0]);
      TakeGood(st, s[0]);
      IntPartGood(s[1..], st', if st'.realDigit then exp + 1 else exp);
    }
  }

  lemma {:induction false} FracPartGood(s: string, st: Scan, exp: int)
    requires Good(st)
    ensures Good(FracPart(s, st, exp).0)
    decreases |s|
  {
    if |s| > 0 && IsDigit(s[0]) {
      var st' := Take(st, s[0]);
      TakeGood(st, s[0]);
      FracPartGood(s[1..], st', if !st'.realDigit then exp - 1 else exp);
    }
  }

  lemma MantissaGood(s: string)
    ensures Good(Mantissa(s).0)
  {
    var i := IntPart(s, Start, -1);
    IntPartGood(s, Start, -1);
    FracPartGood(SkipSeparator(i.2), i.0, i.1);
  }

  /** A '.' or ',' at the head is skipped. */
  function SkipSeparator(s: string): (r: string)
    ensures r == s || (|s| > 0 && (s[0] == '.' || s[0] == ',') && r == s[1..])
  {
    if |s| > 0 && (s[0] == '.' || s[0] == ',') then s[1..] else s
  }

  /** The exponent after an 'e' or 'E' at the head, 0 when there is none. */
  function ExpSuffix(s: string): (e: int)
    ensures -(20 * MaxExp + 9) <= e <= 20 * MaxExp + 9
  {
    if |s| > 0 && (s[0] == 'e' || s[0] == 'E') then ExponentField(s[1..]) else 0
  }

  /**
   * Everything fromstring computes before the exponent range is applied:
   * the sign, the exponent of the leading digit plus the exponent field,
   * and the rounded significand (a carry to 10^16 renormalised), or 0
   * when there was no nonzero digit.
   */
  function ReadRaw(s: string, mode: int): (w: Raw)
    ensures w.neg == (|s| > 0 && s[0] == '-')
    ensures w.sig == 0 || MinSig <= w.sig <= MaxSig
  {
    var neg := |s| > 0 && s[0] == '-';
    var f := Mantissa(if neg then s[1..] else s);
    MantissaGood(if neg then s[1..] else s);
    var rounded := RoundedSig(f.0, neg, mode);
    var exp := (if rounded == Bias then f.1 + 1 else f.1) + ExpSuffix(f.2);
    Raw(neg, exp, if rounded == Bias then MinSig else rounded)
  }

  /**
   * dm_double_fromstring: no nonzero digit gives the zero of the sign;
   * otherwise the exponent range is applied, an infinity or a zero of the
   * sign outside it.  `(c | ' ') == 'e'` holds for 'e' and 'E' only.
   */
  function FromString(s: string, mode: int): (r: Dec)
    ensures IsCanonical(r) && r.neg == (|s| > 0 && s[0] == '-')
  {
    var w := ReadRaw(s, mode);
    if w.sig == 0 then SignedZero(w.neg) else Flush(w)
  }

  // ---------------------------------------------------------------- digit strings

  /** Value reads a concatenation as the first part shifted past the second. */
  lemma {:induction false} ValueAppend(a: string, b: string)
    requires AllDigits(a) && AllDigits(b)
    ensures AllDigits(a + b) && Value(a + b) == Value(a) * Pow10(|b|) + Value(b)
    decreases |b|
  {
    if |b| > 0 {
      var b', ab := b[..|b| - 1], a + b;
      assert ab[..|ab| - 1] == a + b' && ab[|ab| - 1] == b[|b| - 1];
      ValueAppend(a, b');
      ShiftStep(Value(a), Pow10(|b'|), Value(b'), DigitValue(b[|b| - 1]));
    } else {
      assert a + b == a;
    }
  }

  lemma ShiftStep(v: int, p: int, u: int, d: int)
    ensures (v * p + u) * 10 + d == v * (p * 10) + (u * 10 + d)
  {
  }

  /** k digits spell less than 10^k, and at least 10^(k-1) when the first is not a zero. */
  lemma {:induction false} ValueBounds(s: string)
    requires AllDigits(s)
    ensures Value(s) < Pow10(|s|)
    ensures |s| > 0 && s[0] != '0' ==> Pow10(|s| - 1) <= Value(s)
    decreases |s|
  {
    if |s| > 0 {
      var p := s[..|s| - 1];
      ValueBounds(p);
      if |p| > 0 {
        assert p[0] == s[0];
      }
    }
  }

  /** The number of leading zeros. */
  function LeadZeros(s: string): (z: nat)
    ensures z <= |s| && forall i | 0 <= i < z :: s[i] == '0'
    ensures z < |s| ==> s[z] != '0'
  {
    if |s| == 0 || s[0] != '0' then 0 else 1 + LeadZeros(s[1..])
  }

  /** Leading zeros do not change the value. */
  lemma LeadZerosValue(s: string)
    requires AllDigits(s)
    ensures Value(s[LeadZeros(s)..]) == Value(s)
  {
    var z := LeadZeros(s);
    assert s == s[..z] + s[z..];
    ZerosValue(s[..z]);
    ValueAppend(s[..z], s[z..]);
  }

  lemma {:induction false} ZerosValue(s: string)
    requires forall i | 0 <= i < |s| :: s[i] == '0'
    ensures AllDigits(s) && Value(s) == 0
    decreases |s|
  {
    if |s| > 0 {
      ZerosValue(s[..|s| - 1]);
    }
  }

  // ---------------------------------------------------------------- the scanner

  /** The digits taken one after another, from the left. */
  function Fold(st: Scan, ds: string): (r: Scan)
    requires AllDigits(ds)
    decreases |ds|
  {
    if |ds| == 0 then st else Fold(Take(st, ds[0]), ds[1..])
  }

  /** The digits taken keep a state the loops can be in. */
  lemma {:induction false} FoldGood(st: Scan, ds: string)
    requires Good(st) && AllDigits(ds)
    ensures Good(Fold(st, ds))
    decreases |ds|
  {
    if |ds| > 0 {
      TakeGood(st, ds[0]);
      FoldGood(Take(st, ds[0]), ds[1..]);
    }
  }

  lemma {:induction false} FoldSnoc(st: Scan, ds: string, c: char)
    requires AllDigits(ds) && IsDigit(c)
    ensures AllDigits(ds + [c]) && Fold(st, ds + [c]) == Take(Fold(st, ds), c)
    decreases |ds|
  {
    if |ds| > 0 {
      assert (ds + [c])[1..] == ds[1..] + [c];
      FoldSnoc(Take(st, ds[0]), ds[1..], c);
    }
  }

  lemma {:induction false} FoldAppend(st: Scan, a: string, b: string)
    requires AllDigits(a) && AllDigits(b)
    ensures AllDigits(a + b) && Fold(st, a + b) == Fold(Fold(st, a), b)
    decreases |a|
  {
    if |a| > 0 {
      assert (a + b)[1..] == a[1..] + b;
      FoldAppend(Take(st, a[0]), a[1..], b);
    } else {
      assert a + b == b;
    }
  }

  /** Leading zeros leave the start state alone. */
  lemma {:induction false} FoldLeadZeros(ds: string)
    requires AllDigits(ds)
    ensures Fold(Start, ds) == Fold(Start, ds[LeadZeros(ds)..])
    ensures Fold(Start, ds).realDigit <==> LeadZeros(ds) < |ds|
    ensures LeadZeros(ds) == |ds| ==> Fold(Start, ds) == Start
    decreases |ds|
  {
    if |ds| > 0 && ds[0] == '0' {
      FoldLeadZeros(ds[1..]);
    } else if |ds| > 0 {
      FoldReal(Take(Start, ds[0]), ds[1..]);
    }
  }

  /** Once a significant digit has been seen it stays seen. */
  lemma {:induction false} FoldReal(st: Scan, ds: string)
    requires AllDigits(ds) && st.realDigit
    ensures Fold(st, ds).realDigit
    decreases |ds|
  {
    if |ds| > 0 {
      FoldReal(Take(st, ds[0]), ds[1..]);
    }
  }

  /** After a significant digit, the integer loop raises the exponent once per digit. */
  lemma {:induction false} IntPartReal(ds: string, rest: string, st: Scan, exp: int)
    requires AllDigits(ds) && st.realDigit && (rest == [] || !IsDigit(rest[0]))
    ensures IntPart(ds + rest, st, exp) == (Fold(st, ds), exp + |ds|, rest)
    decreases |ds|
  {
    if |ds| > 0 {
      assert (ds + rest)[0] == ds[0] && (ds + rest)[1..] == ds[1..] + rest;
      TakeReal(st, ds[0]);
      IntPartStep(ds + rest, st, exp);
      IntPartReal(ds[1..], rest, Take(st, ds[0]), exp + 1);
    } else {
      assert ds + rest == rest;
    }
  }

  /** A significant digit, once seen, stays seen. */
  lemma TakeReal(st: Scan, c: char)
    requires IsDigit(c) && st.realDigit
    ensures Take(st, c).realDigit
  {
  }

  /** One turn of the integer loop. */
  lemma IntPartStep(s: string, st: Scan, exp: int)
    requires |s| > 0 && IsDigit(s[0])
    ensures IntPart(s, st, exp) == IntPart(s[1..], Take(st, s[0]), if Take(st, s[0]).realDigit then exp + 1 else exp)
  {
  }

  /** One turn of the fraction loop. */
  lemma FracPartStep(s: string, st: Scan, exp: int)
    requires |s| > 0 && IsDigit(s[0])
    ensures FracPart(s, st, exp) == FracPart(s[1..], Take(st, s[0]), if !Take(st, s[0]).realDigit then exp - 1 else exp)
  {
  }

  /** From the start, the integer loop counts the digits from the first significant one on. */
  lemma {:induction false} IntPartStart(ds: string, rest: string, exp: int)
    requires AllDigits(ds) && (rest == [] || !IsDigit(rest[0]))
    ensures IntPart(ds + rest, Start, exp) == (Fold(Start, ds), exp + |ds| - LeadZeros(ds), rest)
    decreases |ds|
  {
    if |ds| > 0 {
      assert (ds + rest)[1..] == ds[1..] + rest;
      if ds[0] == '0' {
        IntPartStart(ds[1..], rest, exp);
      } else {
        TakeGood(Start, ds[0]);
        IntPartReal(ds[1..], rest, Take(Start, ds[0]), exp + 1);
      }
    } else {
      assert ds + rest == rest;
    }
  }

  /** After a significant digit, the fraction loop leaves the exponent alone. */
  lemma {:induction false} FracPartReal(ds: string, rest: string, st: Scan, exp: int)
    requires AllDigits(ds) && st.realDigit && (rest == [] || !IsDigit(rest[0]))
    ensures FracPart(ds + rest, st, exp) == (Fold(st, ds), exp, rest)
    decreases |ds|
  {
    if |ds| > 0 {
      assert (ds + rest)[0] == ds[0] && (ds + rest)[1..] == ds[1..] + rest;
      TakeReal(st, ds[0]);
      FracPartStep(ds + rest, st, exp);
      FracPartReal(ds[1..], rest, Take(st, ds[0]), exp);
    } else {
      assert ds + rest == rest;
    }
  }

  /** From the start, the fraction loop lowers the exponent once per leading zero. */
  lemma {:induction false} FracPartStart(ds: string, rest: string, exp: int)
    requires AllDigits(ds) && (rest == [] || !IsDigit(rest[0]))
    ensures FracPart(ds + rest, Start, exp) == (Fold(Start, ds), exp - LeadZeros(ds), rest)
    decreases |ds|
  {
    if |ds| > 0 {
      assert (ds + rest)[1..] == ds[1..] + rest;
      if ds[0] == '0' {
        FracPartStart(ds[1..], rest, exp - 1);
      } else {
        TakeGood(Start, ds[0]);
        FracPartReal(ds[1..], rest, Take(Start, ds[0]), exp);
      }
    } else {
      assert ds + rest == rest;
    }
  }

  /**
   * After the integer loop over `whole`, the fraction loop over `frac`
   * ends in the state of all the digits taken in turn, with the exponent
   * of the first significant digit: the integer digits from it on, less
   * one.
   */
  lemma FracAfterWhole(whole: string, frac: string, rest: string, st1: Scan, e1: int)
    requires AllDigits(whole) && AllDigits(frac) && (rest == [] || !IsDigit(rest[0]))
    requires st1 == Fold(Start, whole) && Good(st1) && e1 == |whole| - LeadZeros(whole) - 1
    ensures AllDigits(whole + frac)
    ensures FracPart(frac + rest, st1, e1) == (Fold(Start, whole + frac), |whole| - LeadZeros(whole + frac) - 1, rest)
  {
    FoldLeadZeros(whole);
    FoldAppend(Start, whole, frac);
    LeadZerosAppend(whole, frac);
    if st1.realDigit {
      FracPartReal(frac, rest, st1, e1);
    } else {
      FracPartStart(frac, rest, e1);
    }
  }

  lemma {:induction false} LeadZerosAppend(a: string, b: string)
    ensures LeadZeros(a) < |a| ==> LeadZeros(a + b) == LeadZeros(a)
    ensures LeadZeros(a) == |a| ==> LeadZeros(a + b) == |a| + LeadZeros(b)
    decreases |a|
  {
    if |a| > 0 {
      assert (a + b)[1..] == a[1..] + b;
      LeadZerosAppend(a[1..], b);
    } else {
      assert a + b == b;
    }
  }

  // ---------------------------------------------------------------- what the state holds

  /** The sign of an integer, as -1, 0 or 1. */
  function Sgn(v: int): (r: int)
    ensures (r == 1 <==> 0 < v) && (r == 0 <==> v == 0) && (r == -1 <==> v < 0)
  {
    if 0 < v then 1 else if v < 0 then -1 else 0
  }

  /**
   * st is what the loops keep of the significant digits sd: the first
   * sixteen as the significand; whether more followed; whether those were
   * all zeros; and otherwise the sign of half a unit less their value.
   */
  predicate Describes(st: Scan, sd: string)
    requires AllDigits(sd)
  {
    var d := if |sd| < Cutoff then |sd| else Cutoff;
    st.digits == d && st.sig == Value(sd[..d]) && (st.realDigit <==> 0 < |sd|) &&
    (st.hasResidue <==> Cutoff < |sd|) &&
    (st.allZero <==> Value(sd[d..]) == 0) &&
    (!st.allZero ==> st.residue == Sgn(Pow10(|sd| - d) - 2 * Value(sd[d..])))
  }

  /** Taking the digits from the first significant one on leaves a state that describes them. */
  lemma {:induction false} FoldDescribes(sd: string)
    requires AllDigits(sd) && (|sd| == 0 || sd[0] != '0')
    ensures Describes(Fold(Start, sd), sd)
    decreases |sd|
  {
    if |sd| == 0 {
      assert sd[..0] == [] && sd[0..] == [];
    } else {
      var p, c := sd[..|sd| - 1], sd[|sd| - 1];
      assert sd == p + [c];
      FoldSnoc(Start, p, c);
      if |p| > 0 {
        assert p[0] == sd[0];
      }
      FoldDescribes(p);
      FoldGood(Start, p);
      TakeDescribes(Fold(Start, p), p, c);
    }
  }

  lemma TakeDescribes(st: Scan, p: string, c: char)
    requires AllDigits(p) && IsDigit(c) && Good(st) && Describes(st, p) && (|p| == 0 ==> c != '0')
    ensures AllDigits(p + [c]) && Describes(Take(st, c), p + [c])
  {
    if |p| < Cutoff {
      TakeKept(st, p, c);
    } else if |p| == Cutoff {
      TakeFirstDropped(st, p, c);
    } else {
      TakeLaterDropped(st, p, c);
    }
  }

  lemma TakeKept(st: Scan, p: string, c: char)
    requires AllDigits(p) && IsDigit(c) && Good(st) && Describes(st, p) && (|p| == 0 ==> c != '0') && |p| < Cutoff
    ensures AllDigits(p + [c]) && Describes(Take(st, c), p + [c])
  {
    var sd := p + [c];
    assert sd[..|sd|] == sd && sd[..|sd| - 1] == p && p[..|p|] == p;
    assert sd[|sd|..] == [] && p[|p|..] == [];
  }

  lemma TakeFirstDropped(st: Scan, p: string, c: char)
    requires AllDigits(p) && IsDigit(c) && Good(st) && Describes(st, p) && |p| == Cutoff
    ensures AllDigits(p + [c]) && Describes(Take(st, c), p + [c])
  {
    var sd := p + [c];
    assert sd[..Cutoff] == p && p[..Cutoff] == p && p[Cutoff..] == [];
    assert sd[Cutoff..] == [c] && [c][..0] == [];
    assert Value([c]) == DigitValue(c);
    assert Pow10(1) == 10;
  }

  lemma TakeLaterDropped(st: Scan, p: string, c: char)
    requires AllDigits(p) && IsDigit(c) && Good(st) && Describes(st, p) && Cutoff < |p|
    ensures AllDigits(p + [c]) && Describes(Take(st, c), p + [c])
  {
    var sd := p + [c];
    PastSlices(p, c);
    var v, n := Value(p[Cutoff..]), |p| - Cutoff;
    DescribedPast(st, p);
    DroppedStep(st, c, v, n);
    DescribesPast(Take(st, c), sd);
  }

  /** Appending a digit past the sixteenth keeps the kept digits and extends the dropped ones. */
  lemma PastSlices(p: string, c: char)
    requires AllDigits(p) && IsDigit(c) && Cutoff < |p|
    ensures AllDigits(p + [c]) && (p + [c])[..Cutoff] == p[..Cutoff]
    ensures Value((p + [c])[Cutoff..]) == Value(p[Cutoff..]) * 10 + DigitValue(c)
  {
    var tail := p[Cutoff..];
    assert (p + [c])[Cutoff..] == tail + [c] && (tail + [c])[..|tail|] == tail;
  }

  /** What a state describing more than sixteen digits says about each of its fields. */
  lemma DescribedPast(st: Scan, sd: string)
    requires AllDigits(sd) && Cutoff < |sd| && Describes(st, sd)
    ensures st.digits == Cutoff && st.sig == Value(sd[..Cutoff]) && st.realDigit && st.hasResidue
    ensures st.allZero <==> Value(sd[Cutoff..]) == 0
    ensures !st.allZero ==> st.residue == Sgn(Pow10(|sd| - Cutoff) - 2 * Value(sd[Cutoff..]))
  {
  }

  /** A state past the sixteenth digit describes the digits when each of its fields does. */
  lemma DescribesPast(r: Scan, sd: string)
    requires AllDigits(sd) && Cutoff < |sd|
    requires r.digits == Cutoff && r.sig == Value(sd[..Cutoff]) && r.realDigit && r.hasResidue
    requires r.allZero <==> Value(sd[Cutoff..]) == 0
    requires !r.allZero ==> r.residue == Sgn(Pow10(|sd| - Cutoff) - 2 * Value(sd[Cutoff..]))
    ensures Describes(r, sd)
  {
  }

  /** The dropped-digit fields of the state after one more dropped digit, in terms of their values. */
  lemma DroppedStep(st: Scan, c: char, v: nat, n: nat)
    requires IsDigit(c) && Good(st) && st.hasResidue && 1 <= n
    requires st.allZero <==> v == 0
    requires !st.allZero ==> st.residue == Sgn(Pow10(n) - 2 * v)
    ensures Take(st, c).digits == st.digits && Take(st, c).sig == st.sig
    ensures Take(st, c).realDigit == st.realDigit && Take(st, c).hasResidue
    ensures Take(st, c).allZero <==> v * 10 + DigitValue(c) == 0
    ensures !Take(st, c).allZero ==> Take(st, c).residue == Sgn(Pow10(n + 1) - 2 * (v * 10 + DigitValue(c)))
  {
    assert Pow10(n + 1) == 10 * Pow10(n);
    assert Pow10(n) == 10 * Pow10(n - 1);
    ResidueStep(Pow10(n), v, DigitValue(c), Pow10(n - 1));
  }

  /** How the sign of half a unit less the dropped digits moves when one more digit is dropped. */
  lemma ResidueStep(p: int, v: int, c: int, p1: int)
    requires p == 10 * p1 && 1 <= p1 && 0 <= v && 0 <= c <= 9
    ensures p - 2 * v > 0 ==> 10 * p - 2 * (v * 10 + c) > 0
    ensures p - 2 * v < 0 ==> 10 * p - 2 * (v * 10 + c) < 0
    ensures p - 2 * v == 0 ==> Sgn(10 * p - 2 * (v * 10 + c)) == (if c == 0 then 0 else -1)
  {
    var k := p - 2 * v;
    assert 10 * p - 2 * (v * 10 + c) == 10 * k - 2 * c;
  }

  // ---------------------------------------------------------------- the significand read

  /** Up to sixteen significant digits are kept whole and padded: no rounding happens. */
  lemma KeptSig(st: Scan, sd: string, neg: bool, mode: int)
    requires AllDigits(sd) && 0 < |sd| <= Cutoff && Good(st) && Describes(st, sd)
    ensures RoundedSig(st, neg, mode) == Value(sd) * Pow10(Cutoff - |sd|)
  {
    assert sd[..|sd|] == sd && sd[|sd|..] == [];
  }

  /**
   * Past sixteen significant digits, the significand read is the digits'
   * value divided by the power of ten of the dropped ones, rounded as the
   * mode prescribes.
   */
  lemma DroppedSig(st: Scan, sd: string, neg: bool, mode: int, t: int)
    requires AllDigits(sd) && Cutoff < |sd| && sd[0] != '0' && Good(st) && Describes(st, sd)
    requires t == Pow10(|sd| - Cutoff)
    ensures 0 < t && MinSig <= Value(sd) / t <= MaxSig
    ensures RoundsTo(Value(sd), t, neg, mode, RoundedSig(st, neg, mode))
  {
    HeadTail(sd, t);
    var n, q, rem := Value(sd), Value(sd[..Cutoff]), Value(sd[Cutoff..]);
    RoundedSigDropped(st, neg, mode, q, t, rem);
    DecideRoundCorrect(n, t, q, rem, neg, mode, RoundedSig(st, neg, mode));
  }

  /** With sixteen digits kept, the residue stands in for the remainder in the rounding decision. */
  lemma RoundedSigDropped(st: Scan, neg: bool, mode: int, q: int, t: int, rem: int)
    requires Good(st) && st.digits == Cutoff && st.sig == q && 0 <= rem < t
    requires (st.allZero <==> rem == 0) && (!st.allZero ==> st.residue == Sgn(t - 2 * rem))
    ensures RoundedSig(st, neg, mode) == q + DecideRound(neg, q % 2 == 1, t - 2 * rem, rem == 0, mode)
  {
    var residue := if st.allZero then 1 else st.residue;
    PaddedFull(st);
    assert RoundedSig(st, neg, mode) == q + DecideRound(neg, q % 2 == 1, residue, st.allZero, mode);
    DecideRoundSign(neg, q % 2 == 1, residue, t - 2 * rem, st.allZero, mode);
  }

  /** Sixteen digits kept need no padding. */
  lemma PaddedFull(st: Scan)
    requires Good(st) && st.digits == Cutoff
    ensures PaddedSig(st) == st.sig
  {
    ScaleByOne(st.sig);
  }

  /** The first sixteen significant digits are the quotient by the power of ten of the rest, the rest the remainder. */
  lemma HeadTail(sd: string, t: int)
    requires AllDigits(sd) && Cutoff < |sd| && sd[0] != '0' && t == Pow10(|sd| - Cutoff)
    ensures 0 < t && MinSig <= Value(sd[..Cutoff]) <= MaxSig && 0 <= Value(sd[Cutoff..]) < t
    ensures Value(sd) == Value(sd[..Cutoff]) * t + Value(sd[Cutoff..])
    ensures Value(sd) / t == Value(sd[..Cutoff]) && Value(sd) % t == Value(sd[Cutoff..])
  {
    var head, tail := sd[..Cutoff], sd[Cutoff..];
    assert sd == head + tail && head[0] == sd[0];
    ValueAppend(head, tail);
    ValueBounds(head);
    ValueBounds(tail);
    Pow10Table();
    DivModUnique(Value(sd), t, Value(head), Value(tail));
  }

  // ---------------------------------------------------------------- the exponent read

  /**
   * Digits whose value stays within twice the exponent range are read
   * whole, after the value already gathered; p is the power of ten they
   * shift it by.
   */
  lemma {:induction false} ExpDigitsValue(ds: string, v: int, sgn: int, p: int)
    requires AllDigits(ds) && (sgn == 1 || sgn == -1) && p == Pow10(|ds|)
    requires 0 <= v && v * p + Value(ds) <= 2 * MaxExp
    ensures ExpDigits(ds, v, sgn) == v * p + Value(ds)
    decreases |ds|
  {
    if |ds| > 0 {
      var d, p' := DigitValue(ds[0]), Pow10(|ds| - 1);
      assert p == 10 * p';
      ValueCons(ds);
      ExpStep(v, d, p', Value(ds[1..]));
      ExpDigitsStep(ds, v, sgn);
      ExpDigitsValue(ds[1..], v * 10 + d, sgn, p');
    }
  }

  /** One exponent digit read while the value stays in range. */
  lemma ExpDigitsStep(s: string, v: int, sgn: int)
    requires |s| > 0 && IsDigit(s[0]) && (sgn == 1 || sgn == -1)
    requires 0 <= v && v * 10 + DigitValue(s[0]) <= 2 * MaxExp
    ensures ExpDigits(s, v, sgn) == ExpDigits(s[1..], v * 10 + DigitValue(s[0]), sgn)
  {
  }

  /** Value read from the left: the first digit scaled past the others. */
  lemma ValueCons(ds: string)
    requires AllDigits(ds) && 0 < |ds|
    ensures Value(ds) == DigitValue(ds[0]) * Pow10(|ds| - 1) + Value(ds[1..])
    ensures Value(ds[1..]) < Pow10(|ds| - 1)
  {
    assert ds == [ds[0]] + ds[1..];
    ValueAppend([ds[0]], ds[1..]);
    assert Value([ds[0]]) == DigitValue(ds[0]) by {
      assert [ds[0]][..0] == [];
    }
    ValueBounds(ds[1..]);
  }

  lemma ExpStep(v: int, d: int, p: int, u: int)
    requires 0 <= v && 0 <= d && 1 <= p && 0 <= u
    ensures v * (10 * p) + (d * p + u) == (v * 10 + d) * p + u
    ensures v * 10 + d <= (v * 10 + d) * p + u
  {
    MulLe(v * 10 + d, 1, v * 10 + d, p);
  }

  /** The exponent field reads back every exponent ExpText writes within twice the exponent range. */
  lemma ExponentFieldText(e: int)
    requires 2 * MinExp <= e <= 2 * MaxExp
    ensures ExponentField(ExpText(e)) == e
  {
    var m := if e >= 0 then e else -e;
    var ds := DigitsOf(m);
    assert ExpText(e) == (if e >= 0 then "+" else "-") + ds;
    assert (ExpText(e))[1..] == ds;
    ExpDigitsValue(ds, 0, if e >= 0 then 1 else -1, Pow10(|ds|));
  }

  // ---------------------------------------------------------------- numerals read back

  /** The numerals Numeral spells: digits where digits go, fraction digits only after a point, an exponent within twice the range. */
  predicate NumeralShape(whole: string, point: bool, frac: string, hasExp: bool, e: int)
  {
    AllDigits(whole) && AllDigits(frac) && (point || frac == []) && (hasExp || e == 0) &&
    2 * MinExp <= e <= 2 * MaxExp
  }

  /**
   * The digit loops over a numeral's digits end in the state of all of
   * them taken in turn, at the exponent of the first significant one,
   * with the exponent part left over.
   */
  lemma MantissaOf(whole: string, point: bool, frac: string, tail: string)
    requires AllDigits(whole) && AllDigits(frac) && (point || frac == []) && (tail == [] || tail[0] == 'e')
    ensures AllDigits(whole + frac)
    ensures Mantissa(whole + (PointText(point) + (frac + tail))) ==
      (Fold(Start, whole + frac), |whole| - LeadZeros(whole + frac) - 1, tail)
  {
    var rest := PointText(point) + (frac + tail);
    var s := whole + rest;
    var st1, e1 := Fold(Start, whole), |whole| - LeadZeros(whole) - 1;
    IntPhase(whole, point, frac, tail, rest, s, st1, e1);
    FracAfterWhole(whole, frac, tail, st1, e1);
    assert Mantissa(s) == FracPart(frac + tail, st1, e1);
  }

  /** The integer loop over a numeral stops at its point or exponent part, past which the separator skip finds the fraction. */
  lemma IntPhase(whole: string, point: bool, frac: string, tail: string, rest: string, s: string, st1: Scan, e1: int)
    requires AllDigits(whole) && AllDigits(frac) && (point || frac == []) && (tail == [] || tail[0] == 'e')
    requires rest == PointText(point) + (frac + tail) && s == whole + rest
    requires st1 == Fold(Start, whole) && e1 == |whole| - LeadZeros(whole) - 1
    ensures Good(st1) && IntPart(s, Start, -1) == (st1, e1, rest) && SkipSeparator(rest) == frac + tail
  {
    SeparatorSkipped(point, frac, tail);
    IntPartStart(whole, rest, -1);
    FoldGood(Start, whole);
  }

  /** After the integer digits comes something other than a digit, and past the separator the fraction digits. */
  lemma SeparatorSkipped(point: bool, frac: string, tail: string)
    requires AllDigits(frac) && (point || frac == []) && (tail == [] || tail[0] == 'e')
    ensures var rest := PointText(point) + (frac + tail);
      (rest == [] || !IsDigit(rest[0])) && SkipSeparator(rest) == frac + tail
  {
    var rest := PointText(point) + (frac + tail);
    if !point {
      assert rest == frac + tail;
    }
  }

  /** The exponent part Numeral writes is read back as the exponent. */
  lemma ExpSuffixOf(hasExp: bool, e: int)
    requires (hasExp || e == 0) && 2 * MinExp <= e <= 2 * MaxExp
    ensures ExpSuffix(ExpPart(hasExp, e)) == e
  {
    if hasExp {
      ExponentFieldText(e);
      assert ExpPart(hasExp, e)[1..] == ExpText(e);
    }
  }

  /** A leading '-' is the sign and the rest of the numeral follows it. */
  lemma SignSkipped(neg: bool, body: string)
    requires body == [] || body[0] != '-'
    ensures var s := SignText(neg) + body;
      ((|s| > 0 && s[0] == '-') <==> neg) && (if neg then s[1..] else s) == body
  {
    var s := SignText(neg) + body;
    if neg {
      assert s[0] == '-' && s[1..] == body;
    } else {
      assert s == body;
    }
  }

  /** What fromstring computes from a numeral before the exponent range: the sign, the rounded significand and its exponent. */
  lemma ReadRawNumeral(neg: bool, whole: string, point: bool, frac: string, hasExp: bool, e: int, mode: int)
    requires NumeralShape(whole, point, frac, hasExp, e)
    ensures AllDigits(whole + frac) && Good(Fold(Start, whole + frac))
    ensures var r, e2 := RoundedSig(Fold(Start, whole + frac), neg, mode), |whole| - LeadZeros(whole + frac) - 1;
      ReadRaw(Numeral(neg, whole, point, frac, hasExp, e), mode) ==
      Raw(neg, (if r == Bias then e2 + 1 else e2) + e, if r == Bias then MinSig else r)
  {
    var tail := ExpPart(hasExp, e);
    var body := whole + (PointText(point) + (frac + tail));
    MantissaOf(whole, point, frac, tail);
    FoldGood(Start, whole + frac);
    BodyStart(whole, point, frac, tail);
    ExpSuffixOf(hasExp, e);
    var st, e1 := Fold(Start, whole + frac), |whole| - LeadZeros(whole + frac) - 1;
    ReadRawOf(neg, body, st, e1, tail, e, mode);
  }

  /** ReadRaw of a signed body, from the mantissa and the exponent suffix the body holds. */
  lemma ReadRawOf(neg: bool, body: string, st: Scan, e1: int, tail: string, e: int, mode: int)
    requires (body == [] || body[0] != '-') && Good(st)
    requires Mantissa(body) == (st, e1, tail) && ExpSuffix(tail) == e
    ensures var r := RoundedSig(st, neg, mode);
      ReadRaw(SignText(neg) + body, mode) == Raw(neg, (if r == Bias then e1 + 1 else e1) + e, if r == Bias then MinSig else r)
  {
    SignSkipped(neg, body);
  }

  lemma BodyStart(whole: string, point: bool, frac: string, tail: string)
    requires AllDigits(whole) && AllDigits(frac) && (tail == [] || tail[0] == 'e')
    ensures var body := whole + (PointText(point) + (frac + tail));
      body == [] || body[0] != '-'
  {
    var body := whole + (PointText(point) + (frac + tail));
    if |body| > 0 {
      if |whole| > 0 {
        assert body[0] == whole[0];
      } else if point {
        assert body[0] == '.';
      } else if |frac| > 0 {
        assert body[0] == frac[0];
      } else {
        assert body == tail;
      }
    }
  }

  /**
   * fromstring reads a numeral as its digits' value n times ten to the
   * exponent less the number of fraction digits, rounded to sixteen
   * digits in the mode, or as no significand at all when no digit is
   * significant (FromString then gives the zero of the sign).
   */
  lemma ReadNumeral(neg: bool, whole: string, point: bool, frac: string, hasExp: bool, e: int, mode: int)
    requires NumeralShape(whole, point, frac, hasExp, e)
    ensures AllDigits(whole + frac)
    ensures var n, w := Value(whole + frac), ReadRaw(Numeral(neg, whole, point, frac, hasExp, e), mode);
      w.neg == neg && (n == 0 <==> w.sig == 0) && (n != 0 ==> RoundedTo(n, 1, e - |frac| + 15, mode, w))
  {
    ReadRawNumeral(neg, whole, point, frac, hasExp, e, mode);
    NumeralDigits(neg, whole, point, frac, hasExp, e, mode);
  }

  /** ReadRawNumeral's result read as the rounding of the numeral's digits. */
  lemma NumeralDigits(neg: bool, whole: string, point: bool, frac: string, hasExp: bool, e: int, mode: int)
    requires NumeralShape(whole, point, frac, hasExp, e)
    requires AllDigits(whole + frac) && Good(Fold(Start, whole + frac))
    requires var r, e2 := RoundedSig(Fold(Start, whole + frac), neg, mode), |whole| - LeadZeros(whole + frac) - 1;
      ReadRaw(Numeral(neg, whole, point, frac, hasExp, e), mode) ==
      Raw(neg, (if r == Bias then e2 + 1 else e2) + e, if r == Bias then MinSig else r)
    ensures var n, w := Value(whole + frac), ReadRaw(Numeral(neg, whole, point, frac, hasExp, e), mode);
      w.neg == neg && (n == 0 <==> w.sig == 0) && (n != 0 ==> RoundedTo(n, 1, e - |frac| + 15, mode, w))
  {
    DigitsRead(whole + frac, |whole|, |frac|, neg, mode, e, ReadRaw(Numeral(neg, whole, point, frac, hasExp, e), mode));
  }

  /** ReadRawNumeral's result in the terms SigRead takes: a whole digits and b fraction digits at exponent e. */
  lemma DigitsRead(ds: string, a: int, b: int, neg: bool, mode: int, e: int, w: Raw)
    requires AllDigits(ds) && |ds| == a + b && Good(Fold(Start, ds))
    requires var r, e2 := RoundedSig(Fold(Start, ds), neg, mode), a - LeadZeros(ds) - 1;
      w == Raw(neg, (if r == Bias then e2 + 1 else e2) + e, if r == Bias then MinSig else r)
    ensures (Value(ds) == 0 <==> w.sig == 0) && (Value(ds) != 0 ==> RoundedTo(Value(ds), 1, e - b + 15, mode, w))
  {
    SigRead(ds, neg, mode, Value(ds), e - b + 15, a - LeadZeros(ds) - 1 + e, w);
  }

  /**
   * The significand and exponent read from the digits ds, g being the
   * exponent of the first significant one: zero exactly when no digit is
   * significant, and otherwise the digits' value rounded.
   */
  lemma SigRead(ds: string, neg: bool, mode: int, n: int, e: int, g: int, w: Raw)
    requires AllDigits(ds) && n == Value(ds) && e - g == Cutoff - (|ds| - LeadZeros(ds))
    requires Good(Fold(Start, ds))
    requires var r := RoundedSig(Fold(Start, ds), neg, mode);
      w == Raw(neg, if r == Bias then g + 1 else g, if r == Bias then MinSig else r)
    ensures (n == 0 <==> w.sig == 0) && (n != 0 ==> RoundedTo(n, 1, e, mode, w))
  {
    var z := LeadZeros(ds);
    var sd := ds[z..];
    var st := Fold(Start, ds);
    FoldLeadZeros(ds);
    LeadZerosValue(ds);
    if z == |ds| {
      assert sd == [];
    } else {
      assert sd[0] == ds[z];
      FoldDescribes(sd);
      ValueBounds(sd);
      Pow10Le(0, |sd| - 1);
      if |sd| <= Cutoff {
        KeptRead(st, sd, neg, mode, n, e, g, w);
      } else {
        DroppedRead(st, sd, neg, mode, n, e, g, w);
      }
    }
  }

  /** Up to sixteen significant digits are read exactly. */
  lemma KeptRead(st: Scan, sd: string, neg: bool, mode: int, n: int, e: int, g: int, w: Raw)
    requires AllDigits(sd) && 0 < |sd| <= Cutoff && sd[0] != '0' && Good(st) && Describes(st, sd)
    requires n == Value(sd) && e - g == Cutoff - |sd|
    requires var r := RoundedSig(st, neg, mode);
      w == Raw(neg, if r == Bias then g + 1 else g, if r == Bias then MinSig else r)
    ensures RoundedTo(n, 1, e, mode, w)
  {
    KeptSig(st, sd, neg, mode);
    ValueBounds(sd);
    PadBounds(n, |sd|);
    var r := n * Pow10(Cutoff - |sd|);
    assert GridNum(n, e, g) == r && GridDen(1, e, g) == 1;
    RoundsToWhole(r, neg, mode, r);
  }

  /** Past sixteen significant digits, the read is the rounding of the digits at the grid of the sixteenth. */
  lemma DroppedRead(st: Scan, sd: string, neg: bool, mode: int, n: int, e: int, g: int, w: Raw)
    requires AllDigits(sd) && Cutoff < |sd| && sd[0] != '0' && Good(st) && Describes(st, sd)
    requires n == Value(sd) && g - e == |sd| - Cutoff
    requires var r := RoundedSig(st, neg, mode);
      w == Raw(neg, if r == Bias then g + 1 else g, if r == Bias then MinSig else r)
    ensures RoundedTo(n, 1, e, mode, w)
  {
    var t := Pow10(|sd| - Cutoff);
    DroppedSig(st, sd, neg, mode, t);
    OnGrid(n, e, g, t, mode, w);
  }

  // ---------------------------------------------------------------- round trips

  /**
   * fromstring reads back what tostring writes for every canonical finite
   * value, in every rounding mode: sixteen digits are read exactly.
   */
  lemma RoundTrip(x: Dec, mode: int)
    requires IsCanonical(x) && IsFinite(x)
    ensures FromString(ToString(x), mode) == x
  {
    if IsZero(x) {
      ZeroRoundTrip(x, mode);
    } else {
      NormalRoundTrip(x, mode);
    }
  }

  /** The same holds for dm_double_m.c's layout, which writes the same characters. */
  lemma RoundTripManual(x: Dec, mode: int)
    requires IsCanonical(x) && IsFinite(x)
    ensures FromString(ToStringManual(x), mode) == x
  {
    ToStringLayouts(x);
    RoundTrip(x, mode);
  }

  lemma ZeroRoundTrip(x: Dec, mode: int)
    requires IsZero(x)
    ensures FromString(ToString(x), mode) == x
  {
    assert x == SignedZero(x.neg);
    ZeroText(x.neg);
    ZeroNumeral(x.neg, mode);
  }

  /** tostring's text of a zero is the numeral 0.000000000000000e+0. */
  lemma ZeroText(neg: bool)
    ensures ToString(SignedZero(neg)) == Numeral(neg, "0", true, "000000000000000", true, 0)
  {
    ZeroSuffix();
  }

  /** The digits, point and exponent part of the zero numeral spelled out. */
  lemma ZeroSuffix()
    ensures "0" + (PointText(true) + ("000000000000000" + ExpPart(true, 0))) == "0.000000000000000e+0"
  {
    ZeroExpPart();
    ZeroJoins();
  }

  lemma ZeroJoins()
    ensures "000000000000000" + "e+0" == "000000000000000e+0"
    ensures "." + "000000000000000e+0" == ".000000000000000e+0"
    ensures "0" + ".000000000000000e+0" == "0.000000000000000e+0"
  {
    ZeroJoinFraction();
    ZeroJoinPoint();
    ZeroJoinLead();
  }

  lemma ZeroJoinFraction()
    ensures "000000000000000" + "e+0" == "000000000000000e+0"
  {
  }

  lemma ZeroJoinPoint()
    ensures "." + "000000000000000e+0" == ".000000000000000e+0"
  {
  }

  lemma ZeroJoinLead()
    ensures "0" + ".000000000000000e+0" == "0.000000000000000e+0"
  {
  }

  lemma ZeroExpPart()
    ensures ExpPart(true, 0) == "e+0"
  {
    assert ExpText(0) == "+0";
  }

  /** The numeral 0.000000000000000e+0 reads as the zero of its sign. */
  lemma ZeroNumeral(neg: bool, mode: int)
    ensures FromString(Numeral(neg, "0", true, "000000000000000", true, 0), mode) == SignedZero(neg)
  {
    ReadNumeral(neg, "0", true, "000000000000000", true, 0, mode);
    assert "0" + "000000000000000" == "0000000000000000";
    ZerosValue("0000000000000000");
  }

  lemma NormalRoundTrip(x: Dec, mode: int)
    requires IsCanonicalNormal(x)
    ensures FromString(ToString(x), mode) == x
  {
    LeadingDigit(x);
    ToStringNormal(x);
    NormalNumeral(x, mode, Sig(x) / MinSig, Sig(x) % MinSig);
  }

  /** The leading digit, a point and the fifteen other digits of a normal value read back as the value. */
  lemma NormalNumeral(x: Dec, mode: int, d: nat, rest: nat)
    requires IsCanonicalNormal(x) && d == Sig(x) / MinSig && rest == Sig(x) % MinSig && rest < Pow10(15)
    ensures FromString(Numeral(x.neg, DigitsOf(d), true, Padded(rest, 15), true, x.exp), mode) == x
  {
    var whole, frac := DigitsOf(d), Padded(rest, 15);
    SplitValue(Sig(x), whole, frac);
    ReadNumeral(x.neg, whole, true, frac, true, x.exp, mode);
    NumeralReadsBack(x, mode, whole, frac);
  }

  /** The numeral of a normal value's sixteen digits, read as its rounding, converts back to the value. */
  lemma NumeralReadsBack(x: Dec, mode: int, whole: string, frac: string)
    requires IsCanonicalNormal(x) && |frac| == 15 && AllDigits(whole + frac) && Value(whole + frac) == Sig(x)
    requires var n, w := Value(whole + frac), ReadRaw(Numeral(x.neg, whole, true, frac, true, x.exp), mode);
      w.neg == x.neg && (n == 0 <==> w.sig == 0) && (n != 0 ==> RoundedTo(n, 1, x.exp - |frac| + 15, mode, w))
    ensures FromString(Numeral(x.neg, whole, true, frac, true, x.exp), mode) == x
  {
    var n := Value(whole + frac);
    ScaleByOne(n);
    ReadsBackRounded(x, mode, Numeral(x.neg, whole, true, frac, true, x.exp), n, 0, x.exp - |frac| + 15);
  }

  /**
   * Text whose raw reading is the rounding of n at exponent e converts to x
   * when n, shifted p places, is x's significand at x's exponent.
   */
  lemma ReadsBackRounded(x: Dec, mode: int, s: string, n: nat, p: nat, e: int)
    requires IsCanonicalNormal(x) && n * Pow10(p) == Sig(x) && e - p == x.exp
    requires var w := ReadRaw(s, mode);
      w.neg == x.neg && (n == 0 <==> w.sig == 0) && (n != 0 ==> RoundedTo(n, 1, e, mode, w))
    ensures FromString(s, mode) == x
  {
    var w := ReadRaw(s, mode);
    assert 0 * Pow10(p) == 0;
    ReadScaled(n, Sig(x), p, e, mode, w);
    ReadsAs(s, mode, x);
  }

  /** Text whose raw reading has x's sign, exponent and significand converts to x. */
  lemma ReadsAs(s: string, mode: int, x: Dec)
    requires IsCanonicalNormal(x)
    requires var w := ReadRaw(s, mode); w.neg == x.neg && w.exp == x.exp && w.sig == Sig(x)
    ensures FromString(s, mode) == x
  {
    var w := ReadRaw(s, mode);
    assert MinExp <= w.exp <= MaxExp;
    var r := Flush(w);
    assert r.field == x.field;
  }

  /**
   * Digits worth n, read at exponent e, that make a significand s once
   * scaled by 10^p are rounded to exactly s at exponent e - p: the
   * digits are read without loss.
   */
  lemma ReadScaled(n: int, s: int, p: nat, e: int, mode: int, w: Raw)
    requires 0 < n && s == n * Pow10(p) && MinSig <= s <= MaxSig && RoundedTo(n, 1, e, mode, w)
    ensures w.exp == e - p && w.sig == s
  {
    MulLe(n, 1, n, Pow10(p));
    RoundedToExact(n, e, mode, w);
    ScaledOnce(n, p, e - w.exp);
    ScaledOnce(n, e - w.exp, p);
  }

  /** A leading part worth s / 10^15 followed by fifteen digits worth s % 10^15 spells s. */
  lemma SplitValue(s: int, whole: string, frac: string)
    requires 0 <= s && AllDigits(whole) && AllDigits(frac) && |frac| == 15
    requires Value(whole) == s / MinSig && Value(frac) == s % MinSig
    ensures AllDigits(whole + frac) && Value(whole + frac) == s
  {
    ValueAppend(whole, frac);
    FifteenZeros();
  }

  /** A number scaled into the significand range by 10^a is not scaled into it by a larger power. */
  lemma ScaledOnce(n: int, a: nat, b: nat)
    requires 0 < n && MinSig <= n * Pow10(a) && n * Pow10(b) <= MaxSig
    ensures b <= a
  {
    if a < b {
      Pow10Lt(a, b);
      MulLe(n, 10 * Pow10(a), n, Pow10(b));
    }
  }

  /**
   * A word that starts with no digit, point or sign holds no digits for
   * fromstring: it reads as the zero of the sign.
   */
  lemma WordRead(neg: bool, word: string, mode: int)
    requires |word| > 0 && !IsDigit(word[0]) && word[0] != '.' && word[0] != ',' && word[0] != '-'
    ensures FromString(SignText(neg) + word, mode) == SignedZero(neg)
  {
    var s := SignText(neg) + word;
    assert (if neg then s[1..] else s) == word;
    assert Mantissa(word).0 == Start;
  }

  /**
   * The text tostring writes for an infinity or a NaN does not read back:
   * "Inf" and "NaN" hold no digits, so fromstring gives the zero of the sign.
   */
  lemma SpecialRoundTrip(x: Dec, mode: int)
    requires IsInf(x) || IsNaN(x)
    ensures FromString(ToString(x), mode) == SignedZero(x.neg)
    ensures FromString(ToStringManual(x), mode) == SignedZero(x.neg)
  {
    if IsNaN(x) {
      WordRead(x.neg, "NaN", mode);
    } else {
      WordRead(x.neg, "Inf", mode);
    }
  }
}
