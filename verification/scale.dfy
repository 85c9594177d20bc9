/**
 * frexp and ldexp of dm_double.c and dm_double_m.c, which work in base ten:
 * frexp splits a value into a significand with exponent 0 (a magnitude in
 * [1, 10)) and the exponent, and ldexp adds to the exponent.
 *
 * Both functions as written treat the special exponent -512 as an ordinary
 * one: frexp of a zero, an infinity or a NaN returns a normal record with
 * exponent 0 and reports -512, and ldexp of one of them yields a normal
 * record once the sum of exponents is in range.  The corrected versions
 * return the specials unchanged, with exponent 0 from frexp, as section
 * 7.12.6.4 of ISO C11 does for zero.
 */
module Scale {
  import opened Pow
  import opened Decimal
  import opened Exact

  /** dm_double_frexp as written: the fields repacked at exponent 0, and the unpacked exponent. */
  function FrexpAsWritten(x: Dec): (r: (Dec, int))
    ensures r.0.neg == x.neg && r.0.exp == 0 && r.0.field == x.field && r.1 == x.exp
  {
    (Dec(x.neg, 0, x.field), x.exp)
  }

  /**
   * dm_double_ldexp as written.  The first test of each pair bounds the
   * requested shift by twice the exponent range; the second bounds the new
   * exponent.
   */
  function LdexpAsWritten(x: Dec, n: int): (r: Dec)
    ensures r.neg == x.neg
    ensures n > 2 * MaxExp || x.exp + n > MaxExp ==> r == SignedInf(x.neg)
    ensures n <= 2 * MaxExp && x.exp + n <= MaxExp && (n < 2 * MinExp || x.exp + n < MinExp) ==> r == SignedZero(x.neg)
    ensures 2 * MinExp <= n <= 2 * MaxExp && MinExp <= x.exp + n <= MaxExp ==> r.exp == x.exp + n && r.field == x.field
  {
    if 2 * MaxExp < n || MaxExp < n + x.exp then SignedInf(x.neg)
    else if 2 * MinExp > n || MinExp > n + x.exp then SignedZero(x.neg)
    else Dec(x.neg, n + x.exp, x.field)
  }

  /** frexp corrected: a zero, an infinity or a NaN comes back unchanged with exponent 0. */
  function Frexp(x: Dec): (r: (Dec, int))
    ensures !IsNormal(x) ==> r == (x, 0)
    ensures IsNormal(x) ==> r == FrexpAsWritten(x)
    ensures IsCanonical(x) ==> IsCanonical(r.0)
    ensures IsNormal(x) ==> IsNormal(r.0) && MinExp <= r.1 <= MaxExp
  {
    if x.exp == SpecialExp then (x, 0) else FrexpAsWritten(x)
  }

  /** ldexp corrected: a zero, an infinity or a NaN comes back unchanged. */
  function Ldexp(x: Dec, n: int): (r: Dec)
    ensures !IsNormal(x) ==> r == x
    ensures IsNormal(x) ==> r == LdexpAsWritten(x, n)
    ensures IsCanonical(x) ==> IsCanonical(r)
  {
    if x.exp == SpecialExp then x else LdexpAsWritten(x, n)
  }

  /** ldexp undoes frexp on every record. */
  lemma LdexpFrexp(x: Dec)
    ensures Ldexp(Frexp(x).0, Frexp(x).1) == x
  {
  }

  /** The part frexp returns lies in [1, 10): its value has exponent -15 and a canonical significand. */
  lemma FrexpRange(x: Dec)
    requires IsCanonicalNormal(x)
    ensures var m := Frexp(x).0;
      IsCanonicalNormal(m) && ValueOf(m).e == -15 && MinSig <= Sig(m) <= MaxSig
    ensures Same(ValueOf(x), Fin(ValueOf(Frexp(x).0).m, Frexp(x).1 - 15))
  {
    assert Pow10(0) == 1;
  }

  /**
   * ldexp multiplies by 10^n: inside the exponent range the result is x
   * times 10^n exactly; above it the infinity of x's sign, below it the
   * zero of x's sign.
   */
  lemma LdexpScales(x: Dec, n: int)
    requires IsCanonicalNormal(x)
    ensures MinExp <= x.exp + n <= MaxExp ==>
      IsCanonicalNormal(Ldexp(x, n)) && ValueOf(Ldexp(x, n)) == Fin(ValueOf(x).m, ValueOf(x).e + n)
    ensures MaxExp < x.exp + n ==> Ldexp(x, n) == SignedInf(x.neg)
    ensures x.exp + n < MinExp ==> Ldexp(x, n) == SignedZero(x.neg)
  {
  }

  /** As written, ldexp undoes frexp on normal values and on zeros. */
  lemma LdexpFrexpAsWritten(x: Dec)
    requires IsNormal(x) || IsZero(x)
    ensures LdexpAsWritten(FrexpAsWritten(x).0, FrexpAsWritten(x).1) == x
  {
  }

  /**
   * Counterexamples to the special exponent taken as an ordinary one:
   * frexp of +0 returns 1.0; ldexp of +0 by one gives 10^-511, a normal
   * record; and frexp followed by ldexp turns +inf into +0.
   */
  lemma SpecialExponentCounterexample()
    ensures FrexpAsWritten(SignedZero(false)) == (Pack(false, 0, MinSig), SpecialExp)
    ensures LdexpAsWritten(SignedZero(false), 1) == Pack(false, MinExp, MinSig)
    ensures IsNormal(LdexpAsWritten(SignedZero(false), 1))
    ensures LdexpAsWritten(FrexpAsWritten(SignedInf(false)).0, FrexpAsWritten(SignedInf(false)).1) == SignedZero(false)
    ensures Ldexp(SignedZero(false), 1) == SignedZero(false)
    ensures Ldexp(Frexp(SignedInf(false)).0, Frexp(SignedInf(false)).1) == SignedInf(false)
  {
  }
}
