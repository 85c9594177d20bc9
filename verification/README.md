# libdecmath core in Dafny

This project models `dm_double`, the 64-bit decimal floating-point type of libdecmath, and proves properties of the model. A `dm_double` has three parts:

- a sign;
- an exponent in [-511, 511];
- a 16-digit significand in [10^15, 10^16 - 1], stored as its excess over 10^15 in a 53-bit field.

The exponent -512 is reserved for zero (field 0), infinity (field 2^53 - 1) and NaN (any other field, its payload). Underneath the type sits `dm_muldiv`, a 128-bit unsigned integer held as four 32-bit limbs. It multiplies the significands and divides them back down to sixteen digits.

The modules follow the source:

| module | file | source |
|---|---|---|
| `Pow` | pow.dfy | powers of two and ten; `uint32_t`/`uint64_t` as subset types; the conversion to a 32-bit `int` |
| `Bits` | bits.dfy | `|` and `&` on unbounded naturals, as used by the shifts and masks |
| `WideInt` | wideint.dfy | dm_muldiv.c: the four-limb integer, its abstraction `Val` to a natural, load/extract, add, sub, mulBy, the shifts and the comparisons |
| `WideDiv` | divide.dfy | dm_muldiv.c `divBy`: the word-division path (Knuth's Algorithm D with a two-digit quotient) and the shift-and-subtract path |
| `Decimal` | decimal.dfy | the abstract record `Dec(neg, exp, field)` shared by both layouts; classification and `iscanonical` |
| `LayoutA` | layout_a.dfy | the word layout of dm_double.c: exponent mod 1024 in bits 54-63, sign in bit 53 |
| `LayoutB` | layout_b.dfy | the word layout of dm_double_m.c: exponent + 512 in bits 53-62, sign in bit 63 |
| `Rounding` | rounding.dfy | the eight rounding modes, `dm_fesetround`, `dm_decideRound`, and `RoundsTo`, a reference definition of rounding a rational to an integer |
| `Exact` | exact.dfy | exact values `m * 10^e` as the reference for the arithmetic |
| `Compare` | compare.dfy | the comparison predicates, fabs, neg, copysign, fmin, fmax |
| `Integral` | integral.dfy | ceil, floor, trunc, nearbyint, round, roundeven |
| `Scale` | scale.dfy | frexp, ldexp |
| `Arith` | arith.dfy | the shared rounding-and-flush step; mul_r and div_r |
| `Add` | add.dfy | add_r, sub_r, modf |
| `Text` | text.dfy | tostring (both implementations) and fromstring |
| `Pretty` | pretty.dfy | conditionResult and `dm_double_toprettystring` |

Every 64-bit word of either layout decodes to exactly one record and back. The two layouts' bit-level operations are proved to agree with the record operations. So the arithmetic is defined once, on records. Where dm_double.c and dm_double_m.c implement the same function, the rows below cite dm_double.c; dm_double_m.c is cited where it differs: the layout, the mask tests and the hand-written digits of `tostring`.

The process-wide rounding mode of the source (`dm_global_round_mode`) is an explicit `mode` parameter. The wrappers `dm_double_add`, `sub`, `mul` and `div` are then the `_r` functions applied to that mode.

Correctness is stated against reference definitions, not against the code's own steps:

- A result rounded in `mode` satisfies `Rounding.RoundsTo`, a relational definition of each of the eight modes (floor, ceiling, nearest with the mode's tie rule).
- Arithmetic results are compared with the exact sum, product or quotient as `Exact` values.
- Text is compared with what `fromstring` reads back, and with reference numerals.

## Model

| member | source | states |
|---|---|---|
| `Decimal.Pack` | dm_double.c:52-57 | unpacking a packed record returns the sign, exponent and significand it was packed from |
| `Decimal.ClassifyCases` | dm_double.c:63-123 | fpclassify is zero, infinite or NaN exactly for exponent -512 with field 0, field 2^53-1 or any other field, and normal otherwise; a record is non-canonical exactly when it is normal with significand above 9999999999999999 |
| `Decimal.SpecialsClassified` | dm_double.c:59-61 | the library's zero, infinity and NaN (payload 255) of either sign are classified as such and are canonical |
| `LayoutA.DecodeEncode` | dm_double.c:52-57 | decoding a packed word returns the sign, exponent in [-512, 511] and 53-bit field it was packed from |
| `LayoutA.EncodeDecode` | dm_double.c:52-57 | every 64-bit word is the packing of its decoded fields, so decoding is a bijection |
| `LayoutA.SpecialWords` | dm_double.c:59-61 | the constant words dm_double_Zero, dm_double_NaN and dm_double_Inf decode to +0, the NaN with payload 255 and +inf |
| `LayoutA.SignOf` | dm_double.c:107-111 | the sign bit of a word is zero exactly when the decoded record is positive |
| `LayoutA.NegWordNegates` | dm_double.c:514-517 | flipping bit 53 of a word flips the decoded sign and keeps everything else |
| `LayoutA.FabsWordClears` | dm_double.c:248-252 | clearing bit 53 clears the decoded sign and keeps everything else |
| `LayoutA.CopySignWordSigns` | dm_double.c:267-273 | the copysign word decodes to the magnitude's record with the sign of the second argument |
| `LayoutA.SignArgumentLost` | dm_double.c:426 | `arg & SIGN_BIT` converted to a 32-bit `int` is 0 for every word, so nearbyint's sign argument is always positive |
| `LayoutB.DecodeEncode` | dm_double_m.c:52-78 | PACK/PACK_ALT followed by the UNPACK functions return the sign, exponent and field, with the exponent stored as e + 512 in bits 53-62 and the sign in bit 63 |
| `LayoutB.EncodeDecode` | dm_double_m.c:52-78 | every 64-bit word is the packing of its unpacked fields |
| `LayoutB.SpecialWords` | dm_double_m.c:80-82 | the words 0, 255 and 2^53-1 decode to +0, the NaN with payload 255 and +inf |
| `LayoutB.MaskTestsAgree` | dm_double_m.c:131-162 | the mask forms of isinf (word without sign = 2^53-1) and iszero (word without sign = 0) agree with the classification of the decoded record on every word |
| `LayoutB.SignOf` | dm_double_m.c:146-150 | the sign bit of a word is zero exactly when the decoded record is positive |
| `LayoutB.NegWordNegates` | dm_double_m.c:867-870 | flipping bit 63 flips the decoded sign and keeps everything else |
| `LayoutB.FabsWordClears` | dm_double_m.c:417-421 | clearing bit 63 clears the decoded sign and keeps everything else |
| `LayoutB.CopySignWordSigns` | dm_double_m.c:458-464 | the copysign word decodes to the magnitude's record with the sign of the second argument |
| `LayoutB.SignArgumentLost` | dm_double_m.c:704 | `arg & SIGN_BIT` (bit 63) converted to a 32-bit `int` is 0 for every word |
| `Rounding.SetRound` | dm_double.c:287-294 | the mode changes to the request exactly when the request is one of 0..7, and the call returns the mode in force afterwards |
| `Rounding.DecideRound` | dm_double.c:307-336 | the decision is 0 or 1; an unknown mode never increments; an exact truncation (remainder zero) never increments in any mode |
| `Rounding.DecideRoundCorrect` | dm_double.c:307-336 | truncated quotient plus the decision is n / d rounded as `RoundsTo` defines the mode, for every mode and sign |
| `Rounding.RoundsToUnique` | dm_double.c:307-336 | the reference rounding names one integer, so any two correct roundings agree |
| `Rounding.DecideRoundSign` | dm_double.c:307-336 | only the sign of the comparison argument affects the decision, so callers may pass any value of the right sign |
| `Compare.FMin` | dm_double.c:253-259 | fmin returns lhs when rhs is NaN (so lhs when both are), rhs when only lhs is; otherwise lhs exactly when islessequal(lhs, rhs), so +0 and -0 give lhs; the result is at most both operands |
| `Compare.FMax` | dm_double.c:260-266 | fmax returns lhs when rhs is NaN (so lhs when both are), rhs when only lhs is; otherwise lhs exactly when isgreaterequal(lhs, rhs); the result is at least both operands |
| `Compare.MinMaxValue` | dm_double.c:253-266 | on canonical values other than NaN, fmin is at most and fmax at least both exact values; of two different values they return the smaller and the larger; of two equal values (+0 and -0 included) both return lhs |
| `Compare.FabsValue` | dm_double.c:248-252 | fabs keeps the class and canonicity, is neg on negative records and the identity on positive ones, is idempotent, and of anything but NaN is at least +0, its exact value being the magnitude of the argument's |
| `Compare.NegValue` | dm_double.c:514-517 | neg keeps the class and canonicity, undoes itself, flips the sign bit, negates the exact value, reverses isless and keeps isequal |
| `Compare.CopySignValue` | dm_double.c:267-273 | copysign(mag, sgn) is fabs(mag) when sgn is positive and neg(fabs(mag)) when negative, so its value is mag's or its negation by whether the signs agree |
| `Compare.LessEqualTotal` | dm_double.c:154-222 | without NaN, islessequal is reflexive and total, and isgreaterequal is its mirror |
| `Compare.NaNUnordered` | dm_double.c:131-246 | a NaN operand makes every ordered predicate and isequal false and makes isunordered and isunequal true |
| `Compare.Mirrors` | dm_double.c:131-246 | isgreater(a, b) is isless(b, a), islessequal is isless or isequal, and isunequal is the negation of isequal |
| `Compare.CompareTrichotomy` | dm_double.c:131-246 | without NaN, exactly one of isless, isequal and isgreater holds |
| `Compare.ZerosEqual` | dm_double.c:234-240 | +0 and -0 are equal and neither is less than the other |
| `Compare.CompareMatchesValue` | dm_double.c:131-246 | on canonical non-NaN records, isless and isequal are exactly < and = on the exact values, infinities included |
| `Integral.Ceil` | dm_double.c:338-370 | specials and exponents of 16 or more are returned unchanged; otherwise the result is canonical and integral, keeps the sign, and its magnitude is the argument rounded upward |
| `Integral.Floor` | dm_double.c:371-403 | as ceil, with the magnitude rounded downward |
| `Integral.Trunc` | dm_double.c:404-414 | as ceil, with the magnitude rounded toward zero, so it never exceeds the argument's |
| `Integral.TruncShape` | dm_double.c:409-413 | for exponents 0 to 15, trunc keeps the sign and exponent and clears the significand digits below the units |
| `Integral.NearbyIntAsWritten` | dm_double.c:416-437 | as written: the magnitude is rounded in the mode as for a positive value, and toward zero below 0.1 |
| `Integral.NearbyInt` | dm_double.c:416-437 | corrected: the magnitude is rounded in the mode with the argument's own sign, at every exponent below 16 |
| `Integral.NearbyIntAgrees` | dm_double.c:416-437 | the two agree in the sign-symmetric modes (nearest even, nearest away, toward zero) whenever the argument is negative or at least 0.1 in magnitude |
| `Integral.NearbyIntSignCounterexample` | dm_double.c:426 | nearbyint as written gives -2 for -1.5 rounded upward, where the corrected one and ceil give -1 |
| `Integral.NearbyIntTinyCounterexample` | dm_double.c:420 | nearbyint as written gives +0 for 0.01 rounded upward, where the corrected one and ceil give 1 |
| `Integral.Round` | dm_double.c:439-460 | as ceil, with the magnitude rounded to nearest, ties away from zero |
| `Integral.RoundEven` | dm_double.c:462-484 | as ceil, with the magnitude rounded to nearest, ties to even |
| `Integral.FixedModes` | dm_double.c:338-484 | ceil, floor, trunc, round and roundeven are nearbyint in the modes upward, downward, toward zero, nearest-away and nearest-even |
| `Integral.SameRounding` | dm_double.c:338-484 | two canonical integral records of the argument's sign whose magnitudes both round the argument in one mode are the same record |
| `Scale.Frexp` | dm_double.c:498-502 | corrected: zeros, infinities and NaNs come back unchanged with exponent 0; on normal values it is frexp as written |
| `Scale.Ldexp` | dm_double.c:504-512 | corrected: zeros, infinities and NaNs come back unchanged; on normal values it is ldexp as written |
| `Scale.LdexpFrexp` | dm_double.c:498-512 | ldexp of frexp's two results is the argument, for every record |
| `Scale.FrexpRange` | dm_double.c:498-502 | frexp's significand is canonical with value in [1, 10), and times 10 to the returned exponent it is the argument's value |
| `Scale.LdexpScales` | dm_double.c:504-512 | inside the range ldexp(x, n) is exactly x * 10^n; above it the infinity of x's sign; below it the zero of x's sign |
| `Scale.LdexpFrexpAsWritten` | dm_double.c:498-512 | as written, ldexp undoes frexp on normal values and zeros |
| `Scale.SpecialExponentCounterexample` | dm_double.c:498-512 | as written, frexp(+0) is 1.0 with exponent -512, ldexp(+0, 1) is the normal 1.0e-511, and ldexp of frexp(+inf) is +0; the corrected pair gives +0 and +inf |
| `Arith.Flush` | dm_double.c:772-783 | a sixteen-digit significand is packed at an exponent in range, becomes the infinity of the sign above it and the zero of the sign below it, and the result is canonical |
| `Arith.RoundedToExact` | dm_double.c:1016-1020 | a significand with fewer than seventeen digits rounds to itself shifted left, in every mode |
| `Arith.MulSpecial` | dm_double.c:711-736 | NaN operands first, lhs payload preferred; then infinity times zero is the NaN with payload 255 and the product's sign; then infinity; then zero, all with the XOR sign |
| `Arith.MulRounded` | dm_double.c:751-770 | the product of the significands divided by 10^15 or 10^16 to sixteen digits, with the XOR sign; with the carry renormalised it is the exact product rounded in the mode |
| `Arith.MulRAsWritten` | dm_double.c:709-784 | as written: the special cases as MulSpecial and the XOR sign on normal operands |
| `Arith.MulR` | dm_double.c:709-784 | corrected: canonical always; special cases as MulSpecial; for normal operands the exact product rounded to sixteen digits in the mode, flushed to a signed infinity or zero outside the range |
| `Arith.MulCarryCounterexample` | dm_double.c:766-770 | 4000000000000008e-15 times 2499999999999995e-15 to nearest gives the non-canonical significand 10^16 as written, and 10 corrected |
| `Arith.DivSpecial` | dm_double.c:788-813 | NaN operands first, lhs payload preferred; then 0/0 and inf/inf give the NaN with payload 255 and the XOR sign; then infinity; then zero, with the XOR sign |
| `Arith.QuotientBoundsDiv` | dm_double.c:833-846 | the scaled quotient reaches 10^16 exactly when the lhs significand is at least the rhs one; the retried quotient has sixteen digits and cannot round past 9999999999999999 |
| `Arith.DivRounded` | dm_double.c:828-846 | the quotient of the significands scaled by 10^16 is the exact quotient rounded to sixteen digits in the mode, at exponent e - 1 or e as the comparison of significands decides |
| `Arith.DivR` | dm_double.c:786-860 | canonical always; special cases as DivSpecial; for normal operands the exact quotient rounded in the mode, flushed outside the range |
| `Add.AddSpecial` | dm_double.c:545-567 | NaN first, lhs payload preferred; inf - inf is the NaN with payload 255; otherwise an infinity wins; 0 + 0 is -0 only when both are negative or the signs differ under downward; x + 0 and 0 + x are x |
| `Add.AlignedValue` | dm_double.c:576-609 | the exact sum of two normal values, in units of 10^(smaller exponent - 15), is the larger-exponent significand times 10^gap plus the other, by sign; within the reach the aligned magnitudes sum to exactly that |
| `Add.Combine` | dm_double.c:611-627 | the combined magnitude is the absolute value of the signed sum, and its sign is the sum's sign when it is nonzero |
| `Add.Normalise` | dm_double.c:629-695 | a nonzero combined magnitude becomes a sixteen-digit significand of its sign, exact when it already has sixteen digits |
| `Add.NormaliseRounds` | dm_double.c:637-695 | with the cancellation fix, the normalised significand is the combined magnitude rounded in the mode |
| `Add.StickyPathCorrect` | dm_double.c:583-674 | past the corrected reach of 17, the sticky unit still yields the exact sum's sign and its rounding to sixteen digits in the mode |
| `Add.AddNormals` | dm_double.c:569-697 | an exact cancellation gives +0, or -0 under downward; otherwise the rounded sum, flushed outside the range |
| `Add.AddRAsWritten` | dm_double.c:543-698 | as written: canonical, with the special cases as AddSpecial |
| `Add.AddR` | dm_double.c:543-698 | corrected: canonical, the special cases as AddSpecial, and two normal values added with exact alignment up to a gap of 17 and the cancellation fix |
| `Add.AddRCorrect` | dm_double.c:543-698 | the corrected add_r of two normal values is the exact sum rounded to sixteen digits in the mode and flushed, with the sum's sign, or the mode's signed zero when the sum is zero |
| `Add.AddRAsWrittenAgrees` | dm_double.c:581-695 | add_r as written equals the corrected one whenever the gap between normal operands is neither 1 nor 17 |
| `Add.CancelCounterexample` | dm_double.c:675-693 | 10 - 9.5 gives 5.0 as written and 0.5 corrected, the exact difference |
| `Add.StickyGapCounterexample` | dm_double.c:583-593 | 10^17 - 9.999999999999999 to nearest gives 1.000000000000000e17 as written and 9.999999999999999e16 corrected |
| `Add.AddZero` | dm_double.c:566-567 | adding a zero of either sign to a normal value or an infinity, on either side, returns it |
| `Add.AddCommutes` | dm_double.c:543-698 | add_r is commutative except between two NaNs, where the lhs payload wins |
| `Add.SubR` | dm_double.c:700-707 | a NaN operand is returned untouched, lhs first; otherwise sub_r is add_r with the rhs negated |
| `Add.SubSelf` | dm_double.c:700-707 | x - x is the mode's signed zero for finite x and the NaN with payload 255 for an infinity |
| `Add.Modf` | dm_double.c:486-496 | for specials the integer part is the argument and the fraction the argument, or the zero of its sign for an infinity; for normal values the integer part is trunc |
| `Add.ModfExact` | dm_double.c:486-496 | for every canonical normal value, the integer part is integral with the value's sign, and the fraction is zero exactly when the value is integral; otherwise the fraction is below one, has the value's sign, and fraction plus integer part is exactly the value |
| `Text.ToString` | dm_double.c:862-881 | at most 23 characters for a canonical record, with a leading '-' exactly when the sign is set |
| `Text.ToStringManual` | dm_double_m.c:1399-1490 | the hand-written digits give at most 23 characters, with a leading '-' exactly when the sign is set |
| `Text.ExpDigitsAgree` | dm_double_m.c:1465-1488 | the hand-written exponent digits are the decimal digits of the exponent without leading zeros, as `%+d` prints them |
| `Text.ToStringLayouts` | dm_double_m.c:1434-1438 | the two tostring implementations print the same text exactly on canonical records |
| `Text.ReadRaw` | dm_double.c:883-1052 | the sign is read from a leading '-', and the significand is zero or sixteen digits |
| `Text.FromString` | dm_double.c:883-1071 | the result is canonical and negative exactly when the text starts with '-' |
| `Text.ExponentFieldText` | dm_double.c:1029-1052 | the exponent field reads back every exponent within twice the range as printed |
| `Text.KeptSig` | dm_double.c:900-1020 | up to sixteen significant digits are kept exactly, padded with zeros to sixteen |
| `Text.DroppedSig` | dm_double.c:900-1028 | past sixteen digits the residue of the dropped digits makes the significand the full digit string rounded in the mode |
| `Text.ReadNumeral` | dm_double.c:883-1052 | a numeral `[-]digits[.digits][e±digits]` reads as the value of all its digits times ten to the exponent less the fraction length, rounded to sixteen digits in the mode, or as no significand when every digit is zero |
| `Text.RoundTrip` | dm_double.c:862-1071 | fromstring(tostring(x)) is x for every canonical zero or normal x, in every mode |
| `Text.RoundTripManual` | dm_double_m.c:1399-1726 | the same round trip through the hand-written tostring |
| `Text.SpecialRoundTrip` | dm_double.c:868-871 | tostring of an infinity or a NaN reads back as the zero of its sign |
| `Text.WordRead` | dm_double.c:1053-1058 | a text with no digit after the sign reads as the zero of the sign |
| `Pretty.LastNonZero` | dm_double_pretty.c:56-59 | the backward scan stops at the last character that is not '0', with only zeros after it |
| `Pretty.TrimZeros` | dm_double_pretty.c:150-154 | a prefix of the digits, not ending in '0', with only zeros removed |
| `Pretty.Conditioned` | dm_double_pretty.c:48-68 | conditionResult turns tostring's text into the exponent form: trailing fraction zeros removed, the point dropped when nothing follows it, the exponent suffix kept |
| `Pretty.PrettyString` | dm_double_pretty.c:88-119 | NaN and infinity print as tostring does; a non-canonical value prints "Err"; zeros print "0" or "-0" |
| `Pretty.PrettyAgrees` | dm_double_pretty.c:120-226 | the character loops print exactly the reference numeral: the fixed form for exponents 0 to 15, the leading-zero form when it fits, the exponent form otherwise |
| `Pretty.FixedLoops` | dm_double_pretty.c:134-175 | for exponents 0 to 15 the point moves right by the exponent and trailing zeros and a bare point are removed |
| `Pretty.ShortLoops` | dm_double_pretty.c:176-226 | for exponents -1 to -10 the leading-zero form is printed when the exponent plus the removed zeros is at least -5, and the exponent form otherwise |
| `Pretty.PrettyRoundTrip` | dm_double_pretty.c:88-228 | fromstring reads the pretty text of every canonical zero or normal value back to that value, in every mode |
| `Pretty.PrettyLength` | dm_double_pretty.c:70-87 | every pretty text fits the 24-byte buffer with its terminator |
| `Pretty.PrettySign` | dm_double_pretty.c:99-119 | "Err" is printed exactly for non-canonical finite values; every other text starts with '-' exactly when the sign is set |
| `Pretty.PrettyExponent` | dm_double_pretty.c:127-226 | exponents -5 to 15 never print an exponent part, exponents above 15 or below -10 always do, and without an exponent part no point is followed by a trailing zero |
| `WideInt.FromNat` | dm_muldiv.h:41-49 | every natural below 2^128 has a limb representation |
| `WideInt.LoadFrom` | dm_muldiv.c:34-44 | loading a 64-bit value gives that value with limbs 2 and 3 zero |
| `WideInt.Extract` | dm_muldiv.c:290-297 | extract gives the value modulo 2^64 |
| `WideInt.LoadExtract` | dm_muldiv.c:34-297 | extract after loadFrom returns the loaded value |
| `WideInt.ExtractLoad` | dm_muldiv.c:34-297 | loadFrom after extract restores a value whose top limbs are zero |
| `WideInt.Add` | dm_muldiv.c:300-317 | the sum modulo 2^128, with the carry through all four limbs |
| `WideInt.Sub` | dm_muldiv.c:319-336 | the difference modulo 2^128, with the borrow through all four limbs |
| `WideInt.SubAfterAdd` | dm_muldiv.c:300-336 | subtracting what was added restores the value |
| `WideInt.AddAfterSub` | dm_muldiv.c:300-336 | adding back what was subtracted restores the value |
| `WideInt.LimbProduct` | dm_muldiv.c:46-86 | a limb product plus two limbs fits in 64 bits: (B-1) + (B-1) + (B-1)^2 = B^2 - 1 for B = 2^32 |
| `WideInt.MulBy` | dm_muldiv.c:46-86 | the product with a 64-bit word modulo 2^128 |
| `WideInt.Shl` | dm_muldiv.c:127-148 | for 0 <= count <= 63, the value times 2^count modulo 2^128 |
| `WideInt.Shr` | dm_muldiv.c:150-171 | for 0 <= count <= 63, the value divided by 2^count, rounded down |
| `WideInt.Shl1` | dm_muldiv.c:97-110 | twice the value modulo 2^128 |
| `WideInt.Shr1` | dm_muldiv.c:112-125 | half the value, rounded down |
| `WideInt.ShlShr` | dm_muldiv.c:127-171 | shifting right by the count after shifting left restores the value when nothing was shifted out |
| `WideInt.IsZero` | dm_muldiv.c:338-345 | true exactly when the value is 0 |
| `WideInt.Greater` | dm_muldiv.c:347-355 | true exactly when the value exceeds the 64-bit scalar |
| `WideInt.Less` | dm_muldiv.c:357-367 | true exactly when the lhs value is below the rhs value |
| `WideDiv.Normalize` | dm_muldiv.c:223-236 | the byte and bit scans stop for every nonzero divisor, with a count of at most 63 that sets the divisor's bit 63 |
| `WideDiv.FirstDigit` | dm_muldiv.c:241-250 | the first trial digit is at least the true digit and at most two above it; the true digit fits in 32 bits and the trial product stays below 2^128 |
| `WideDiv.SecondDigit` | dm_muldiv.c:264-269 | the same bounds for the second trial digit against what the first step left |
| `WideDiv.DigitStep` | dm_muldiv.c:250-281 | at most two decrements turn the trial digit into the true digit, and what is left is the remainder |
| `WideDiv.DivByResult` | dm_muldiv.c:283-285 | the two digits joined are the quotient, and the remainder shifted back is the remainder of the original operands |
| `WideDiv.DivBy` | dm_muldiv.c:175-288 | for 0 < rhs and lhs < rhs * 2^64, the word path returns quo = lhs / rhs and rem = lhs % rhs |
| `WideDiv.DivBySlow` | dm_muldiv.c:181-209 | the shift-and-subtract path returns the same quotient and remainder |

## Left out

- The host binary floating-point bridge (`todouble`, `fromdouble`, `tolongdouble`, `fromlongdouble`): its results depend on binary floating point, `log10` and `pow`.
- `sprintf` in `tostring`: `Text.ToString` builds the string the format `%s0.000000000000000e+0`, `%sNaN`, `%sInf` or `%PRId64.%015PRIu64e%+d` produces, rather than modelling printf.
- The global rounding mode and `dm_fegetround`: the mode is a parameter. `dm_double_add`, `sub`, `mul` and `div` are the `_r` functions with that parameter and have no members of their own.
- The `__uint128_t` backend of dm_muldiv.c: the natural-number value `WideInt.Val` plays its role as the specification. The native branch of `divBy` is the ensures of `WideDiv.DivBy`.
- Aliasing of `dest` with `lhs` or `rhs` in `dm_muldiv_add`/`sub`: the model's operations are pure functions, so aliasing cannot arise. `dm_muldiv_copy` is value assignment.
- WideDiv.DivBy: requires the quotient to fit in 64 bits (lhs < rhs * 2^64), as every caller's does. With a larger dividend the native path would truncate the quotient, and the word path's digits would not fit.
- WideDiv.DivBySlow: the same precondition as DivBy.
- Arithmetic and rounding on non-canonical records (significand above 9999999999999999): the source computes something, but gives it no meaning. `Integral`, `Arith`, `Add` and `Scale` operations require canonical arguments. `iscanonical`, the classification, the comparisons, `tostring` and the pretty printer are modelled on every record.
- Arith.MulRAsWritten: states only the special cases and the sign. Its value on normal operands is pinned down by `Arith.MulCarryCounterexample` and by the shared `Arith.MulRounded`.
- Add.AddRAsWritten: states only the special cases and canonicity. Its value on normal operands is related to the corrected add_r by `Add.AddRAsWrittenAgrees` and the two counterexamples.
- Scale.LdexpAsWritten: the count is an unbounded integer. In C, `exponent + old_exponent` is computed in `int` whenever the count is at most 1022, so it overflows, which is undefined behaviour, when the count is below INT_MIN minus a negative stored exponent (within 512 of INT_MIN); the model answers the signed zero of the sign there.
- Scale.Ldexp: the same unbounded count as LdexpAsWritten.
- Text.FromString: its own contract gives only canonicity and the sign. The value read is stated for numerals (`Text.ReadNumeral`) and for texts without digits (`Text.WordRead`); other malformed texts are not characterised.
- Text.SpecialRoundTrip: the library's description says the round trip holds for infinities and NaNs too. The code reads "Inf" and "NaN" as texts without digits, so they come back as signed zeros. The model follows the code.
- The exponent arithmetic of `fromstring` in `int`: `resultExponent` is a 32-bit counter that goes up by one for every significant integer digit and down by one for every leading fraction zero, and only the exponent field is cut off at twice the exponent range. A text with more than 2^31 such digits overflows the counter, which is undefined behaviour; the model counts with unbounded integers and reads such a text as its exact value rounded.
- The sampling loop of the muldiv unit tests: the division lemmas cover every input instead.

## Findings

| source | as written | input that shows it | evidently intended | confidence | as-written member | corrected member |
|---|---|---|---|---|---|---|
| dm_double.c:766-770 | mul_r adds the rounding increment and packs without checking for 10^16; the comment says this cannot overflow | 4000000000000008e-15 * 2499999999999995e-15 to nearest: the quotient 9999999999999999 rounds up to 10^16, a non-canonical record (`Arith.MulCarryCounterexample`) | a carry to 10^16 becomes 10^15 at the next exponent, as add_r does at dm_double.c:664-668 | not executed | `Arith.MulRAsWritten` | `Arith.MulR` |
| dm_double.c:426 | nearbyint passes `arg & SIGN_BIT` to dm_decideRound's `int` sign, which is always 0 (also dm_double_m.c:704) | -1.5 rounded upward gives -2, below the argument (`Integral.NearbyIntSignCounterexample`, `LayoutA.SignArgumentLost`) | the sign flag `!!(arg & SIGN_BIT)`, as the other callers pass | not executed | `Integral.NearbyIntAsWritten` | `Integral.NearbyInt` |
| dm_double.c:420 | nearbyint returns a signed zero for exponents below -1 whatever the mode | 0.01 rounded upward gives +0 instead of 1 (`Integral.NearbyIntTinyCounterexample`) | small values rounded in the mode, as ceil and floor do | not executed | `Integral.NearbyIntAsWritten` | `Integral.NearbyInt` |
| dm_double.c:675-693 | when a gap of one cancels below 10^15, the exponent decrement for the gap is skipped | 10 - 9.5 gives 5.0 instead of 0.5 (`Add.CancelCounterexample`) | the decrement applied in the cancellation branch as in the exact branch at dm_double.c:690-693 | not executed | `Add.AddRAsWritten` | `Add.AddR` |
| dm_double.c:583-593 | a gap of 17 takes the sticky path, whose unit can then stand in for up to ten units of the smaller operand | 10^17 - 9.999999999999999 to nearest gives 1.000000000000000e17 instead of 9.999999999999999e16 (`Add.StickyGapCounterexample`) | exact alignment up to a gap of 17, sticky only beyond | not executed | `Add.AddRAsWritten` | `Add.AddR` |
| dm_double.c:498-512 | frexp and ldexp treat exponent -512 as an ordinary exponent | ldexp(+0, 1) is the normal 1.0e-511; ldexp of frexp(+inf) is +0 (`Scale.SpecialExponentCounterexample`) | zeros, infinities and NaNs returned unchanged | not executed | `Scale.LdexpAsWritten` | `Scale.Ldexp` |
