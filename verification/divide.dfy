/**
 * dm_muldiv_divBy: a 128-bit dividend over a 64-bit divisor, in the two
 * configurations without a native 128-bit type.  The fast path is Knuth's
 * Algorithm D with two 32-bit quotient digits: normalise the divisor so its
 * top bit is set, estimate each digit from the top two limbs of the running
 * remainder over the top limb of the divisor, then correct the estimate down
 * at most twice.  The slow path is binary long division.  Both are proved to
 * compute Euclidean division whenever the quotient fits in 64 bits, which is
 * what every caller guarantees.
 */
module WideDiv {
  import opened Pow
  import opened Bits
  import opened WideInt

  // ---------------------------------------------------------------------
  // Arithmetic facts about quotients
  // ---------------------------------------------------------------------

  /** A multiple of s fits under n exactly when the factor is at most n / s. */
  lemma MulDivBound(n: nat, s: nat, k: nat)
    requires 0 < s
    ensures s * k <= n <==> k <= n / s
  {
    var q, r := n / s, n % s;
    DivModParts(n, s, q, r);
    if k <= q {
      MulLe(s, k, s, q);
    } else {
      MulLe(s, q + 1, s, k);
    }
  }

  /** The quotient of naturals is a natural. */
  lemma Quotient(x: nat, d: nat, q: int)
    requires 0 < d && q == x / d
    ensures 0 <= q
  {
  }

  /** A value in [0, 2^128) is its own residue. */
  lemma ModSmall(x: int)
    requires 0 <= x < B128
    ensures x % B128 == x
  {
    DivModUnique(x, B128, 0, x);
  }

  /** Scaling dividend and divisor by the same factor scales only the remainder. */
  lemma ScaleDiv(x: nat, d: nat, p: nat)
    requires 0 < d && 0 < p
    ensures (x * p) / (d * p) == x / d
    ensures (x * p) % (d * p) == (x % d) * p
  {
    var q, r := x / d, x % d;
    DivModParts(x, d, q, r);
    assert x * p == q * (d * p) + r * p;
    MulLt(r, p, d, p + 1);
    MulLe(d, p, d, p);
    assert r * p < d * p by {
      MulLe(r + 1, p, d, p);
    }
    DivModUnique(x * p, d * p, q, r * p);
  }

  /**
   * Division by d*b in two digits: the high digit is n / (d*b), the low digit
   * divides what is left by d.
   */
  lemma TwoDigits(n: nat, d: nat, b: nat, q1: nat, r1: nat, q2: nat, r2: nat)
    requires 0 < d && 0 < b
    requires q1 == n / (d * b) && r1 == n % (d * b)
    requires q2 == r1 / d && r2 == r1 % d
    ensures n / d == q1 * b + q2 && n % d == r2
  {
    DivModParts(n, d * b, q1, r1);
    DivModParts(r1, d, q2, r2);
    assert n == (q1 * b + q2) * d + r2;
    DivModUnique(n, d, q1 * b + q2, r2);
  }

  // ---------------------------------------------------------------------
  // Knuth's digit estimate, base 2^32
  // ---------------------------------------------------------------------

  /**
   * The estimate never falls short: with d = d1*2^32 + d0, the true digit
   * x / d is at most (x / 2^32) / d1.
   */
  lemma EstimateAtLeast(x: nat, d: nat, d1: nat, d0: nat, q: int, qh: nat)
    requires 0 < d1 && d == d1 * 0x1_0000_0000 + d0
    requires q == x / d && qh == (x / 0x1_0000_0000) / d1
    ensures q <= qh
  {
    Quotient(x, d, q);
    var r := x % d;
    DivModParts(x, d, q, r);
    var t := d1 * q;
    HighPartBelow(q, d, d1, d0, t);
    MulDivBound(x, 0x1_0000_0000, t);
    MulDivBound(x / 0x1_0000_0000, d1, q);
  }

  /** The high limb's share of q * d is at most q * d. */
  lemma HighPartBelow(q: nat, d: nat, d1: nat, d0: nat, t: nat)
    requires d == d1 * 0x1_0000_0000 + d0 && t == d1 * q
    ensures 0x1_0000_0000 * t <= q * d
  {
    assert q * d == 0x1_0000_0000 * t + q * d0;
  }

  /**
   * With a normalised divisor (top bit of d1 set) and a dividend whose digit
   * fits, the estimate exceeds the true digit by at most two, and the digit
   * itself is below 2^32.
   */
  lemma EstimateAtMost(x: nat, d: nat, d1: nat, d0: nat, q: int, qh: nat)
    requires 0x8000_0000 <= d1 < 0x1_0000_0000 && d0 < 0x1_0000_0000
    requires d == d1 * 0x1_0000_0000 + d0 && x < d * 0x1_0000_0000
    requires q == x / d && qh == (x / 0x1_0000_0000) / d1
    ensures q < 0x1_0000_0000 && qh <= q + 2
  {
    Quotient(x, d, q);
    MulDivBound(x, d, 0x1_0000_0000);
    var r := x % d;
    DivModParts(x, d, q, r);
    var below, above, spill := d1 * qh, (q + 1) * d1, (q + 1) * d0;
    EstimateBelow(x, d1, qh);
    Expand(q + 1, d, d1, d0, above, spill);
    MulLe(q + 1, d0, 0x1_0000_0000, d0);
    EstimateGap(x, below, above, spill);
    Expand2(qh, q + 1, d1, below, above);
    CancelBelow(qh - q - 1, 2, d1);
  }

  /** The estimate times d1, shifted back up, does not exceed x. */
  lemma EstimateBelow(x: nat, d1: nat, qh: nat)
    requires 0 < d1 && qh == (x / 0x1_0000_0000) / d1
    ensures (d1 * qh) * 0x1_0000_0000 <= x
  {
    var xb := x / 0x1_0000_0000;
    MulDivBound(xb, d1, qh);
    DivModParts(x, 0x1_0000_0000, xb, x % 0x1_0000_0000);
  }

  /** The linear step of EstimateAtMost, over named products. */
  lemma EstimateGap(x: int, below: int, above: int, spill: int)
    requires below * 0x1_0000_0000 <= x < above * 0x1_0000_0000 + spill
    requires spill <= 0x1_0000_0000 * 0xFFFF_FFFF
    ensures below - above < 0x1_0000_0000
  {
  }

  lemma Expand(k: int, d: int, d1: int, d0: int, above: int, spill: int)
    requires d == d1 * 0x1_0000_0000 + d0 && above == k * d1 && spill == k * d0
    ensures k * d == above * 0x1_0000_0000 + spill
  {
  }

  lemma Expand2(a: int, b: int, d1: int, below: int, above: int)
    requires below == d1 * a && above == b * d1
    ensures below - above == (a - b) * d1
  {
  }

  lemma CancelBelow(a: int, c: int, d: nat)
    requires 0 < d && a * d < c * d
    ensures a < c
  {
    assert a * d - c * d == (a - c) * d;
  }

  /**
   * The estimate times the divisor stays below 2^96, so multiplying the
   * shifted divisor by it cannot overflow 128 bits.
   */
  lemma EstimateFits(x: nat, d: nat, d1: nat, d0: nat, qh: nat)
    requires 0x8000_0000 <= d1 < 0x1_0000_0000 && d0 < 0x1_0000_0000
    requires d == d1 * 0x1_0000_0000 + d0 && x < d * 0x1_0000_0000
    requires qh == (x / 0x1_0000_0000) / d1
    ensures d * qh < 0x1_0000_0000_0000_0000_0000_0000
  {
    var xb := x / 0x1_0000_0000;
    MulDivBound(x, 0x1_0000_0000, d);
    MulDivBound(xb, d1, qh);
    assert d1 * qh < d1 * (0x1_0000_0002);
    CancelBelow(qh, 0x1_0000_0002, d1);
    if qh <= 0x1_0000_0000 {
      MulLe(d, qh, d, 0x1_0000_0000);
    } else {
      assert qh == 0x1_0000_0001;
      assert d1 * qh == d1 * 0x1_0000_0000 + d1;
      assert d * qh == d * 0x1_0000_0000 + d;
    }
  }

  // ---------------------------------------------------------------------
  // One quotient digit
  // ---------------------------------------------------------------------

  /** Taking one more divisor off a product that does not wrap. */
  lemma StepDown(sv: nat, k: nat, tv: int)
    requires 1 <= k && tv == sv * k && tv < B128
    ensures (tv - sv) % B128 == sv * (k - 1)
  {
    assert sv * k == sv * (k - 1) + sv;
    MulLe(0, 0, sv, k - 1);
    ModSmall(tv - sv);
  }

  /** A quotient digit and what is left of the dividend. */
  datatype Digit = Digit(dig: u64, rest: Wide)

  /**
   * One digit of the fast path: multiply the divisor by the estimate, then
   * correct.
   */
  method DigitStep(n: Wide, s: Wide, qhat: u64) returns (r: Digit)
    requires 0 < Val(s) && Val(s) * qhat < B128
    requires Val(n) / Val(s) <= qhat <= Val(n) / Val(s) + 2
    ensures r.dig == Val(n) / Val(s) && Val(r.rest) == Val(n) % Val(s)
  {
    var t := MulBy(s, qhat);
    ModSmall(Val(s) * qhat);
    r := Correct(n, s, qhat, t, 2);
  }

  /**
   * The correction steps of a digit, with t = s * dig: while corrections
   * remain and t exceeds the dividend, step the digit down and take s off t;
   * then subtract t from the dividend.  Knuth's bound allows two
   * corrections, which the source writes as two nested tests.
   */
  function Correct(n: Wide, s: Wide, dig: u64, t: Wide, tries: nat): (r: Digit)
    requires 0 < Val(s) && Val(t) == Val(s) * dig
    requires Val(n) / Val(s) <= dig <= Val(n) / Val(s) + tries
    ensures r.dig == Val(n) / Val(s) && Val(r.rest) == Val(n) % Val(s)
    decreases tries
  {
    ValBound(t);
    if 0 < tries && Less(n, t) then
      Above(Val(n), Val(s), dig, Val(t));
      StepDown(Val(s), dig, Val(t));
      Correct(n, s, dig - 1, Sub(t, s), tries - 1)
    else
      MulDivBound(Val(n), Val(s), dig);
      Finish(n, s, dig, t)
  }

  /** The last step of a digit: subtract the exact product. */
  function Finish(n: Wide, s: Wide, dig: u64, t: Wide): (r: Digit)
    requires 0 < Val(s) && Val(t) == Val(s) * dig && Val(t) <= Val(n)
    requires Val(n) / Val(s) <= dig
    ensures r.dig == Val(n) / Val(s) && Val(r.rest) == Val(n) % Val(s)
  {
    ValBound(n);
    DigitExact(Val(n), Val(s), dig, Val(t));
    Digit(dig, Sub(n, t))
  }

  /** A product above the remainder means the estimate is above the digit. */
  lemma Above(nv: nat, sv: nat, k: nat, tv: int)
    requires 0 < sv && tv == sv * k && nv < tv
    ensures nv / sv < k
  {
    MulDivBound(nv, sv, k);
  }

  /**
   * A product at most the dividend, from an estimate no smaller than the
   * digit, is exact, and what is left after subtracting it is the remainder.
   */
  lemma DigitExact(nv: nat, sv: nat, k: nat, tv: int)
    requires 0 < sv && nv < B128 && tv == sv * k && tv <= nv && nv / sv <= k
    ensures k == nv / sv && (nv - tv) % B128 == nv % sv
  {
    MulDivBound(nv, sv, k);
    DivModParts(nv, sv, k, nv % sv);
    ModSmall(nv - tv);
  }


  // ---------------------------------------------------------------------
  // Normalisation: shift the divisor until its top bit is set
  // ---------------------------------------------------------------------

  /**
   * The two scans of the fast path: whole zero bytes from the top, then
   * single zero bits.  The shift count leaves the divisor's top bit set.
   * The ghost e is the position of the bit under test: bit = 2^e.
   */
  method Normalize(rhs: u64) returns (count: nat)
    requires 0 < rhs
    ensures count <= 63
    ensures 0x8000_0000_0000_0000 <= rhs * Pow2(count) < B64
  {
    var bit: u64;
    ghost var e: nat;
    count, bit, e := ByteScan(rhs);
    while 0 == And(rhs, bit)
      invariant e + count == 63 && bit == Pow2(e) && rhs < 2 * bit
      decreases e
    {
      BitClear(rhs, e);
      bit := bit / 2;
      count := count + 1;
      e := e - 1;
    }
    BitSet(rhs, count, e);
  }

  /** The byte scan: whole zero bytes from the top, leaving the top set bit in the byte under the mask. */
  method ByteScan(rhs: u64) returns (count: nat, bit: u64, ghost e: nat)
    requires 0 < rhs
    ensures e + count == 63 && 7 <= e && bit == Pow2(e) && rhs < 2 * bit
  {
    NormalizeStart();
    var byt: u64 := 0xFF00_0000_0000_0000;
    bit := 0x8000_0000_0000_0000;
    count := 0;
    e := 63;
    while 0 == And(rhs, byt)
      invariant e + count == 63 && 7 <= e && e % 8 == 7
      invariant bit == Pow2(e) && byt == 255 * Pow2(e - 7) && rhs < 2 * bit
      decreases e
    {
      ByteClear(rhs, e);
      byt := byt / 256;
      bit := bit / 256;
      count := count + 8;
      e := e - 8;
    }
  }

  /** The masks the scans start from. */
  lemma NormalizeStart()
    ensures Pow2(63) == 0x8000_0000_0000_0000 && 2 * Pow2(63) == B64
    ensures 255 * Pow2(56) == 0xFF00_0000_0000_0000
  {
    Pow2Words();
    Pow2Split(56, 7, 63);
    Pow2Small();
  }

  /**
   * A clear byte 2^(e-7) .. 2^e, with nothing above it: the divisor fits
   * below 2^(e-7), and the scan moves down a byte.
   */
  lemma ByteClear(rhs: nat, e: nat)
    requires 0 < rhs && 7 <= e && e % 8 == 7 && rhs < 2 * Pow2(e)
    requires And(rhs, 255 * Pow2(e - 7)) == 0
    ensures 15 <= e && rhs < 2 * Pow2(e - 8) && Pow2(e) / 256 == Pow2(e - 8)
    ensures 255 * Pow2(e - 7) / 256 == 255 * Pow2(e - 15)
  {
    var j := e - 7;
    var pj := Pow2(j);
    Pow2Small();
    Pow2Split(7, j, e);
    AndFieldZero(rhs, 8, j, 255 * pj);
    FieldEmpty(rhs, pj, 256);
    assert j != 0;
    var i := j - 8;
    var pi := Pow2(i);
    Pow2Split(8, i, j);
    Pow2Split(7, i, e - 8);
    MulDivExact(128 * pi, 256);
    MulDivExact(255 * pi, 256);
  }

  /** A value below m * p whose digit (x / p) % m is zero is below p. */
  lemma FieldEmpty(x: nat, p: nat, m: nat)
    requires 0 < p && 0 < m && x < m * p && (x / p) % m == 0
    ensures x < p
  {
    var q := x / p;
    MulDivBound(x, p, m);
    assert m * p == p * m;
    DivModUnique(q, m, 0, q);
    MulDivBound(x, p, 1);
  }

  /** A value with bit j set is at least 2^j. */
  lemma BitFound(x: nat, j: nat)
    requires And(x, Pow2(j)) != 0
    ensures Pow2(j) <= x
  {
    var pj := Pow2(j);
    assert Pow2(1) == 2;
    AndFieldZero(x, 1, j, pj);
    FieldSet(x, pj, x / pj);
  }

  /** A value whose digit x / p is odd is at least p. */
  lemma FieldSet(x: nat, p: nat, q: nat)
    requires 0 < p && q == x / p && q % 2 != 0
    ensures p <= x
  {
    MulDivBound(x, p, 1);
  }

  /** A clear bit e with nothing above it: the divisor fits below 2^e. */
  lemma BitClear(rhs: nat, e: nat)
    requires 0 < rhs && rhs < 2 * Pow2(e) && And(rhs, Pow2(e)) == 0
    ensures 1 <= e && rhs < 2 * Pow2(e - 1) && Pow2(e) / 2 == Pow2(e - 1)
  {
    var pe := Pow2(e);
    assert Pow2(1) == 2;
    AndFieldZero(rhs, 1, e, pe);
    FieldEmpty(rhs, pe, 2);
    assert e != 0;
    assert pe == 2 * Pow2(e - 1);
  }

  /**
   * The scan stops at the divisor's top bit e, so the divisor shifted left by
   * count = 63 - e has bit 63 set.
   */
  lemma BitSet(rhs: nat, count: nat, e: nat)
    requires e + count == 63 && rhs < 2 * Pow2(e) && And(rhs, Pow2(e)) != 0
    ensures 0x8000_0000_0000_0000 <= rhs * Pow2(count) < B64
  {
    BitFound(rhs, e);
    ScaledAtLeast(rhs, e, count, 63);
    ScaledBelow(rhs, Pow2(e), Pow2(count));
    Pow2Split(e, count, 63);
    Pow2Words();
  }

  /** x >= 2^j scales to x * 2^c >= 2^(j + c). */
  lemma ScaledAtLeast(x: nat, j: nat, c: nat, k: nat)
    requires Pow2(j) <= x && j + c == k
    ensures Pow2(k) <= x * Pow2(c)
  {
    Pow2Split(j, c, k);
    MulLe(Pow2(j), Pow2(c), x, Pow2(c));
  }

  /** x < 2 * pe scales to x * p < 2 * (pe * p). */
  lemma ScaledBelow(x: nat, pe: nat, p: nat)
    requires x < 2 * pe && 0 < p
    ensures x * p < 2 * (pe * p)
  {
    MulLe(x + 1, p, 2 * pe, p);
    assert (x + 1) * p == x * p + p;
  }

  // ---------------------------------------------------------------------
  // The fast path
  // ---------------------------------------------------------------------

  /**
   * dm_muldiv_divBy, word-division configuration.  A dividend whose two high
   * limbs are zero is divided natively.  Otherwise both operands are shifted
   * left until the divisor's top bit is set; the quotient is found as two
   * 32-bit digits, the first against the divisor shifted up one limb; and the
   * remainder is shifted back.
   */
  method DivBy(lhs: Wide, rhs: u64) returns (quo: u64, rem: u64)
    requires 0 < rhs && Val(lhs) < rhs * B64
    ensures quo == Val(lhs) / rhs && rem == Val(lhs) % rhs
  {
    OrZero(lhs.l3, lhs.l2);
    if 0 == Or(lhs.l3, lhs.l2) {
      var n := Join(lhs.l1, lhs.l0);
      DivAtMost(n, rhs);
      quo := n / rhs;
      rem := n % rhs;
      return;
    }
    var count := Normalize(rhs);
    var n := Shl(lhs, count);
    var d := Shl(LoadFrom(rhs), count);
    ghost var p := Pow2(count);
    Scaled(Val(lhs), rhs, p, Val(n), Val(d));
    NormalizedLimbs(d);
    var s := Wide(0, d.l0, d.l1, 0);
    TopLimbs(n);
    DivAtMost(Join(n.l3, n.l2), d.l1);
    var qhat1: u64 := Join(n.l3, n.l2) / d.l1;
    FirstDigit(Val(n), Val(d), d.l1, d.l0, Val(s), Join(n.l3, n.l2), qhat1);
    var first := DigitStep(n, s, qhat1);
    ThreeLimbs(first.rest);
    DivAtMost(Join(first.rest.l2, first.rest.l1), d.l1);
    var qhat2: u64 := Join(first.rest.l2, first.rest.l1) / d.l1;
    SecondDigit(Val(first.rest), Val(d), d.l1, d.l0, Join(first.rest.l2, first.rest.l1), qhat2);
    var second := DigitStep(first.rest, d, qhat2);
    quo := Join(first.dig, second.dig);
    var r := Shr(second.rest, count);
    DivByResult(Val(lhs), rhs, p, Val(n), Val(d), Val(s), first.dig, Val(first.rest),
                second.dig, Val(second.rest), quo, Val(r));
    rem := Extract(r);
  }

  lemma DivAtMost(x: nat, m: nat)
    requires 0 < m
    ensures 0 <= x / m <= x
  {
    MulDivBound(x, m, x / m);
    MulLe(1, x / m, m, x / m);
  }

  /** Shifting both operands by the same count keeps the quotient in 64 bits. */
  lemma Scaled(lv: nat, rhs: nat, p: nat, nv: int, dv: int)
    requires 0 < rhs && lv < rhs * B64 && 0 < p
    requires 0x8000_0000_0000_0000 <= rhs * p < B64
    requires nv == (lv * p) % B128 && dv == (rhs * p) % B128
    ensures nv == lv * p && dv == rhs * p
    ensures nv < dv * 0x1_0000_0000_0000_0000
  {
    var lp, rp := lv * p, rhs * p;
    ScaledBelowWord(lv, rhs, p, lp, rp);
    ModSmall(lp);
    ModSmall(rp);
  }

  lemma ScaledBelowWord(lv: nat, rhs: nat, p: nat, lp: nat, rp: nat)
    requires lv < rhs * 0x1_0000_0000_0000_0000 && rp < 0x1_0000_0000_0000_0000
    requires lp == lv * p && rp == rhs * p && 0 < p
    ensures lp < rp * 0x1_0000_0000_0000_0000 && lp < B128
  {
    MulLe(lv + 1, p, rhs * 0x1_0000_0000_0000_0000, p);
    assert (lv + 1) * p == lp + p;
    assert (rhs * 0x1_0000_0000_0000_0000) * p == rp * 0x1_0000_0000_0000_0000;
  }

  /**
   * The normalised divisor: two limbs, the top one with its high bit set;
   * moved up one limb it is the divisor times 2^32.
   */
  lemma NormalizedLimbs(d: Wide)
    requires 0x8000_0000_0000_0000 <= Val(d) < B64
    ensures d.l2 == 0 && d.l3 == 0 && 0x8000_0000 <= d.l1
    ensures Val(d) == d.l1 * 0x1_0000_0000 + d.l0
    ensures Val(Wide(0, d.l0, d.l1, 0)) == Val(d) * 0x1_0000_0000
  {
    assert Val(d) == d.l0 + 0x1_0000_0000 * d.l1 + 0x1_0000_0000_0000_0000 * d.l2
      + 0x1_0000_0000_0000_0000_0000_0000 * d.l3;
    assert Val(Wide(0, d.l0, d.l1, 0)) == 0x1_0000_0000 * d.l0 + 0x1_0000_0000_0000_0000 * d.l1;
  }

  /** The two top limbs, joined, are the value shifted right by 64 bits. */
  lemma TopLimbs(w: Wide)
    ensures Val(w) / B32 / B32 == w.l3 * B32 + w.l2
  {
    var x := Val(w);
    assert B32 == 0x1_0000_0000;
    assert x == (w.l1 + w.l2 * 0x1_0000_0000 + w.l3 * 0x1_0000_0000_0000_0000) * 0x1_0000_0000 + w.l0;
    DivModUnique(x, B32, w.l1 + w.l2 * 0x1_0000_0000 + w.l3 * 0x1_0000_0000_0000_0000, w.l0);
    assert x / B32 == (w.l2 + w.l3 * 0x1_0000_0000) * 0x1_0000_0000 + w.l1;
    DivModUnique(x / B32, B32, w.l2 + w.l3 * 0x1_0000_0000, w.l1);
  }

  /** A value below 2^96 has a zero top limb; its next two limbs are the value shifted right by 32. */
  lemma ThreeLimbs(w: Wide)
    requires Val(w) < B96
    ensures w.l3 == 0 && Val(w) / B32 == w.l2 * B32 + w.l1
  {
    var x := Val(w);
    assert B32 == 0x1_0000_0000;
    assert x == w.l0 + 0x1_0000_0000 * w.l1 + 0x1_0000_0000_0000_0000 * w.l2
      + 0x1_0000_0000_0000_0000_0000_0000 * w.l3;
    assert x == (w.l1 + w.l2 * 0x1_0000_0000) * 0x1_0000_0000 + w.l0;
    DivModUnique(x, B32, w.l1 + w.l2 * 0x1_0000_0000, w.l0);
  }

  /**
   * The first digit: the dividend over the divisor shifted up one limb,
   * estimated from the top two limbs of the dividend.
   */
  lemma FirstDigit(nv: nat, dv: nat, d1: nat, d0: nat, sv: nat, top: nat, qh: nat)
    requires 0x8000_0000 <= d1 < 0x1_0000_0000 && d0 < 0x1_0000_0000
    requires dv == d1 * 0x1_0000_0000 + d0 && nv < dv * 0x1_0000_0000_0000_0000
    requires sv == dv * 0x1_0000_0000 && top == nv / 0x1_0000_0000 / 0x1_0000_0000 && qh == top / d1
    ensures 0 < sv && nv / sv <= qh <= nv / sv + 2 && nv / sv < 0x1_0000_0000
    ensures sv * qh < B128
  {
    var x := nv / 0x1_0000_0000;
    MulDivBound(nv, 0x1_0000_0000, dv * 0x1_0000_0000);
    DivDiv(nv, 0x1_0000_0000, dv);
    EstimateAtLeast(x, dv, d1, d0, x / dv, qh);
    EstimateAtMost(x, dv, d1, d0, x / dv, qh);
    EstimateFits(x, dv, d1, d0, qh);
  }

  /** The second digit: what is left over the divisor, from its limbs 2 and 1. */
  lemma SecondDigit(rv: nat, dv: nat, d1: nat, d0: nat, top: nat, qh: nat)
    requires 0x8000_0000 <= d1 < 0x1_0000_0000 && d0 < 0x1_0000_0000
    requires dv == d1 * 0x1_0000_0000 + d0 && rv < dv * 0x1_0000_0000
    requires top == rv / 0x1_0000_0000 && qh == top / d1
    ensures 0 < dv && rv / dv <= qh <= rv / dv + 2 && rv / dv < 0x1_0000_0000
    ensures dv * qh < B128
  {
    EstimateAtLeast(rv, dv, d1, d0, rv / dv, qh);
    EstimateAtMost(rv, dv, d1, d0, rv / dv, qh);
    EstimateFits(rv, dv, d1, d0, qh);
  }

  /** The digits and the shifted-back remainder answer the unshifted division. */
  lemma DivByResult(lv: nat, rhs: nat, p: nat, nv: nat, dv: nat, sv: nat,
                    q1: nat, r1: nat, q2: nat, r2: nat, quo: nat, rv: nat)
    requires 0 < rhs < B64 && 0 < p && nv == lv * p && dv == rhs * p
    requires sv == dv * 0x1_0000_0000 && q1 == nv / sv && r1 == nv % sv
    requires q2 == r1 / dv && r2 == r1 % dv && quo == q1 * B32 + q2 && rv == r2 / p
    ensures quo == lv / rhs && rv == lv % rhs && rv % B64 == rv
  {
    MulLe(1, 1, rhs, p);
    TwoDigits(nv, dv, 0x1_0000_0000, q1, r1, q2, r2);
    ScaleDiv(lv, rhs, p);
    MulDivExact(lv % rhs, p);
    DivModUnique(rv, B64, 0, rv);
  }

  // ---------------------------------------------------------------------
  // The slow path
  // ---------------------------------------------------------------------

  /**
   * dm_muldiv_divBy, slow binary configuration: double the divisor d and a
   * one-bit mask m until d is no longer below the dividend, step back once if
   * d overshot, then repeatedly subtract d, add m to the quotient, and halve
   * both until d fits under what is left.  The ghost k tracks m = 2^k.
   */
  method DivBySlow(lhs: Wide, rhs: u64) returns (quo: u64, rem: u64)
    requires 0 < rhs && Val(lhs) < rhs * B64
    ensures quo == Val(lhs) / rhs && rem == Val(lhs) % rhs
  {
    var d := LoadFrom(rhs);
    var m := LoadFrom(1);
    var n := lhs;
    var q := LoadFrom(0);
    ghost var k: nat := 0;
    while Less(d, n)
      invariant Val(m) == Pow2(k) && Val(d) == rhs * Pow2(k)
      invariant k == 0 || Val(d) < 2 * Val(n)
      decreases Val(n) - Val(d)
    {
      d, m := Grow(d, m, rhs, k, lhs);
      k := k + 1;
    }
    if Less(n, d) {
      d, m, k := Shrink(d, m, rhs, k);
    }
    while !IsZero(m)
      invariant Val(lhs) == Val(q) * rhs + Val(n)
      invariant Val(m) == 0 ==> Val(n) < rhs
      invariant Val(m) != 0 ==> Val(m) == Pow2(k) && Val(d) == rhs * Val(m) && Val(d) <= Val(n) < 2 * Val(d)
      decreases Val(n)
    {
      n, q := Take(n, q, d, m, rhs, lhs);
      while Less(n, d)
        invariant Val(lhs) == Val(q) * rhs + Val(n)
        invariant Val(m) == 0 ==> Val(n) < rhs
        invariant Val(m) != 0 ==> Val(m) == Pow2(k) && Val(d) == rhs * Val(m) && Val(n) < 2 * Val(d)
        decreases Val(d)
      {
        d, m, k := Shrink(d, m, rhs, k);
      }
    }
    SlowResult(Val(lhs), rhs, Val(q), Val(n));
    quo := Extract(q);
    rem := Extract(n);
  }

  /** One doubling step of the slow path: d and m both double without wrapping. */
  method Grow(d: Wide, m: Wide, rhs: u64, ghost k: nat, ghost lhs: Wide) returns (d2: Wide, m2: Wide)
    requires 0 < rhs && Val(m) == Pow2(k) && Val(d) == rhs * Pow2(k) && Val(d) < Val(lhs) < rhs * B64
    ensures Val(d2) == 2 * Val(d) && Val(m2) == 2 * Val(m)
    ensures Val(m2) == Pow2(k + 1) && Val(d2) == rhs * Pow2(k + 1)
  {
    DoubleStep(rhs, k, Val(d), Val(m), Val(lhs), Val(lhs));
    d2 := Shl1(d);
    m2 := Shl1(m);
    ModSmall(2 * Val(d));
    ModSmall(2 * Val(m));
  }

  /** One halving step of the slow path: d = rhs * m survives until m runs out. */
  method Shrink(d: Wide, m: Wide, rhs: u64, ghost k: nat) returns (d2: Wide, m2: Wide, ghost k2: nat)
    requires Val(m) != 0 ==> Val(m) == Pow2(k) && Val(d) == rhs * Val(m)
    ensures Val(d2) == Val(d) / 2 && Val(m2) == Val(m) / 2
    ensures Val(m2) != 0 ==> Val(m2) == Pow2(k2) && Val(d2) == rhs * Val(m2) && Val(d) == 2 * Val(d2)
    ensures Val(m) != 0 && Val(m2) == 0 ==> Val(d) == rhs
  {
    HalveStep(rhs, k, Val(d), Val(m));
    d2 := Shr1(d);
    m2 := Shr1(m);
    k2 := if 0 < k then k - 1 else 0;
  }

  /** One subtraction of the slow path: n loses d and q gains m, keeping lhs = q * rhs + n. */
  method Take(n: Wide, q: Wide, d: Wide, m: Wide, rhs: u64, ghost lhs: Wide) returns (n2: Wide, q2: Wide)
    requires 0 < rhs && Val(lhs) == Val(q) * rhs + Val(n)
    requires Val(m) != 0 && Val(d) == rhs * Val(m) && Val(d) <= Val(n)
    ensures Val(n2) == Val(n) - Val(d) && Val(q2) == Val(q) + Val(m)
    ensures Val(lhs) == Val(q2) * rhs + Val(n2)
  {
    ValBound(lhs);
    TakeStep(rhs, Val(q), Val(m), Val(d), Val(n), Val(lhs));
    n2 := Minus(n, d);
    q2 := Plus(q, m);
  }

  /** Sub where the difference is known not to wrap. */
  method Minus(a: Wide, b: Wide) returns (r: Wide)
    requires (Val(a) - Val(b)) % B128 == Val(a) - Val(b)
    ensures Val(r) == Val(a) - Val(b)
  {
    r := Sub(a, b);
  }

  /** Add where the sum is known not to wrap. */
  method Plus(a: Wide, b: Wide) returns (r: Wide)
    requires (Val(a) + Val(b)) % B128 == Val(a) + Val(b)
    ensures Val(r) == Val(a) + Val(b)
  {
    r := Add(a, b);
  }

  /** Doubling the divisor while it is below the dividend stays within 2^64 * rhs. */
  lemma DoubleStep(rhs: nat, k: nat, dv: nat, mv: nat, nv: nat, lv: nat)
    requires 0 < rhs < B64 && mv == Pow2(k) && dv == rhs * mv && dv < nv && nv <= lv < rhs * B64
    ensures 2 * dv < B128 && 2 * mv < B128
    ensures Pow2(k + 1) == 2 * mv && 2 * dv == rhs * Pow2(k + 1)
  {
    Pow2Words();
    CancelBelow(mv, B64, rhs);
    if 64 <= k {
      Pow2Le(64, k);
    }
    Pow2Le(k, 63);
    DoubleBelow(rhs, mv, dv);
    assert Pow2(k + 1) == 2 * mv;
    MulTwice(rhs, mv);
  }

  lemma MulTwice(a: int, b: int)
    ensures a * (2 * b) == 2 * (a * b)
  {
  }

  lemma DoubleBelow(rhs: nat, mv: nat, dv: nat)
    requires rhs < 0x1_0000_0000_0000_0000 && 2 * mv <= 0x1_0000_0000_0000_0000 && dv == rhs * mv
    ensures 2 * dv < B128
  {
    MulLe(rhs, 2 * mv, 0xFFFF_FFFF_FFFF_FFFF, 0x1_0000_0000_0000_0000);
  }

  /** Halving the divisor and the mask together keeps d = rhs * m, until m runs out. */
  lemma HalveStep(rhs: nat, k: nat, dv: nat, mv: nat)
    requires mv != 0 ==> mv == Pow2(k) && dv == rhs * mv
    ensures mv != 0 && 0 < k ==> mv / 2 == Pow2(k - 1) && dv / 2 == rhs * (mv / 2) && dv == 2 * (dv / 2)
    ensures mv != 0 && k == 0 ==> mv / 2 == 0 && dv == rhs
    ensures mv == 0 ==> mv / 2 == 0
  {
    if mv != 0 && 0 < k {
      var h := Pow2(k - 1);
      assert mv == 2 * h;
      assert dv == 2 * (rhs * h);
    }
  }

  /** One subtraction of the slow path neither wraps nor breaks the division equation. */
  lemma TakeStep(rhs: nat, qv: nat, mv: nat, dv: nat, nv: nat, lv: nat)
    requires 0 < rhs && lv == qv * rhs + nv && mv != 0 && dv == rhs * mv && dv <= nv
    requires lv < B128
    ensures (nv - dv) % B128 == nv - dv && (qv + mv) % B128 == qv + mv
    ensures lv == (qv + mv) * rhs + (nv - dv) && nv - dv < nv
  {
    MulLe(1, 1, rhs, mv);
    MulLe(qv + mv, 1, qv + mv, rhs);
    ModSmall(nv - dv);
    ModSmall(qv + mv);
  }

  /** When the mask runs out, the quotient and what is left are the division's answer. */
  lemma SlowResult(lv: nat, rhs: nat, qv: nat, nv: nat)
    requires 0 < rhs < B64 && lv < rhs * B64 && lv == qv * rhs + nv && nv < rhs
    ensures qv == lv / rhs && nv == lv % rhs && qv % B64 == qv && nv % B64 == nv
  {
    DivModUnique(lv, rhs, qv, nv);
    MulDivBound(lv, rhs, B64);
    DivModUnique(qv, B64, 0, qv);
    DivModUnique(nv, B64, 0, nv);
  }
}
