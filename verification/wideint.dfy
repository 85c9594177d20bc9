/**
 * The exact wide-integer engine of dm_muldiv.c, in the configuration without
 * a native 128-bit type: a 128-bit unsigned value held as four 32-bit limbs,
 * least significant first, with straight-line carry code over 64-bit
 * temporaries.  Each operation is related to the number the limbs stand for
 * (`Val`); the native `__uint128_t` operations are the specification.
 *
 * The subset types `u32` and `u64` make every temporary's range a proof
 * obligation, so each function body also proves that no 64-bit temporary
 * overflows.  Assignment of a 64-bit temporary to a limb truncates, written
 * `% B32`; `x >> k` is `x / Pow2(k)`; `x & 0xFFFFFFFF` is `x % B32`.
 */
module WideInt {
  import opened Pow
  import opened Bits

  const B96: int := 0x1_0000_0000_0000_0000_0000_0000

  /** dm_muldiv_t: limb l0 is the least significant. */
  datatype Wide = Wide(l0: u32, l1: u32, l2: u32, l3: u32)

  /** The number the limbs stand for. */
  function Val(w: Wide): nat
  {
    w.l0 + B32 * w.l1 + B64 * w.l2 + B96 * w.l3
  }

  /** Limbs of a number below 2^128. */
  function FromNat(x: nat): (w: Wide)
    requires x < B128
    ensures Val(w) == x
  {
    var q1 := x / B32;
    var q2 := q1 / B32;
    var q3 := q2 / B32;
    Wide(x % B32, q1 % B32, q2 % B32, q3)
  }

  lemma ValBound(w: Wide)
    ensures Val(w) < B128
  {
  }

  /** Val is one-to-one: the limbs are the base-2^32 digits of the value. */
  lemma ValInjective(a: Wide, b: Wide)
    requires Val(a) == Val(b)
    ensures a == b
  {
    Digits(a);
    Digits(b);
  }

  lemma Digits(w: Wide)
    ensures Val(w) % B32 == w.l0
    ensures (Val(w) / B32) % B32 == w.l1
    ensures (Val(w) / B32 / B32) % B32 == w.l2
    ensures Val(w) / B32 / B32 / B32 == w.l3
  {
    var q1 := w.l1 + B32 * w.l2 + B64 * w.l3;
    DivModUnique(Val(w), B32, q1, w.l0);
    var q2 := w.l2 + B32 * w.l3;
    DivModUnique(q1, B32, q2, w.l1);
    DivModUnique(q2, B32, w.l3, w.l2);
  }

  // ---------------------------------------------------------------------
  // Load and extract (dm_muldiv_loadFrom, dm_muldiv_extract)
  // ---------------------------------------------------------------------

  /** dm_muldiv_loadFrom: the high two limbs cleared, the word split in two. */
  function LoadFrom(source: u64): (w: Wide)
    ensures Val(w) == source
    ensures w.l2 == 0 && w.l3 == 0
  {
    Wide(source % B32, (source / B32) % B32, 0, 0)
  }

  /** `((uint64_t)hi << 32) | lo`: two limbs joined into one 64-bit word. */
  function Join(hi: u32, lo: u32): (r: u64)
    ensures r == hi * B32 + lo
  {
    Pow2Words();
    OrDisjoint(lo, (hi * B32) % B64, 32);
    Or((hi * B32) % B64, lo)
  }

  /** dm_muldiv_extract: the low 64 bits. */
  function Extract(source: Wide): (r: u64)
    ensures r == Val(source) % B64
  {
    Join(source.l1, source.l0)
  }

  lemma LoadExtract(x: u64)
    ensures Extract(LoadFrom(x)) == x
  {
  }

  lemma ExtractLoad(w: Wide)
    requires w.l2 == 0 && w.l3 == 0
    ensures LoadFrom(Extract(w)) == w
  {
    ValInjective(LoadFrom(Extract(w)), w);
  }

  // ---------------------------------------------------------------------
  // Add and subtract (dm_muldiv_add, dm_muldiv_sub)
  // ---------------------------------------------------------------------

  /** dm_muldiv_add: carry propagates through a 64-bit temporary. */
  function Add(lhs: Wide, rhs: Wide): (dest: Wide)
    ensures Val(dest) == (Val(lhs) + Val(rhs)) % B128
  {
    var t0: u64 := lhs.l0 + rhs.l0;
    var t1: u64 := t0 / B32 + lhs.l1 + rhs.l1;
    var t2: u64 := t1 / B32 + lhs.l2 + rhs.l2;
    var t3: u64 := t2 / B32 + lhs.l3 + rhs.l3;
    var dest := Wide(t0 % B32, t1 % B32, t2 % B32, t3 % B32);
    ModUnique(Val(lhs) + Val(rhs), B128, t3 / B32, Val(dest));
    dest
  }

  /** A value computed in uint64_t arithmetic: reduced modulo 2^64. */
  function Wrap64(x: int): (r: u64)
    ensures 0 <= x < B64 ==> r == x
    ensures -B64 <= x < 0 ==> r == x + B64
  {
    x % B64
  }

  /**
   * A limb difference d computed in 64 bits: its low 32 bits are d + 2^32 * borrow,
   * where the borrow `(temp >> 32) & 1` is set exactly when d is negative.
   */
  lemma BorrowStep(d: int)
    requires -B32 <= d < B32
    ensures Wrap64(d) % B32 == d + B32 * ((Wrap64(d) / B32) % 2)
    ensures (Wrap64(d) / B32) % 2 == 1 <==> d < 0
  {
    if d < 0 {
      DivModUnique(d + B64, B32, B32 - 1, d + B32);
    }
  }

  /** dm_muldiv_sub: borrow taken from bit 32 of the wrapped 64-bit difference. */
  function Sub(lhs: Wide, rhs: Wide): (dest: Wide)
    ensures Val(dest) == (Val(lhs) - Val(rhs)) % B128
  {
    var t0 := Wrap64(lhs.l0 - rhs.l0);
    var b1 := (t0 / B32) % 2;
    var t1 := Wrap64(lhs.l1 - rhs.l1 - b1);
    var b2 := (t1 / B32) % 2;
    var t2 := Wrap64(lhs.l2 - rhs.l2 - b2);
    var b3 := (t2 / B32) % 2;
    var t3 := Wrap64(lhs.l3 - rhs.l3 - b3);
    SubVal(lhs, rhs, t0, t1, t2, t3);
    Wide(t0 % B32, t1 % B32, t2 % B32, t3 % B32)
  }

  /** The limbs of Sub make up the difference modulo 2^128. */
  lemma SubVal(lhs: Wide, rhs: Wide, t0: u64, t1: u64, t2: u64, t3: u64)
    requires t0 == Wrap64(lhs.l0 - rhs.l0)
    requires t1 == Wrap64(lhs.l1 - rhs.l1 - (t0 / B32) % 2)
    requires t2 == Wrap64(lhs.l2 - rhs.l2 - (t1 / B32) % 2)
    requires t3 == Wrap64(lhs.l3 - rhs.l3 - (t2 / B32) % 2)
    ensures Val(Wide(t0 % B32, t1 % B32, t2 % B32, t3 % B32)) == (Val(lhs) - Val(rhs)) % B128
  {
    SubDigits(lhs.l0, lhs.l1, lhs.l2, lhs.l3, rhs.l0, rhs.l1, rhs.l2, rhs.l3, t0, t1, t2, t3);
    var dest := Wide(t0 % B32, t1 % B32, t2 % B32, t3 % B32);
    ModUnique(Val(lhs) - Val(rhs), B128, -((t3 / B32) % 2), Val(dest));
  }

  lemma SubDigits(x0: u32, x1: u32, x2: u32, x3: u32, y0: u32, y1: u32, y2: u32, y3: u32,
                  t0: u64, t1: u64, t2: u64, t3: u64)
    requires t0 == Wrap64(x0 - y0)
    requires t1 == Wrap64(x1 - y1 - (t0 / B32) % 2)
    requires t2 == Wrap64(x2 - y2 - (t1 / B32) % 2)
    requires t3 == Wrap64(x3 - y3 - (t2 / B32) % 2)
    ensures t0 % B32 + B32 * (t1 % B32) + B64 * (t2 % B32) + B96 * (t3 % B32)
         == (x0 + B32 * x1 + B64 * x2 + B96 * x3) - (y0 + B32 * y1 + B64 * y2 + B96 * y3)
          + B128 * ((t3 / B32) % 2)
  {
    var b1, b2, b3, b4 := (t0 / B32) % 2, (t1 / B32) % 2, (t2 / B32) % 2, (t3 / B32) % 2;
    BorrowStep(x0 - y0);
    BorrowStep(x1 - y1 - b1);
    BorrowStep(x2 - y2 - b2);
    BorrowStep(x3 - y3 - b3);
    SubSum(x0, x1, x2, x3, y0, y1, y2, y3, t0 % B32, t1 % B32, t2 % B32, t3 % B32, b1, b2, b3, b4);
  }

  /** The linear bookkeeping of the borrow chain. */
  lemma SubSum(x0: int, x1: int, x2: int, x3: int, y0: int, y1: int, y2: int, y3: int,
               d0: int, d1: int, d2: int, d3: int, b1: int, b2: int, b3: int, b4: int)
    requires d0 == x0 - y0 + B32 * b1
    requires d1 == x1 - y1 - b1 + B32 * b2
    requires d2 == x2 - y2 - b2 + B32 * b3
    requires d3 == x3 - y3 - b3 + B32 * b4
    ensures d0 + B32 * d1 + B64 * d2 + B96 * d3
         == (x0 + B32 * x1 + B64 * x2 + B96 * x3) - (y0 + B32 * y1 + B64 * y2 + B96 * y3) + B128 * b4
  {
    assert B32 == 0x1_0000_0000 && B64 == 0x1_0000_0000_0000_0000;
    assert B96 == 0x1_0000_0000_0000_0000_0000_0000;
    assert B128 == 0x1_0000_0000_0000_0000_0000_0000_0000_0000;
    assert d0 + 0x1_0000_0000 * d1 + 0x1_0000_0000_0000_0000 * d2 + 0x1_0000_0000_0000_0000_0000_0000 * d3
        == (x0 + 0x1_0000_0000 * x1 + 0x1_0000_0000_0000_0000 * x2 + 0x1_0000_0000_0000_0000_0000_0000 * x3)
         - (y0 + 0x1_0000_0000 * y1 + 0x1_0000_0000_0000_0000 * y2 + 0x1_0000_0000_0000_0000_0000_0000 * y3)
         + 0x1_0000_0000_0000_0000_0000_0000_0000_0000 * b4;
  }

  /** Subtraction undoes addition modulo 2^128. */
  lemma SubAfterAdd(a: Wide, b: Wide)
    ensures Sub(Add(a, b), b) == a
  {
    var s := Add(a, b);
    var r := Sub(s, b);
    ModSubAdd(Val(a), Val(b), Val(s), Val(r));
    ValInjective(r, a);
  }

  /** Addition undoes subtraction modulo 2^128. */
  lemma AddAfterSub(a: Wide, b: Wide)
    ensures Add(Sub(a, b), b) == a
  {
    var d := Sub(a, b);
    var r := Add(d, b);
    ModAddSub(Val(a), Val(b), Val(d), Val(r));
    ValInjective(r, a);
  }

  lemma ModSubAdd(va: int, vb: int, s: int, r: int)
    requires 0 <= va < B128 && 0 <= vb < B128
    requires s == (va + vb) % B128 && r == (s - vb) % B128
    ensures r == va
  {
    ModWrap(va + vb, B128);
    ModWrap(s - vb, B128);
  }

  lemma ModAddSub(va: int, vb: int, d: int, r: int)
    requires 0 <= va < B128 && 0 <= vb < B128
    requires d == (va - vb) % B128 && r == (d + vb) % B128
    ensures r == va
  {
    ModWrap(va - vb, B128);
    ModWrap(d + vb, B128);
  }

  // ---------------------------------------------------------------------
  // Multiply by a 64-bit word (dm_muldiv_mulBy)
  // ---------------------------------------------------------------------

  /**
   * The source's no-overflow argument: a product of two 32-bit limbs leaves room
   * in 64 bits for two more 32-bit addends, (B-1) + (B-1) + (B-1)^2 = B^2 - 1.
   */
  lemma LimbProduct(a: u32, b: u32)
    ensures a * b <= (B32 - 1) * (B32 - 1)
    ensures (B32 - 1) + (B32 - 1) + (B32 - 1) * (B32 - 1) == B64 - 1
  {
    MulLe(a, b, B32 - 1, B32 - 1);
  }

  /**
   * dm_muldiv_mulBy: the product modulo 2^128.  The multiplier is split into
   * 32-bit halves; temp1 carries the low-half products and temp2 the high-half
   * ones, and the last high-half product falls off the top.
   */
  function MulBy(dest: Wide, rhs: u64): (r: Wide)
    ensures Val(r) == (Val(dest) * rhs) % B128
  {
    var low: u32 := rhs % B32;
    var high: u32 := rhs / B32;
    LimbProduct(low, dest.l0);
    LimbProduct(high, dest.l0);
    LimbProduct(low, dest.l1);
    LimbProduct(high, dest.l1);
    LimbProduct(low, dest.l2);
    LimbProduct(high, dest.l2);
    LimbProduct(low, dest.l3);
    var t1a: u64 := low * dest.l0;
    var t2a: u64 := high * dest.l0;
    var t1b: u64 := t1a / B32 + t2a % B32 + low * dest.l1;
    var t2b: u64 := t2a / B32 + high * dest.l1;
    var t1c: u64 := t1b / B32 + t2b % B32 + low * dest.l2;
    var t2c: u64 := t2b / B32 + high * dest.l2;
    var t1d: u64 := t1c / B32 + t2c % B32 + low * dest.l3;
    MulByAlgebra(dest, rhs, low, high, t1a, t2a, t1b, t2b, t1c, t2c, t1d);
    Wide(t1a % B32, t1b % B32, t1c % B32, t1d % B32)
  }

  lemma MulDistrib(a0: int, a1: int, a2: int, a3: int, low: int, high: int)
    ensures (a0 + B32 * a1 + B64 * a2 + B96 * a3) * (low + B32 * high)
         == low * a0 + B32 * (low * a1) + B64 * (low * a2) + B96 * (low * a3)
          + B32 * (high * a0) + B64 * (high * a1) + B96 * (high * a2) + B128 * (high * a3)
  {
  }

  /** The carry chain of MulBy sums to the product less a multiple of 2^128. */
  lemma MulByAlgebra(a: Wide, rhs: nat, low: nat, high: nat,
                     t1a: nat, t2a: nat, t1b: nat, t2b: nat, t1c: nat, t2c: nat, t1d: nat)
    requires rhs == low + B32 * high
    requires t1a == low * a.l0 && t2a == high * a.l0
    requires t1b == t1a / B32 + t2a % B32 + low * a.l1
    requires t2b == t2a / B32 + high * a.l1
    requires t1c == t1b / B32 + t2b % B32 + low * a.l2
    requires t2c == t2b / B32 + high * a.l2
    requires t1d == t1c / B32 + t2c % B32 + low * a.l3
    ensures Val(Wide(t1a % B32, t1b % B32, t1c % B32, t1d % B32)) == (Val(a) * rhs) % B128
  {
    var r := Wide(t1a % B32, t1b % B32, t1c % B32, t1d % B32);
    MulDistrib(a.l0, a.l1, a.l2, a.l3, low, high);
    var k := t1d / B32 + t2c / B32 + high * a.l3;
    assert Val(r) == Val(a) * rhs - k * B128;
    ValBound(r);
    ModUnique(Val(a) * rhs, B128, k, Val(r));
  }

  // ---------------------------------------------------------------------
  // Shifts (dm_muldiv_shl, dm_muldiv_shr, dm_muldiv_shl1, dm_muldiv_shr1)
  // ---------------------------------------------------------------------

  /** A shift count of at most 32 bits: 2^c and 2^(32-c) multiply to 2^32. */
  lemma ShiftFactor(c: nat)
    requires c <= 32
    ensures Pow2(c) * Pow2(32 - c) == B32
    ensures Pow2(c) <= B32
  {
    Pow2Add(c, 32 - c);
    Pow2Words();
    MulLe(Pow2(c), 1, Pow2(c), Pow2(32 - c));
  }

  /**
   * One limb of a left shift by c <= 32 bits: `carry | ((uint64_t)x << c)`,
   * where the carry is the part of the previous limb shifted out, below 2^c.
   */
  lemma ShlStep(carry: nat, x: u32, c: nat)
    requires c <= 32 && carry < Pow2(c)
    ensures (x * Pow2(c)) % B64 == x * Pow2(c)
    ensures Or(carry, (x * Pow2(c)) % B64) == carry + x * Pow2(c)
    ensures (carry + x * Pow2(c)) / B32 < Pow2(c)
  {
    var p := Pow2(c);
    var xp := x * p;
    ShiftFactor(c);
    assert 0 <= xp <= 0xFFFF_FFFF * p by {
      MulLe(0, 0, x, p);
      MulLe(x, p, 0xFFFF_FFFF, p);
    }
    assert xp % B64 == xp by {
      DivModUnique(xp, B64, 0, xp);
    }
    assert Or(carry, xp) == carry + xp by {
      MulDivExact(x, p);
      OrDisjoint(carry, xp, c);
    }
    DivBelow(carry + xp, p);
  }

  lemma DivBelow(v: nat, p: nat)
    requires v < 0x1_0000_0000 * p
    ensures v / B32 < p
  {
    assert (v / 0x1_0000_0000) * 0x1_0000_0000 <= v;
  }

  /** The four shifted limbs of Shl make up the shifted value modulo 2^128. */
  lemma ShlAlgebra(a: Wide, p: nat, t0: nat, t1: nat, t2: nat, t3: nat)
    requires t0 == a.l0 * p
    requires t1 == t0 / B32 + a.l1 * p
    requires t2 == t1 / B32 + a.l2 * p
    requires t3 == t2 / B32 + a.l3 * p
    ensures Val(Wide(t0 % B32, t1 % B32, t2 % B32, t3 % B32)) == (Val(a) * p) % B128
  {
    var r := Wide(t0 % B32, t1 % B32, t2 % B32, t3 % B32);
    ShlDigits(a.l0, a.l1, a.l2, a.l3, p, t0, t1, t2, t3);
    ModUnique(Val(a) * p, B128, t3 / B32, Val(r));
  }

  lemma ShlDigits(a0: nat, a1: nat, a2: nat, a3: nat, p: nat, t0: nat, t1: nat, t2: nat, t3: nat)
    requires t0 == a0 * p
    requires t1 == t0 / B32 + a1 * p
    requires t2 == t1 / B32 + a2 * p
    requires t3 == t2 / B32 + a3 * p
    ensures t0 % B32 + B32 * (t1 % B32) + B64 * (t2 % B32) + B96 * (t3 % B32)
         == (a0 + B32 * a1 + B64 * a2 + B96 * a3) * p - (t3 / B32) * B128
  {
    DivModParts(t0, B32, t0 / B32, t0 % B32);
    DivModParts(t1, B32, t1 / B32, t1 % B32);
    DivModParts(t2, B32, t2 / B32, t2 % B32);
    DivModParts(t3, B32, t3 / B32, t3 % B32);
    MulDistrib(a0, a1, a2, a3, p, 0);
    ShlSum(t0 % B32, t1 % B32, t2 % B32, t3 % B32, t0 / B32, t1 / B32, t2 / B32, t3 / B32,
           p * a0, p * a1, p * a2, p * a3);
  }

  /** The linear bookkeeping of the carry chain of a left shift. */
  lemma ShlSum(m0: int, m1: int, m2: int, m3: int, c1: int, c2: int, c3: int, c4: int,
               q0: int, q1: int, q2: int, q3: int)
    requires q0 == c1 * B32 + m0
    requires c1 + q1 == c2 * B32 + m1
    requires c2 + q2 == c3 * B32 + m2
    requires c3 + q3 == c4 * B32 + m3
    ensures m0 + B32 * m1 + B64 * m2 + B96 * m3
         == q0 + B32 * q1 + B64 * q2 + B96 * q3 - c4 * B128
  {
    assert B32 == 0x1_0000_0000 && B64 == 0x1_0000_0000_0000_0000;
    assert B96 == 0x1_0000_0000_0000_0000_0000_0000;
    assert B128 == 0x1_0000_0000_0000_0000_0000_0000_0000_0000;
  }

  /** Shifting by more than 32 first moves every limb up one place. */
  lemma ShlMoved(arg: Wide, c: nat, r: nat)
    requires r == (Val(Wide(0, arg.l0, arg.l1, arg.l2)) * Pow2(c)) % B128
    ensures r == (Val(arg) * Pow2(32 + c)) % B128
  {
    var va: int, v: int := Val(Wide(0, arg.l0, arg.l1, arg.l2)), Val(arg);
    var p := Pow2(c);
    assert va == v * B32 - arg.l3 * B128;
    assert va * p == v * Pow2(32 + c) - (arg.l3 * p) * B128 by {
      Pow2Add(32, c);
      Pow2Words();
      MoveDistrib(v, arg.l3, p);
    }
    ModAddMultiple(v * Pow2(32 + c), B128, -(arg.l3 * p));
  }

  lemma MoveDistrib(v: int, h: int, p: int)
    ensures (v * B32 - h * B128) * p == v * (B32 * p) - (h * p) * B128
  {
  }

  /**
   * dm_muldiv_shl for 0 <= count <= 63: a shift by more than 32 bits first
   * moves the limbs up one place, then each limb is shifted in a 64-bit
   * temporary that carries its high part into the next limb.
   */
  function Shl(arg: Wide, count: int): (r: Wide)
    requires 0 <= count <= 63
    ensures Val(r) == (Val(arg) * Pow2(count)) % B128
  {
    var a := if 32 < count then Wide(0, arg.l0, arg.l1, arg.l2) else arg;
    var c: nat := if 32 < count then count - 32 else count;
    var p := Pow2(c);
    ShlStep(0, a.l0, c);
    var t0 := (a.l0 * p) % B64;
    ShlStep(t0 / B32, a.l1, c);
    var t1 := Or(t0 / B32, (a.l1 * p) % B64);
    ShlStep(t1 / B32, a.l2, c);
    var t2 := Or(t1 / B32, (a.l2 * p) % B64);
    ShlStep(t2 / B32, a.l3, c);
    var t3 := Or(t2 / B32, (a.l3 * p) % B64);
    ShlAlgebra(a, p, t0, t1, t2, t3);
    var r := Wide(t0 % B32, t1 % B32, t2 % B32, t3 % B32);
    if 32 < count then ShlMoved(arg, c, Val(r)); r else r
  }

  /** (hi:lo) / 2^c is hi * 2^(32-c) + lo / 2^c. */
  lemma ShrQuotient(hi: u32, lo: u32, p: nat, s: nat)
    requires 0 < p && p * s == B32
    ensures (hi * B32 + lo) / p == hi * s + lo / p
  {
    assert hi * B32 == (hi * s) * p by {
      assert hi * (p * s) == (hi * s) * p;
    }
    DivModUnique(hi * B32 + lo, p, hi * s + lo / p, lo % p);
  }

  /** hi * 2^(32-c) + lo / 2^c, reduced to 32 bits, keeps the low c bits of hi. */
  lemma ShrSplit(hi: u32, lo: u32, p: nat, s: nat)
    requires 0 < p && p * s == B32
    ensures (hi * s + lo / p) % B32 == (hi % p) * s + lo / p
  {
    var q, m := hi / p, hi % p;
    SplitTimes(hi, p, s, q, m);
    ShiftedBelow(lo, p, s);
    MulLe(m, s, p - 1, s);
    DivModUnique(hi * s + lo / p, B32, q, m * s + lo / p);
  }

  /** hi = q * p + m, so hi * s = q * 2^32 + m * s when p * s = 2^32. */
  lemma SplitTimes(hi: nat, p: nat, s: nat, q: nat, m: nat)
    requires 0 < p && p * s == B32 && q == hi / p && m == hi % p
    ensures hi * s == q * B32 + m * s
  {
    assert hi == q * p + m;
    assert (q * p + m) * s == q * (p * s) + m * s;
  }

  /** A 32-bit limb shifted right by c bits fits in 32 - c bits. */
  lemma ShiftedBelow(lo: u32, p: nat, s: nat)
    requires 0 < p && p * s == B32
    ensures lo / p < s
  {
    if lo / p >= s {
      MulLe(s, p, lo / p, p);
    }
  }

  lemma LimbTimes(r: int, m: int, s: int, q: int, p: int)
    requires s * p == B32 && r == m * s + q
    ensures r * p == m * B32 + q * p
  {
    assert (m * s) * p == m * (s * p);
  }

  /** The four limbs produced by Shr make up the value divided by 2^c. */
  lemma ShrAlgebra(a: Wide, p: nat, s: nat, r: Wide)
    requires 0 < p && p * s == B32
    requires r.l0 == (a.l1 % p) * s + a.l0 / p
    requires r.l1 == (a.l2 % p) * s + a.l1 / p
    requires r.l2 == (a.l3 % p) * s + a.l2 / p
    requires r.l3 == a.l3 / p
    ensures Val(r) == Val(a) / p
  {
    ShrDigits(a.l0, a.l1, a.l2, a.l3, p, s, r.l0, r.l1, r.l2, r.l3);
  }

  lemma ShrDigits(a0: nat, a1: nat, a2: nat, a3: nat, p: nat, s: nat,
                  r0: nat, r1: nat, r2: nat, r3: nat)
    requires 0 < p && p * s == B32
    requires r0 == (a1 % p) * s + a0 / p
    requires r1 == (a2 % p) * s + a1 / p
    requires r2 == (a3 % p) * s + a2 / p
    requires r3 == a3 / p
    ensures r0 + B32 * r1 + B64 * r2 + B96 * r3 == (a0 + B32 * a1 + B64 * a2 + B96 * a3) / p
  {
    var vr := r0 + B32 * r1 + B64 * r2 + B96 * r3;
    var va := a0 + B32 * a1 + B64 * a2 + B96 * a3;
    var q0, q1, q2, q3 := a0 / p, a1 / p, a2 / p, a3 / p;
    var m0, m1, m2, m3 := a0 % p, a1 % p, a2 % p, a3 % p;
    DivModParts(a0, p, q0, m0);
    DivModParts(a1, p, q1, m1);
    DivModParts(a2, p, q2, m2);
    DivModParts(a3, p, q3, m3);
    assert r0 * p == m1 * B32 + q0 * p by {
      LimbTimes(r0, m1, s, q0, p);
    }
    assert r1 * p == m2 * B32 + q1 * p by {
      LimbTimes(r1, m2, s, q1, p);
    }
    assert r2 * p == m3 * B32 + q2 * p by {
      LimbTimes(r2, m3, s, q2, p);
    }
    assert vr * p == r0 * p + B32 * (r1 * p) + B64 * (r2 * p) + B96 * (r3 * p) by {
      MulDistrib(r0, r1, r2, r3, p, 0);
    }
    ShrSum(va, vr * p, r0 * p, r1 * p, r2 * p, q3 * p,
           a0, a1, a2, a3, q0 * p, q1 * p, q2 * p, q3 * p, m0, m1, m2, m3);
    DivModUnique(va, p, vr, m0);
  }

  /** The linear bookkeeping of ShrDigits, each product named by a variable. */
  lemma ShrSum(va: int, vrp: int, r0p: int, r1p: int, r2p: int, r3p: int,
               a0: int, a1: int, a2: int, a3: int, q0p: int, q1p: int, q2p: int, q3p: int,
               m0: int, m1: int, m2: int, m3: int)
    requires va == a0 + B32 * a1 + B64 * a2 + B96 * a3
    requires vrp == r0p + B32 * r1p + B64 * r2p + B96 * r3p
    requires r0p == m1 * B32 + q0p && r1p == m2 * B32 + q1p
    requires r2p == m3 * B32 + q2p && r3p == q3p
    requires a0 == q0p + m0 && a1 == q1p + m1 && a2 == q2p + m2 && a3 == q3p + m3
    ensures vrp + m0 == va
  {
  }

  /** Shifting right by more than 32 first moves every limb down one place. */
  lemma ShrMoved(arg: Wide, c: nat)
    ensures Val(Wide(arg.l1, arg.l2, arg.l3, 0)) / Pow2(c) == Val(arg) / Pow2(32 + c)
  {
    DivModUnique(Val(arg), B32, Val(Wide(arg.l1, arg.l2, arg.l3, 0)), arg.l0);
    DivDiv(Val(arg), B32, Pow2(c));
    Pow2Add(32, c);
    Pow2Words();
  }

  /** `(temp << 32) | limb` on a 64-bit temporary: its low half moves up, the limb comes in below. */
  function ShiftIn(t: u64, lo: u32): (r: u64)
    ensures r == (t % B32) * B32 + lo
  {
    TempShift(t, lo);
    Or((t * B32) % B64, lo)
  }

  /** Shifting a 64-bit temporary up 32 bits and ORing in a limb keeps its low limb above the new one. */
  lemma TempShift(t: nat, lo: u32)
    requires t < B64
    ensures Or((t * B32) % B64, lo) == (t % B32) * B32 + lo
  {
    var q, m := t / B32, t % B32;
    assert t * B32 == q * B64 + m * B32;
    assert m * B32 < B64 by {
      MulLt(m, B32, B32, B32 + 1);
    }
    DivModUnique(t * B32, B64, q, m * B32);
    assert Pow2(32) == B32 by {
      Pow2Words();
    }
    MulDivExact(m, B32);
    OrDisjoint(lo, m * B32, 32);
  }

  /**
   * `(uint32_t)(temp >> c)` for c <= 32: the low c bits of the temporary's
   * high half land on top of the high 32 - c bits of its low half.
   */
  function ShrWord(t: u64, c: nat): u32
    requires c <= 32
  {
    (t / Pow2(c)) % B32
  }

  /** One result limb of a right shift by c <= 32, in terms of the two limbs it draws on. */
  lemma ShrOneLimb(hi: u32, lo: u32, c: nat, p: nat, s: nat)
    requires c <= 32 && p == Pow2(c) && s == Pow2(32 - c)
    ensures ((hi * B32 + lo) / p) % B32 == (hi % p) * s + lo / p
  {
    ShiftFactor(c);
    ShrQuotient(hi, lo, p, s);
    ShrSplit(hi, lo, p, s);
  }

  /**
   * The shifting part of dm_muldiv_shr for a count c <= 32: a 64-bit
   * temporary starts as the top limb and takes in each lower limb in turn,
   * and each result limb is the temporary shifted right by c.
   */
  function ShrLimbs(a: Wide, c: nat): Wide
    requires c <= 32
  {
    var t3: u64 := a.l3;
    var t2 := ShiftIn(t3, a.l2);
    var t1 := ShiftIn(t2, a.l1);
    var t0 := ShiftIn(t1, a.l0);
    Wide(ShrWord(t0, c), ShrWord(t1, c), ShrWord(t2, c), ShrWord(t3, c))
  }

  /** The halves of two limbs joined into a 64-bit word. */
  lemma Halves(hi: u32, lo: u32)
    ensures (hi * B32 + lo) / B32 == hi && (hi * B32 + lo) % B32 == lo
  {
    DivModUnique(hi * B32 + lo, B32, hi, lo);
  }

  /** The temporaries of ShrLimbs: each holds two adjacent limbs. */
  lemma ShrTemps(l3: u32, l2: u32, l1: u32, l0: u32)
    ensures ShiftIn(l3, l2) == l3 * B32 + l2
    ensures ShiftIn(ShiftIn(l3, l2), l1) == l2 * B32 + l1
    ensures ShiftIn(ShiftIn(ShiftIn(l3, l2), l1), l0) == l1 * B32 + l0
  {
    DivModUnique(l3, B32, 0, l3);
    Halves(l3, l2);
    Halves(l2, l1);
  }

  /** A result limb of ShrLimbs from the two limbs in its temporary. */
  lemma ShrWordOf(t: u64, hi: u32, lo: u32, c: nat, p: nat, s: nat)
    requires t == hi * B32 + lo
    requires c <= 32 && p == Pow2(c) && s == Pow2(32 - c)
    ensures ShrWord(t, c) == (hi % p) * s + lo / p
  {
    ShrOneLimb(hi, lo, c, p, s);
  }

  /** The top limb of ShrLimbs: a temporary holding one limb. */
  lemma ShrWordTop(h: u32, c: nat, p: nat, s: nat)
    requires c <= 32 && p == Pow2(c) && s == Pow2(32 - c)
    ensures ShrWord(h, c) == h / p
  {
    ShrWordOf(h, 0, h, c, p, s);
    DivModUnique(0, p, 0, 0);
    assert (0 % p) * s == 0;
  }

  /** The two lower result limbs of ShrLimbs. */
  lemma ShrWordsLow(l3: u32, l2: u32, l1: u32, l0: u32, c: nat, p: nat, s: nat)
    requires c <= 32 && p == Pow2(c) && s == Pow2(32 - c)
    ensures ShrWord(ShiftIn(ShiftIn(ShiftIn(l3, l2), l1), l0), c) == (l1 % p) * s + l0 / p
    ensures ShrWord(ShiftIn(ShiftIn(l3, l2), l1), c) == (l2 % p) * s + l1 / p
  {
    ShrTemps(l3, l2, l1, l0);
    var t1 := ShiftIn(ShiftIn(l3, l2), l1);
    ShrWordOf(ShiftIn(t1, l0), l1, l0, c, p, s);
    ShrWordOf(t1, l2, l1, c, p, s);
  }

  /** The two upper result limbs of ShrLimbs. */
  lemma ShrWordsHigh(l3: u32, l2: u32, c: nat, p: nat, s: nat)
    requires c <= 32 && p == Pow2(c) && s == Pow2(32 - c)
    ensures ShrWord(ShiftIn(l3, l2), c) == (l3 % p) * s + l2 / p
    ensures ShrWord(l3, c) == l3 / p
  {
    ShrTemps(l3, l2, 0, 0);
    ShrWordOf(ShiftIn(l3, l2), l3, l2, c, p, s);
    ShrWordTop(l3, c, p, s);
  }

  /** ShrLimbs divides the value by 2^c. */
  lemma ShrLimbsVal(a: Wide, c: nat)
    requires c <= 32
    ensures Val(ShrLimbs(a, c)) == Val(a) / Pow2(c)
  {
    ShrLimbsUnfold(a, c);
    ShrLimbsDigits(a.l3, a.l2, a.l1, a.l0, c);
  }

  /** The value of the shifted limbs, limb by limb. */
  lemma ShrLimbsUnfold(a: Wide, c: nat)
    requires c <= 32
    ensures var t2 := ShiftIn(a.l3, a.l2);
            var t1 := ShiftIn(t2, a.l1);
            var t0 := ShiftIn(t1, a.l0);
            Val(ShrLimbs(a, c)) == ShrWord(t0, c) + B32 * ShrWord(t1, c) + B64 * ShrWord(t2, c) + B96 * ShrWord(a.l3, c)
  {
    var t2 := ShiftIn(a.l3, a.l2);
    var t1 := ShiftIn(t2, a.l1);
    var t0 := ShiftIn(t1, a.l0);
    var r := Wide(ShrWord(t0, c), ShrWord(t1, c), ShrWord(t2, c), ShrWord(a.l3, c));
    assert ShrLimbs(a, c) == r;
  }

  lemma ShrLimbsDigits(l3: u32, l2: u32, l1: u32, l0: u32, c: nat)
    requires c <= 32
    ensures var t2 := ShiftIn(l3, l2);
            var t1 := ShiftIn(t2, l1);
            var t0 := ShiftIn(t1, l0);
            ShrWord(t0, c) + B32 * ShrWord(t1, c) + B64 * ShrWord(t2, c) + B96 * ShrWord(l3, c)
              == (l0 + B32 * l1 + B64 * l2 + B96 * l3) / Pow2(c)
  {
    var p, s := Pow2(c), Pow2(32 - c);
    var t2 := ShiftIn(l3, l2);
    var t1 := ShiftIn(t2, l1);
    var t0 := ShiftIn(t1, l0);
    var w0, w1, w2, w3 := ShrWord(t0, c), ShrWord(t1, c), ShrWord(t2, c), ShrWord(l3, c);
    ShrWordsLow(l3, l2, l1, l0, c, p, s);
    ShrWordsHigh(l3, l2, c, p, s);
    ShiftFactor(c);
    ShrDigits(l0, l1, l2, l3, p, s, w0, w1, w2, w3);
  }

  /**
   * dm_muldiv_shr for 0 <= count <= 63: a shift by more than 32 bits first
   * moves the limbs down one place.
   */
  function Shr(arg: Wide, count: int): (r: Wide)
    requires 0 <= count <= 63
    ensures Val(r) == Val(arg) / Pow2(count)
  {
    if 32 < count then
      var a := Wide(arg.l1, arg.l2, arg.l3, 0);
      ShrLimbsVal(a, count - 32);
      ShrMoved(arg, count - 32);
      ShrLimbs(a, count - 32)
    else
      ShrLimbsVal(arg, count);
      ShrLimbs(arg, count)
  }

  /** dm_muldiv_shl1: the slow path's one-bit left shift through a 64-bit temporary. */
  function Shl1(arg: Wide): (r: Wide)
    ensures Val(r) == (2 * Val(arg)) % B128
  {
    assert Pow2(1) == 2;
    ShlStep(0, arg.l0, 1);
    var t0 := (arg.l0 * 2) % B64;
    ShlStep(t0 / B32, arg.l1, 1);
    var t1 := Or(t0 / B32, (arg.l1 * 2) % B64);
    ShlStep(t1 / B32, arg.l2, 1);
    var t2 := Or(t1 / B32, (arg.l2 * 2) % B64);
    ShlStep(t2 / B32, arg.l3, 1);
    var t3 := Or(t2 / B32, (arg.l3 * 2) % B64);
    ShlAlgebra(arg, 2, t0, t1, t2, t3);
    Wide(t0 % B32, t1 % B32, t2 % B32, t3 % B32)
  }

  /** dm_muldiv_shr1: the slow path's one-bit right shift, the same steps as a shift by one. */
  function Shr1(arg: Wide): (r: Wide)
    ensures Val(r) == Val(arg) / 2
  {
    ShrLimbsVal(arg, 1);
    assert Pow2(1) == 2;
    ShrLimbs(arg, 1)
  }

  /** Shifting left then right by the same count restores a value that did not overflow. */
  lemma ShlShr(x: Wide, c: int)
    requires 0 <= c <= 63 && Val(x) * Pow2(c) < B128
    ensures Shr(Shl(x, c), c) == x
  {
    var v, p := Val(x), Pow2(c);
    var y := Shl(x, c);
    assert Val(y) == v * p by {
      MulLe(0, 0, v, p);
      DivModUnique(v * p, B128, 0, v * p);
    }
    var z := Shr(y, c);
    assert Val(z) == v by {
      MulDivExact(v, p);
    }
    ValInjective(z, x);
  }

  // ---------------------------------------------------------------------
  // Comparisons (dm_muldiv_zero, dm_muldiv_greater, dm_muldiv_less)
  // ---------------------------------------------------------------------

  /** dm_muldiv_zero: the OR of all limbs is zero. */
  function IsZero(arg: Wide): (b: bool)
    ensures b <==> Val(arg) == 0
  {
    OrZero(arg.l0, arg.l1);
    OrZero(Or(arg.l0, arg.l1), arg.l2);
    OrZero(Or(Or(arg.l0, arg.l1), arg.l2), arg.l3);
    0 == Or(Or(Or(arg.l0, arg.l1), arg.l2), arg.l3)
  }

  /** dm_muldiv_greater: the wide value against a 64-bit word. */
  function Greater(lhs: Wide, rhs: u64): (b: bool)
    ensures b <==> Val(lhs) > rhs
  {
    OrZero(lhs.l2, lhs.l3);
    if 0 != Or(lhs.l2, lhs.l3) then true
    else Join(lhs.l1, lhs.l0) > rhs
  }

  /** dm_muldiv_less: limbs compared from the most significant down. */
  function Less(lhs: Wide, rhs: Wide): (b: bool)
    ensures b <==> Val(lhs) < Val(rhs)
  {
    if lhs.l3 != rhs.l3 then lhs.l3 < rhs.l3
    else if lhs.l2 != rhs.l2 then lhs.l2 < rhs.l2
    else if lhs.l1 != rhs.l1 then lhs.l1 < rhs.l1
    else lhs.l0 < rhs.l0
  }
}
