/**
 * Powers of two and ten, and the fixed-width unsigned integers of the C
 * source, all over Dafny's unbounded integers.  Shifts become multiplication
 * or division by a power of two; masks become remainders.
 *
 * The word sizes are named constants.  Where a proof multiplies one by an
 * unknown, it restates the constant as a literal first: a product with a
 * literal is linear arithmetic for the solver.
 */
module Pow {

  const B32: int := 0x1_0000_0000
  const B64: int := 0x1_0000_0000_0000_0000
  const B128: int := 0x1_0000_0000_0000_0000_0000_0000_0000_0000

  /** uint32_t */
  type u32 = x: int | 0 <= x < 0x1_0000_0000
  /** uint64_t */
  type u64 = x: int | 0 <= x < 0x1_0000_0000_0000_0000

  function Pow2(n: nat): (r: nat)
    ensures 0 < r
  {
    if n == 0 then 1 else 2 * Pow2(n - 1)
  }

  function Pow10(n: nat): (r: nat)
    ensures 0 < r
  {
    if n == 0 then 1 else 10 * Pow10(n - 1)
  }

  lemma {:induction false} Pow2Add(a: nat, b: nat)
    ensures Pow2(a + b) == Pow2(a) * Pow2(b)
    decreases a
  {
    if a > 0 {
      Pow2Add(a - 1, b);
      assert Pow2(a + b) == 2 * Pow2(a - 1 + b);
    }
  }

  lemma {:induction false} Pow10Add(a: nat, b: nat)
    ensures Pow10(a + b) == Pow10(a) * Pow10(b)
    decreases a
  {
    if a > 0 {
      Pow10Add(a - 1, b);
      assert Pow10(a + b) == 10 * Pow10(a - 1 + b);
    }
  }

  lemma Pow2Le(a: nat, b: nat)
    requires a <= b
    ensures Pow2(a) <= Pow2(b)
    ensures Pow2(b) % Pow2(a) == 0
  {
    Pow2Add(a, b - a);
    MulDivExact(Pow2(b - a), Pow2(a));
    MulLe(Pow2(a), 1, Pow2(a), Pow2(b - a));
  }

  lemma Pow10Le(a: nat, b: nat)
    requires a <= b
    ensures Pow10(a) <= Pow10(b)
    ensures Pow10(b) % Pow10(a) == 0
  {
    Pow10Add(a, b - a);
    MulDivExact(Pow10(b - a), Pow10(a));
    MulLe(Pow10(a), 1, Pow10(a), Pow10(b - a));
  }

  lemma Pow10Lt(a: nat, b: nat)
    requires a < b
    ensures 10 * Pow10(a) <= Pow10(b)
  {
    Pow10Le(a + 1, b);
  }

  /** The word sizes the C source works in. */
  lemma Pow2Words()
    ensures Pow2(8) == 256
    ensures Pow2(32) == B32
    ensures Pow2(53) == 0x20_0000_0000_0000
    ensures Pow2(54) == 0x40_0000_0000_0000
    ensures Pow2(63) == 0x8000_0000_0000_0000
    ensures Pow2(64) == B64
  {
    Pow2Small();
    Pow2Known(8, 8, 256, 256);
    Pow2Known(16, 16, 0x1_0000, 0x1_0000);
    Pow2Known(32, 16, 0x1_0000_0000, 0x1_0000);
    Pow2Known(48, 4, 0x1_0000_0000_0000, 16);
    assert Pow2(53) == 0x20_0000_0000_0000;
    assert Pow2(54) == 0x40_0000_0000_0000;
    Pow2Known(32, 32, 0x1_0000_0000, 0x1_0000_0000);
    assert Pow2(64) == 2 * Pow2(63);
  }

  lemma Pow2Small()
    ensures Pow2(4) == 16 && Pow2(7) == 128 && Pow2(8) == 256
  {
    assert Pow2(2) == 4;
    assert Pow2(4) == 16;
    assert Pow2(6) == 64;
  }

  /** Pow2Add with the sum of the exponents given as its own term. */
  lemma Pow2Split(a: nat, b: nat, c: nat)
    requires a + b == c
    ensures Pow2(c) == Pow2(a) * Pow2(b)
  {
    Pow2Add(a, b);
  }

  /** Pow2Add for exponents whose powers are already known. */
  lemma Pow2Known(a: nat, b: nat, pa: nat, pb: nat)
    requires Pow2(a) == pa && Pow2(b) == pb
    ensures Pow2(a + b) == pa * pb
  {
    Pow2Add(a, b);
  }

  /** The powers of ten up to 10^17 that the decimal code uses as constants. */
  lemma Pow10Table()
    ensures Pow10(0) == 1 && Pow10(1) == 10 && Pow10(2) == 100
    ensures Pow10(3) == 1000 && Pow10(4) == 10000 && Pow10(5) == 100000
    ensures Pow10(6) == 1000000 && Pow10(7) == 10000000
    ensures Pow10(8) == 100000000 && Pow10(9) == 1000000000
    ensures Pow10(10) == 10000000000 && Pow10(11) == 100000000000
    ensures Pow10(12) == 1000000000000 && Pow10(13) == 10000000000000
    ensures Pow10(14) == 100000000000000 && Pow10(15) == 1000000000000000
    ensures Pow10(16) == 10000000000000000 && Pow10(17) == 100000000000000000
  {
    assert Pow10(1) == 10;
    assert Pow10(2) == 100;
    assert Pow10(3) == 1000;
    assert Pow10(4) == 10000;
    assert Pow10(5) == 100000;
    assert Pow10(6) == 1000000;
    assert Pow10(7) == 10000000;
    assert Pow10(8) == 100000000;
    assert Pow10(9) == 1000000000;
    assert Pow10(10) == 10000000000;
    assert Pow10(11) == 100000000000;
    assert Pow10(12) == 1000000000000;
    assert Pow10(13) == 10000000000000;
    assert Pow10(14) == 100000000000000;
    assert Pow10(15) == 1000000000000000;
    assert Pow10(16) == 10000000000000000;
  }

  /** Euclidean division is determined by its quotient-remainder equation. */
  lemma DivModUnique(x: int, m: int, q: int, r: int)
    requires 0 < m && 0 <= r < m && x == q * m + r
    ensures x / m == q && x % m == r
  {
    var q', r' := x / m, x % m;
    assert (q - q') * m == r' - r;
    if q - q' >= 1 {
      MulLe(1, m, q - q', m);
    } else if q' - q >= 1 {
      MulLe(1, m, q' - q, m);
    }
  }

  /** The quotient-remainder equation of Euclidean division, for named quotient and remainder. */
  lemma DivModParts(x: int, m: int, q: int, r: int)
    requires 0 < m && q == x / m && r == x % m
    ensures x == q * m + r && 0 <= r < m
  {
  }

  lemma MulDivExact(k: int, m: int)
    requires 0 < m
    ensures (k * m) / m == k && (k * m) % m == 0
  {
    DivModUnique(k * m, m, k, 0);
  }

  /** A value that differs from x by a multiple of m and lies in [0, m) is x % m. */
  lemma ModUnique(x: int, m: int, k: int, r: int)
    requires 0 < m && 0 <= r < m && r == x - k * m
    ensures r == x % m
  {
    DivModUnique(x, m, k, r);
  }

  /** Reduction of a value within one modulus of [0, m). */
  lemma ModWrap(x: int, m: int)
    requires 0 < m && -m <= x < 2 * m
    ensures x % m == (if x < 0 then x + m else if x >= m then x - m else x)
  {
    if x < 0 {
      DivModUnique(x, m, -1, x + m);
    } else if x >= m {
      DivModUnique(x, m, 1, x - m);
    } else {
      DivModUnique(x, m, 0, x);
    }
  }

  /** Adding a multiple of the modulus does not change the remainder. */
  lemma ModAddMultiple(x: int, m: int, j: int)
    requires 0 < m
    ensures (x + j * m) % m == x % m
  {
    DivModUnique(x + j * m, m, x / m + j, x % m);
  }

  /** Scaling by 10^0 changes nothing. */
  lemma ScaleByOne(n: int)
    ensures n * Pow10(0) == n
  {
  }

  lemma MulLe(a: nat, b: nat, c: nat, d: nat)
    requires a <= c && b <= d
    ensures a * b <= c * d
  {
    assert a * b <= c * b;
    assert c * b <= c * d;
  }

  lemma MulLt(a: nat, b: nat, c: nat, d: nat)
    requires a < c && b < d
    ensures a * b < c * d
  {
    MulLe(a, b, c - 1, d);
    assert (c - 1) * d < c * d;
  }

  /** Dividing a multiple of m * n by m leaves a multiple of n. */
  lemma DivMultiple(x: nat, m: nat, n: nat)
    requires 0 < m && 0 < n && x % (m * n) == 0
    ensures x % m == 0 && (x / m) % n == 0
  {
    var c := x / (m * n);
    assert x == c * (m * n);
    assert x == (c * n) * m;
    MulDivExact(c * n, m);
    MulDivExact(c, n);
  }

  /** Conversion of an unsigned value to a 32-bit int, keeping the low 32 bits as two's complement. */
  function ToInt32(x: u64): (r: int)
    ensures -0x8000_0000 <= r < 0x8000_0000
    ensures (r - x) % 0x1_0000_0000 == 0
  {
    var low := x % 0x1_0000_0000;
    DivModParts(x, 0x1_0000_0000, x / 0x1_0000_0000, low);
    if low < 0x8000_0000 then
      DivModUnique(low - x, 0x1_0000_0000, -(x / 0x1_0000_0000), 0);
      low
    else
      DivModUnique(low - 0x1_0000_0000 - x, 0x1_0000_0000, -(x / 0x1_0000_0000) - 1, 0);
      low - 0x1_0000_0000
  }
}
