/**
 * Bitwise OR and AND on naturals, defined one bit at a time, with the facts
 * the limb code relies on: OR of bit-disjoint operands is addition, AND with a
 * run of ones extracts a bit field.
 */
module Bits {
  import opened Pow

  /** C's `|` on unsigned integers. */
  function Or(x: nat, y: nat): nat
    decreases x + y
  {
    if x == 0 then y
    else if y == 0 then x
    else 2 * Or(x / 2, y / 2) + (if x % 2 == 1 || y % 2 == 1 then 1 else 0)
  }

  /** C's `&` on unsigned integers. */
  function And(x: nat, y: nat): nat
    decreases x + y
  {
    if x == 0 || y == 0 then 0
    else 2 * And(x / 2, y / 2) + (if x % 2 == 1 && y % 2 == 1 then 1 else 0)
  }

  lemma DivDiv(x: nat, a: nat, b: nat)
    requires 0 < a && 0 < b
    ensures x / a / b == x / (a * b)
  {
    var y, s := x / a, x % a;
    var q, r := y / b, y % b;
    DivModParts(x, a, y, s);
    DivModParts(y, b, q, r);
    NestedParts(x, a, b, y, s, q, r);
    DivModUnique(x, a * b, q, r * a + s);
  }

  /** x = y * a + s with y = q * b + r gives x = q * (a * b) + (r * a + s), the last part below a * b. */
  lemma NestedParts(x: int, a: int, b: int, y: int, s: int, q: int, r: int)
    requires 0 < a && 0 < b && 0 <= s < a && 0 <= r < b
    requires x == y * a + s && y == q * b + r
    ensures x == q * (a * b) + (r * a + s) && 0 <= r * a + s < a * b
  {
    assert y * a == q * (a * b) + r * a by {
      assert (q * b + r) * a == q * b * a + r * a;
    }
    MulLe(r, a, b - 1, a);
    assert (b - 1) * a == a * b - a;
  }

  /** Splitting off the lowest bit of a remainder by an even modulus. */
  lemma ModDouble(x: nat, p: nat)
    requires 0 < p
    ensures x % (2 * p) == 2 * ((x / 2) % p) + x % 2
  {
    var a := (x / 2) / p;
    var b := (x / 2) % p;
    assert x / 2 == a * p + b;
    assert x == (2 * p) * a + (2 * b + x % 2);
    DivModUnique(x, 2 * p, a, 2 * b + x % 2);
  }

  lemma {:induction false} OrComm(x: nat, y: nat)
    ensures Or(x, y) == Or(y, x)
    decreases x + y
  {
    if x != 0 && y != 0 {
      OrComm(x / 2, y / 2);
    }
  }

  /** The OR of a value below 2^k and a multiple of 2^k is their sum. */
  lemma {:induction false} OrDisjoint(x: nat, y: nat, k: nat)
    requires x < Pow2(k) && y % Pow2(k) == 0
    ensures Or(x, y) == x + y
    ensures Or(y, x) == x + y
    decreases k
  {
    OrComm(x, y);
    if x != 0 && y != 0 {
      assert k != 0;
      assert Pow2(k) == 2 * Pow2(k - 1);
      DivMultiple(y, 2, Pow2(k - 1));
      OrDisjoint(x / 2, y / 2, k - 1);
    }
  }

  /** `0 == (x | y)` holds exactly when both operands are zero. */
  lemma {:induction false} OrZero(x: nat, y: nat)
    ensures Or(x, y) == 0 <==> x == 0 && y == 0
    decreases x + y
  {
    if x != 0 && y != 0 {
      OrZero(x / 2, y / 2);
    }
  }

  lemma Twice(a: int, p: int)
    ensures a * (2 * p) == 2 * (a * p)
  {
  }

  /** One step of And's recursion, for operands known to be nonzero. */
  lemma AndStep(x: nat, y: nat)
    requires x != 0 && y != 0
    ensures And(x, y) == 2 * And(x / 2, y / 2) + (if x % 2 == 1 && y % 2 == 1 then 1 else 0)
  {
  }

  /** AND with 2^m - 1 keeps the low m bits. */
  lemma {:induction false} AndLowMask(x: nat, m: nat, pm: nat)
    requires pm == Pow2(m)
    ensures And(x, pm - 1) == x % pm
    decreases m
  {
    if m > 0 && x != 0 {
      var p := Pow2(m - 1);
      assert pm == 2 * p;
      LowMaskStep(x, p);
      AndLowMask(x / 2, m - 1, p);
    }
  }

  lemma LowMaskStep(x: nat, p: nat)
    requires x != 0 && 0 < p
    ensures And(x, 2 * p - 1) == 2 * And(x / 2, p - 1) + x % 2
    ensures x % (2 * p) == 2 * ((x / 2) % p) + x % 2
  {
    var y := 2 * p - 1;
    assert y % 2 == 1 && y / 2 == p - 1;
    AndStep(x, y);
    ModDouble(x, p);
  }

  /** AND with a mask shifted left by j is the AND of x shifted right by j, shifted back. */
  lemma {:induction false} AndShifted(x: nat, y: nat, j: nat, xs: nat, ys: nat)
    requires xs == x / Pow2(j) && ys == y * Pow2(j)
    ensures And(x, ys) == And(xs, y) * Pow2(j)
    decreases j
  {
    if j > 0 {
      var p := Pow2(j - 1);
      assert Pow2(j) == 2 * p;
      Twice(y, p);
      if x != 0 && y != 0 {
        DivDiv(x, 2, p);
        AndShifted(x / 2, y, j - 1, xs, y * p);
        AndShiftedStep(x, y, p, y * p, xs, And(xs, y));
      } else if y == 0 {
        assert ys == 0;
      } else {
        assert xs == 0;
      }
    }
  }

  /** One step of AndShifted: the lowest bit of the shifted mask is clear. */
  lemma AndShiftedStep(x: nat, y: nat, p: nat, yp: nat, xs: nat, a: nat)
    requires 0 < x && 0 < y && 0 < p && yp == y * p
    requires And(x / 2, yp) == a * p
    ensures And(x, 2 * yp) == a * (2 * p)
  {
    assert yp != 0 by {
      MulLe(1, 1, y, p);
    }
    AndStep(x, 2 * yp);
    Twice(a, p);
  }

  lemma MulZero(a: nat, p: nat)
    requires 0 < p
    ensures a * p == 0 <==> a == 0
  {
    if a != 0 {
      MulLe(1, 1, a, p);
    }
  }

  /** The test `0 == (x & mask)` for a mask of m ones shifted left by j. */
  lemma AndFieldZero(x: nat, m: nat, j: nat, mask: nat)
    requires mask == (Pow2(m) - 1) * Pow2(j)
    ensures And(x, mask) == 0 <==> (x / Pow2(j)) % Pow2(m) == 0
  {
    var q := x / Pow2(j);
    AndLowMask(q, m, Pow2(m));
    AndShifted(x, Pow2(m) - 1, j, q, mask);
    MulZero(q % Pow2(m), Pow2(j));
  }
}
