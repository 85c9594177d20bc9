/**
 * The eight rounding modes, the mode setter, and dm_decideRound, the one
 * decision every rounding operation of the library shares.
 *
 * The process-wide current mode of the source is an explicit parameter
 * throughout this model.  Modes 0, 2, 3 and 4 are the rounding-direction
 * attributes of section 4.3 of IEEE 754-2008 (ties to even, toward +inf,
 * toward -inf, toward zero) and mode 1 is its ties-away attribute; modes
 * 5, 6 and 7 (ties to odd, ties toward zero, away from zero) are the
 * library's own.
 */
module Rounding {
  import opened Pow

  const ToNearest: int := 0
  const ToNearestFromZero: int := 1
  const Upward: int := 2
  const Downward: int := 3
  const TowardZero: int := 4
  const ToNearestOdd: int := 5
  const ToNearestTowardZero: int := 6
  const FromZero: int := 7

  predicate IsMode(mode: int)
  {
    ToNearest <= mode <= FromZero
  }

  /** dm_fesetround: the mode after the call, which is also what it returns. */
  function SetRound(current: int, request: int): (mode: int)
    ensures IsMode(request) ==> mode == request
    ensures !IsMode(request) ==> mode == current
    ensures IsMode(current) ==> IsMode(mode)
  {
    if ToNearest <= request && FromZero >= request then request else current
  }

  /**
   * dm_decideRound: whether to add one to a truncated magnitude.  `odd` is
   * the low bit of the truncated magnitude, `comp` is divisor minus twice
   * the remainder (positive below the halfway point, zero on it, negative
   * above it) and `exact` says the remainder is zero.
   */
  function DecideRound(neg: bool, odd: bool, comp: int, exact: bool, mode: int): (inc: int)
    ensures inc == 0 || inc == 1
    ensures !IsMode(mode) ==> inc == 0
    ensures exact && comp > 0 ==> inc == 0
  {
    if mode == ToNearest then
      if comp < 0 || (comp == 0 && odd) then 1 else 0
    else if mode == ToNearestFromZero then
      if comp <= 0 then 1 else 0
    else if mode == Upward then
      if !neg && !exact then 1 else 0
    else if mode == Downward then
      if neg && !exact then 1 else 0
    else if mode == TowardZero then
      0
    else if mode == ToNearestOdd then
      if comp < 0 || (comp == 0 && !odd) then 1 else 0
    else if mode == ToNearestTowardZero then
      if comp < 0 then 1 else 0
    else if mode == FromZero then
      if !exact then 1 else 0
    else
      0
  }

  /** Below the halfway point and inexact, only the sign of the comparison matters, not its size. */
  lemma DecideRoundAbove(neg: bool, odd: bool, c1: int, c2: int, mode: int)
    requires 0 < c1 && 0 < c2
    ensures DecideRound(neg, odd, c1, false, mode) == DecideRound(neg, odd, c2, false, mode)
  {
  }

  /** Above the halfway point and inexact, likewise only the sign of the comparison matters. */
  lemma DecideRoundBelow(neg: bool, odd: bool, c1: int, c2: int, mode: int)
    requires c1 < 0 && c2 < 0
    ensures DecideRound(neg, odd, c1, false, mode) == DecideRound(neg, odd, c2, false, mode)
  {
  }

  /** Only the sign of the comparison reaches the decision, whether or not the remainder is zero. */
  lemma DecideRoundSign(neg: bool, odd: bool, c1: int, c2: int, exact: bool, mode: int)
    requires (c1 < 0 <==> c2 < 0) && (c1 == 0 <==> c2 == 0)
    ensures DecideRound(neg, odd, c1, exact, mode) == DecideRound(neg, odd, c2, exact, mode)
  {
  }

  /** r is the integer part of n / d. */
  predicate IsFloor(n: int, d: int, r: int)
  {
    r * d <= n < r * d + d
  }

  /** r is n / d rounded up. */
  predicate IsCeiling(n: int, d: int, r: int)
  {
    r * d - d < n <= r * d
  }

  /** r is an integer nearest to n / d (one of two on a tie). */
  predicate IsNearest(n: int, d: int, r: int)
  {
    -d <= 2 * n - 2 * r * d <= d
  }

  /** n / d lies exactly halfway between two integers. */
  predicate IsTie(n: int, d: int, r: int)
  {
    2 * n - 2 * r * d == d || 2 * n - 2 * r * d == -d
  }

  /**
   * The magnitude n / d of a value with sign `neg`, rounded to an integer
   * as `mode` prescribes; an unknown mode truncates.
   */
  predicate RoundsTo(n: int, d: int, neg: bool, mode: int, r: int)
  {
    if mode == ToNearest then IsNearest(n, d, r) && (IsTie(n, d, r) ==> r % 2 == 0)
    else if mode == ToNearestFromZero then IsNearest(n, d, r) && (IsTie(n, d, r) ==> n <= r * d)
    else if mode == Upward then if neg then IsFloor(n, d, r) else IsCeiling(n, d, r)
    else if mode == Downward then if neg then IsCeiling(n, d, r) else IsFloor(n, d, r)
    else if mode == ToNearestOdd then IsNearest(n, d, r) && (IsTie(n, d, r) ==> r % 2 == 1)
    else if mode == ToNearestTowardZero then IsNearest(n, d, r) && (IsTie(n, d, r) ==> r * d <= n)
    else if mode == FromZero then IsCeiling(n, d, r)
    else IsFloor(n, d, r)
  }

  /**
   * Adding DecideRound's answer to the truncated quotient rounds n / d
   * correctly in every mode, given the arguments the callers pass.
   */
  lemma DecideRoundCorrect(n: int, d: int, q: int, rem: int, neg: bool, mode: int, r: int)
    requires 0 < d && 0 <= rem < d && n == q * d + rem
    requires r == q + DecideRound(neg, q % 2 == 1, d - 2 * rem, rem == 0, mode)
    ensures RoundsTo(n, d, neg, mode, r)
  {
    assert (q + 1) * d == q * d + d;
    assert 2 * n - 2 * q * d == 2 * rem;
    assert 2 * n - 2 * (q + 1) * d == 2 * rem - 2 * d;
    if rem == 0 {
      assert !IsTie(n, d, q);
    }
  }

  /** An integer rounds to itself in every mode. */
  lemma RoundsToWhole(n: int, neg: bool, mode: int, r: int)
    ensures RoundsTo(n, 1, neg, mode, n)
    ensures RoundsTo(n, 1, neg, mode, r) ==> r == n
  {
  }

  /** RoundsTo names one integer: the rounding of n / d is unique. */
  lemma RoundsToUnique(n: int, d: int, neg: bool, mode: int, r1: int, r2: int)
    requires 0 < d && RoundsTo(n, d, neg, mode, r1) && RoundsTo(n, d, neg, mode, r2)
    ensures r1 == r2
  {
    if r1 <= r2 {
      Ordered(n, d, neg, mode, r1, r2);
    } else {
      Ordered(n, d, neg, mode, r2, r1);
    }
  }

  lemma Ordered(n: int, d: int, neg: bool, mode: int, lo: int, hi: int)
    requires 0 < d && lo <= hi && RoundsTo(n, d, neg, mode, lo) && RoundsTo(n, d, neg, mode, hi)
    ensures lo == hi
  {
    if lo < hi {
      Apart(d, lo, hi);
      if mode == ToNearest || mode == ToNearestFromZero || mode == ToNearestOdd || mode == ToNearestTowardZero {
        NearestAdjacent(n, d, lo, hi);
      }
    }
  }

  /** Distinct integers are at least one divisor apart once scaled. */
  lemma Apart(d: int, r1: int, r2: int)
    requires 0 < d && r1 < r2
    ensures r1 * d + d <= r2 * d
    ensures r1 + 1 < r2 ==> r1 * d + 2 * d <= r2 * d
  {
    var k := r2 - r1;
    assert r2 * d == r1 * d + k * d;
    MulLe(1, d, k, d);
    if 1 < k {
      MulLe(2, d, k, d);
    }
  }

  /** Two different nearest integers are neighbours with the value halfway between. */
  lemma NearestAdjacent(n: int, d: int, r1: int, r2: int)
    requires 0 < d && r1 < r2 && IsNearest(n, d, r1) && IsNearest(n, d, r2)
    ensures r2 == r1 + 1 && 2 * n - 2 * r1 * d == d && 2 * n - 2 * r2 * d == -d
  {
    Apart(d, r1, r2);
    if r1 + 1 == r2 {
      assert r2 * d == r1 * d + d;
    }
  }
}
