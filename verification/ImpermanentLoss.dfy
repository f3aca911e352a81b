/**
  The impermanent-loss formula of the alerts module: basis points lost by a
  two-sided position when the price has moved by `ratio` (scaled by 10^18), with
  an integer square root and floor division.
*/
module ImpermanentLoss {
  import opened FloorDivision
  import opened IntegerSqrt

  const PRICE_SCALE := 1_000_000_000_000_000_000
  const PRICE_SCALE_SQRT := 1_000_000_000
  const BPS := 10_000

  /** What is left of the held value, in basis points rounded down. */
  function PoolFractionBps(ratio: nat): int {
    2 * FloorSqrt(ratio) * PRICE_SCALE_SQRT * BPS / (PRICE_SCALE + ratio)
  }

  function LossBps(ratio: int): int {
    if ratio <= 0 then 0 else
    if PoolFractionBps(ratio) >= BPS then 0 else BPS - PoolFractionBps(ratio)
  }

  method ComputeImpermanentLossBps(priceRatio: int) returns (lossBps: int)
    ensures lossBps == LossBps(priceRatio)
  {
    if priceRatio <= 0 {
      return 0;
    }
    var sqrtRatio := Sqrt(priceRatio);
    var numerator := 2 * sqrtRatio * PRICE_SCALE_SQRT * BPS;
    var denominator := PRICE_SCALE + priceRatio;
    if denominator == 0 {
      return 0;
    }
    var poolFractionBps := numerator / denominator;
    lossBps := if poolFractionBps >= BPS then 0 else BPS - poolFractionBps;
  }

  // ----- AM-GM with the integer root

  /** 2 * s * scale <= scale^2 + r for the floor root s of r, with equality only at r = scale^2. */
  lemma RootAmGm(scale: nat, s: nat, r: nat)
    requires s * s <= r < (s + 1) * (s + 1)
    ensures 2 * s * scale <= scale * scale + r
    ensures 2 * s * scale == scale * scale + r <==> r == scale * scale
  {
    assert (scale - s) * (scale - s) == scale * scale + s * s - 2 * s * scale;
    assert (scale - s) * (scale - s) >= 0;
    if s != scale {
      var d := if s < scale then scale - s else s - scale;
      assert d * d == (scale - s) * (scale - s);
      SquareMono(1, d);
      if r == scale * scale { FloorSqrtIs(r, scale); FloorSqrtIs(r, s); }
    }
  }

  /**
    The result is a number of basis points, zero exactly at an unchanged price (or
    a ratio the guard rejects), and the clamp is reached only there.
  */
  lemma LossRangeAndZero(ratio: int)
    ensures 0 <= LossBps(ratio) <= BPS
    ensures LossBps(ratio) == 0 <==> ratio <= 0 || ratio == PRICE_SCALE
    ensures ratio > 0 ==> PoolFractionBps(ratio) <= BPS && (PoolFractionBps(ratio) == BPS <==> ratio == PRICE_SCALE)
  {
    hide FloorSqrt;
    if ratio > 0 {
      var s := FloorSqrt(ratio);
      RootAmGm(PRICE_SCALE_SQRT, s, ratio);
      AtMostQuotient(BPS, 2 * s * PRICE_SCALE_SQRT * BPS, PRICE_SCALE + ratio);
      AtMostQuotient(BPS + 1, 2 * s * PRICE_SCALE_SQRT * BPS, PRICE_SCALE + ratio);
      AtMostQuotient(0, 2 * s * PRICE_SCALE_SQRT * BPS, PRICE_SCALE + ratio);
    }
  }

  const TWO_SCALES := 2 * PRICE_SCALE_SQRT * BPS

  lemma FractionIs(ratio: nat, k: int)
    ensures k <= PoolFractionBps(ratio) <==> k * (PRICE_SCALE + ratio) <= TWO_SCALES * FloorSqrt(ratio)
  {
    hide FloorSqrt;
    AtMostQuotient(k, 2 * FloorSqrt(ratio) * PRICE_SCALE_SQRT * BPS, PRICE_SCALE + ratio);
  }

  /** The loss and what is left always make up the whole. */
  lemma LossAndFractionAddUp(ratio: nat)
    requires ratio > 0
    ensures LossBps(ratio) + PoolFractionBps(ratio) == BPS
  {
    hide PoolFractionBps;
    LossRangeAndZero(ratio);
  }

  /**
    Rounding never understates the loss: what is reported as left is at most the
    exact fraction 2 * sqrt(ratio * 10^18) / (10^18 + ratio), compared by squares.
  */
  lemma LossIsNeverUnderstated(ratio: nat)
    ensures var left := PoolFractionBps(ratio) * (PRICE_SCALE + ratio);
            0 <= left && left * left <= TWO_SCALES * TWO_SCALES * ratio
  {
    hide FloorSqrt, PoolFractionBps;
    FractionIs(ratio, PoolFractionBps(ratio));
    FractionIs(ratio, 0);
    MulMono(0, PoolFractionBps(ratio), PRICE_SCALE + ratio);
    SquaredBound(PoolFractionBps(ratio) * (PRICE_SCALE + ratio), TWO_SCALES, FloorSqrt(ratio), ratio);
  }

  /**
    The reported loss is the exact one up to rounding: what it leaves is at most the
    exact fraction, and with one basis point and one unit of the root more exceeds it.
  */
  lemma LossIsExactUpToRounding(ratio: nat)
    requires ratio > 0
    ensures var left := (BPS - LossBps(ratio)) * (PRICE_SCALE + ratio);
            0 <= left && left * left <= TWO_SCALES * TWO_SCALES * ratio
    ensures var more := (BPS - LossBps(ratio) + 1) * (PRICE_SCALE + ratio) + TWO_SCALES;
            more * more > TWO_SCALES * TWO_SCALES * ratio
  {
    hide FloorSqrt, PoolFractionBps, LossBps;
    LossAndFractionAddUp(ratio);
    LossIsNeverUnderstated(ratio);
    var k, s, d := PoolFractionBps(ratio), FloorSqrt(ratio), PRICE_SCALE + ratio;
    FractionIs(ratio, k + 1);
    SquaredAbove((k + 1) * d + TWO_SCALES, TWO_SCALES, s, ratio);
  }

  lemma SquaredAbove(more: nat, c: nat, s: nat, ratio: nat)
    requires c > 0 && more > c * s + c && ratio < (s + 1) * (s + 1)
    ensures more * more > c * c * ratio
  {
    var t := s + 1;
    Distribute(s, 1, c);
    SquareMono(c * t, more);
    assert (c * t) * (c * t) == c * c * (t * t);
    MulMono(ratio + 1, t * t, c * c);
    Distribute(ratio, 1, c * c);
    MulMono(1, c, c);
  }

  lemma SquaredBound(left: nat, c: nat, s: nat, ratio: nat)
    requires left <= c * s && s * s <= ratio
    ensures left * left <= c * c * ratio
  {
    SquareMono(left, c * s);
    assert (c * s) * (c * s) == c * c * (s * s);
    MulMono(s * s, ratio, c * c);
  }

  // ----- monotone away from 1, up to the rounding of the root

  /** A bound k on c * a / da carries over to c * b / db when a / da <= b / db. */
  lemma CarryOver(k: nat, c: nat, a: nat, b: nat, da: nat, db: nat)
    requires a > 0 && k * da <= c * a && a * db <= b * da
    ensures k * db <= c * b
  {
    calc <= {
      a * (k * db);
      { assert a * (k * db) == k * (a * db); }
      k * (a * db);
      { MulMono(a * db, b * da, k); }
      k * (b * da);
      { assert k * (b * da) == b * (k * da); }
      b * (k * da);
      { MulMono(k * da, c * a, b); }
      b * (c * a);
      { assert b * (c * a) == a * (c * b); }
      a * (c * b);
    }
    if k * db >= c * b + 1 { MulMono(c * b + 1, k * db, a); }
  }

  lemma TwiceProduct(a: nat, b: nat)
    ensures a * (2 * b) <= a * a + b * b
  {
    var d := a - b;
    assert d * d == a * a + b * b - a * (2 * b);
    assert d * d >= 0;
  }

  lemma Absorb(k: nat, d: nat, slack: nat, e: nat, bound: int)
    requires 1 <= k && k * d <= bound && (k - 1) * slack <= d && e <= d + slack
    ensures (k - 1) * e <= bound
  {
    MulMono(e, d + slack, k - 1);
    Distribute(d, slack, k - 1);
    Distribute(k, 1, d);
  }

  /** s / (scale^2 + s^2) falls as s moves away from scale, on either side. */
  lemma FractionOfRoots(scale: nat, a: nat, b: nat)
    requires scale <= b <= a || a <= b <= scale
    ensures a * (scale * scale + b * b) <= b * (scale * scale + a * a)
  {
    var ss := scale * scale;
    assert b * (ss + a * a) - a * (ss + b * b) == (a - b) * (a * b - ss);
    if scale <= b <= a {
      MulMono(scale, b, scale);
      MulMono(scale, a, b);
      MulMono(0, a - b, a * b - ss);
    } else {
      MulMono(b, scale, scale);
      MulMono(a, scale, b);
      MulMono(0, b - a, ss - a * b);
      assert (a - b) * (a * b - ss) == (b - a) * (ss - a * b);
    }
  }

  lemma RootsInOrder(scale: nat, near: nat, far: nat)
    requires scale * scale <= near <= far || 1 <= far <= near <= scale * scale
    ensures var a, b := FloorSqrt(far), FloorSqrt(near);
            a * a <= far && near <= b * b + 2 * b && (scale <= b <= a || a <= b <= scale)
    ensures far > 0 ==> FloorSqrt(far) > 0
  {
    hide FloorSqrt;
    var b := FloorSqrt(near);
    assert (b + 1) * (b + 1) == b * b + 2 * b + 1;
    FloorSqrtIs(scale * scale, scale);
    FloorSqrtIs(1, 1);
    if far > 0 { FloorSqrtMono(1, far); }
    if scale * scale <= near <= far {
      FloorSqrtMono(near, far);
      FloorSqrtMono(scale * scale, near);
    } else {
      FloorSqrtMono(far, near);
      FloorSqrtMono(near, scale * scale);
    }
  }

  lemma FractionCarriesOver(scale: nat, c: nat, k: nat, near: nat, far: nat)
    requires 0 < far && (scale * scale <= near <= far || far <= near <= scale * scale)
    requires 1 <= k <= scale && k * (scale * scale + far) <= c * FloorSqrt(far)
    ensures (k - 1) * (scale * scale + near) <= c * FloorSqrt(near)
  {
    hide FloorSqrt;
    var a, b := FloorSqrt(far), FloorSqrt(near);
    RootsInOrder(scale, near, far);
    FractionOfRoots(scale, a, b);
    TwiceProduct(scale, b);
    CarriedRoots(scale, c, k, a, b, scale * scale + a * a, scale * scale + b * b, scale * scale + near, scale * scale + far);
  }

  /** One basis point absorbs everything the floor of the root can lose. */
  lemma CarriedRoots(scale: nat, c: nat, k: nat, a: nat, b: nat, da: nat, db: nat, near: nat, far: nat)
    requires 0 < a && a * db <= b * da && da <= far && near <= db + 2 * b && scale * (2 * b) <= db
    requires 1 <= k <= scale && k * far <= c * a
    ensures (k - 1) * near <= c * b
  {
    MulMono(da, far, k);
    CarryOver(k, c, a, b, da, db);
    MulMono(k - 1, scale, 2 * b);
    Absorb(k, db, 2 * b, near, c * b);
  }

  /** The pool fraction at `far` exceeds the one at `near` by at most one basis point. */
  lemma FractionFallsAwayFromOne(near: nat, far: nat)
    requires PRICE_SCALE <= near <= far || 1 <= far <= near <= PRICE_SCALE
    ensures PoolFractionBps(far) <= PoolFractionBps(near) + 1
  {
    hide FloorSqrt, PoolFractionBps;
    var k := PoolFractionBps(far);
    LossRangeAndZero(far);
    FractionIs(far, k);
    FractionIs(near, k - 1);
    FractionIs(near, 0);
    if k >= 1 {
      FractionCarriesOver(PRICE_SCALE_SQRT, TWO_SCALES, k, near, far);
    }
  }

  /** Moving further from an unchanged price, on either side, never lowers the loss by more than 1 bps. */
  lemma LossGrowsAwayFromOne(near: int, far: int)
    requires (PRICE_SCALE <= near <= far) || (1 <= far <= near <= PRICE_SCALE)
    ensures LossBps(far) >= LossBps(near) - 1
  {
    hide PoolFractionBps;
    LossRangeAndZero(near);
    LossRangeAndZero(far);
    FractionFallsAwayFromOne(near, far);
  }

  /** The allowance is needed: at this square the loss drops from 2 bps to 1. */
  lemma LossIsNotExactlyMonotone()
    ensures var root := 1_014_243_203;
            && PRICE_SCALE <= root * root - 1
            && LossBps(root * root - 1) == 2 && LossBps(root * root) == 1
  {
    var root := 1_014_243_203;
    FloorSqrtIs(root * root - 1, root - 1);
    FloorSqrtIs(root * root, root);
    hide FloorSqrt;
    assert PoolFractionBps(root * root - 1) == 9998;
    assert PoolFractionBps(root * root) == 9999;
  }
}
