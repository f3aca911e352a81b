/** The Newton square root shared by the alerts and liquidity modules. */
module IntegerSqrt {
  import opened FloorDivision

  /** Reference definition: count up to the largest integer whose square fits. */
  function FloorSqrt(value: nat): (r: nat)
    ensures r * r <= value < (r + 1) * (r + 1)
  {
    if value == 0 then 0 else
    var r := FloorSqrt(value - 1);
    if (r + 1) * (r + 1) <= value then r + 1 else r
  }

  lemma SquareMono(a: nat, b: nat)
    requires a <= b
    ensures a * a <= b * b
  {
  }

  lemma FloorSqrtIs(value: nat, r: nat)
    requires r * r <= value < (r + 1) * (r + 1)
    ensures FloorSqrt(value) == r
  {
    var s := FloorSqrt(value);
    if s < r { SquareMono(s + 1, r); }
    if r < s { SquareMono(r + 1, s); }
  }

  lemma FloorSqrtMono(a: nat, b: nat)
    requires a <= b
    ensures FloorSqrt(a) <= FloorSqrt(b)
  {
    hide FloorSqrt;
    if FloorSqrt(b) + 1 <= FloorSqrt(a) { SquareMono(FloorSqrt(b) + 1, FloorSqrt(a)); }
  }

  /** A Newton step from at or above the root lands at or above the root. */
  lemma NewtonStaysAbove(value: nat, x: nat)
    requires x > 0
    ensures var y := (x + value / x) / 2; value < (y + 1) * (y + 1)
  {
    var q := value / x;
    QuotientBounds(value, x);
    HalfSumSquared(q + 1, x, (x + q) / 2 + 1);
  }

  /** The square of half the sum is at least the product. */
  lemma HalfSumSquared(a: nat, b: nat, h: nat)
    requires a + b <= 2 * h
    ensures a * b <= h * h
  {
    var d := a - h;
    MulMono(b, h - d, a);
    assert (h + d) * (h - d) == h * h - d * d;
    assert d * d >= 0;
  }

  /** When a step no longer decreases, the square fits. */
  lemma NewtonStops(value: nat, x: nat)
    requires x > 0 && (x + value / x) / 2 >= x
    ensures x * x <= value
  {
    AtMostQuotient(x, value, x);
  }

  /** Terminates on every natural number with its floor square root. */
  method Sqrt(value: nat) returns (x: nat)
    ensures x == FloorSqrt(value)
  {
    hide FloorSqrt;
    if value == 0 {
      FloorSqrtIs(0, 0);
      return 0;
    }
    x := value;
    var y := (x + 1) / 2;
    AtMostQuotient(1, value, value);
    AtMostQuotient(2, value, value);
    assert value <= x * x + x;
    while y < x
      invariant 0 < x && y == (x + value / x) / 2
      invariant value < (x + 1) * (x + 1)
      decreases x
    {
      NewtonStaysAbove(value, x);
      AtMostQuotient(1, value, 1);
      x := y;
      y := (x + value / x) / 2;
    }
    NewtonStops(value, x);
    FloorSqrtIs(value, x);
  }
}
