/** The smaller of two numbers, and the few facts about floor division the models need. */
module FloorDivision {

  function Min(a: nat, b: nat): nat { if a <= b then a else b }

  /** BigInt division, which truncates toward zero. */
  function TruncDiv(a: int, b: int): int
    requires b > 0
  {
    if a >= 0 then a / b else -(-a / b)
  }

  /** The quotient with its fraction dropped, whatever the sign. */
  predicate IsTruncated(q: int, a: int, b: int) {
    if a >= 0 then q * b <= a < (q + 1) * b else (q - 1) * b < a <= q * b
  }

  lemma TruncDivIs(a: int, b: int)
    requires b > 0
    ensures IsTruncated(TruncDiv(a, b), a, b)
  {
    QuotientBounds(if a >= 0 then a else -a, b);
    var q := TruncDiv(a, b);
    assert (-q) * b == -(q * b) && (1 - q) * b == -((q - 1) * b);
  }

  lemma MulMono(a: int, b: int, k: int)
    requires a <= b && 0 <= k
    ensures a * k <= b * k && k * a <= k * b
  {
  }

  lemma Distribute(a: int, b: int, k: int)
    ensures (a + b) * k == a * k + b * k && (a - b) * k == a * k - b * k
  {
  }

  /** k <= floor(a / b) exactly when k * b <= a. */
  lemma AtMostQuotient(k: int, a: int, b: int)
    requires b > 0
    ensures k <= a / b <==> k * b <= a
  {
    var q := a / b;
    assert a == q * b + a % b;
    if k <= q {
      MulMono(k, q, b);
    } else {
      MulMono(q + 1, k, b);
      Distribute(q, 1, b);
    }
  }

  /** floor(a / b) is the largest integer whose product with b is at most a. */
  lemma QuotientBounds(a: int, b: int)
    requires b > 0
    ensures (a / b) * b <= a < (a / b + 1) * b
  {
    AtMostQuotient(a / b, a, b);
    AtMostQuotient(a / b + 1, a, b);
  }
}
