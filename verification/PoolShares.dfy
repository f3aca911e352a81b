/**
  Amounts in a two-token pool: the add-liquidity quote and the pro-rata position
  claim, all in floor division.
*/
module PoolShares {
  import opened Wrappers
  import opened FloorDivision
  import opened IntegerSqrt

  const MIN_LIQUIDITY := 1000

  datatype Pool = Pool(reserveA: nat, reserveB: nat, supply: nat)

  datatype Quote = Quote(amountA: nat, amountB: nat, lp: int)

  /** `None` is the division by an empty reserve, which the source lets throw. */
  function AddLiquidityQuote(pair: Option<Pool>, amountADesired: nat): Option<Quote> {
    match pair
    case None =>
      Some(Quote(amountADesired, amountADesired, FloorSqrt(amountADesired * amountADesired) - MIN_LIQUIDITY))
    case Some(p) =>
      if p.reserveA == 0 then None else
      var amountB := amountADesired * p.reserveB / p.reserveA;
      assert amountADesired * p.reserveB >= 0;
      Some(Quote(amountADesired, amountB,
                 if p.supply > 0 then amountADesired * p.supply / p.reserveA
                 else FloorSqrt(amountADesired * amountB) - MIN_LIQUIDITY))
  }

  function Claim(reserve: nat, balance: nat, supply: nat): nat {
    if supply == 0 then 0 else Quotient(reserve, balance, supply)
  }

  function Quotient(reserve: nat, balance: nat, supply: nat): nat
    requires supply > 0
  {
    MulMono(0, reserve, balance);
    AtMostQuotient(0, reserve * balance, supply);
    reserve * balance / supply
  }

  /** The first provider's estimate is exact: the desired amount less the locked minimum. */
  lemma FirstProviderEstimate(amountADesired: nat)
    ensures AddLiquidityQuote(None, amountADesired) == Some(Quote(amountADesired, amountADesired, amountADesired - MIN_LIQUIDITY))
  {
    assert (amountADesired + 1) * (amountADesired + 1) == amountADesired * amountADesired + 2 * amountADesired + 1;
    FloorSqrtIs(amountADesired * amountADesired, amountADesired);
  }

  /**
    With reserves but no supply the LP estimate is the floored geometric mean of the
    two amounts less 1000; an empty reserve A is the only refusal.
  */
  lemma UnsuppliedPoolEstimate(p: Pool, a: nat)
    ensures AddLiquidityQuote(Some(p), a) == None <==> p.reserveA == 0
    ensures p.reserveA > 0 ==>
              var q := AddLiquidityQuote(Some(p), a).value;
              && q.amountA == a
              && q.amountB * p.reserveA <= a * p.reserveB < (q.amountB + 1) * p.reserveA
              && (p.supply == 0 ==>
                    && 0 <= q.lp + 1000
                    && (q.lp + 1000) * (q.lp + 1000) <= a * q.amountB < (q.lp + 1001) * (q.lp + 1001))
  {
    if p.reserveA > 0 {
      QuotientBounds(a * p.reserveB, p.reserveA);
    }
  }

  // ----- adding liquidity and claiming it back

  /**
    The pool after a quote has been deposited and the quoted LP tokens minted.  The
    pair contract does the minting; that it mints the quoted number is assumed.
  */
  function Deposited(p: Pool, q: Quote): Pool
    requires q.lp >= 0
  {
    Pool(p.reserveA + q.amountA, p.reserveB + q.amountB, p.supply + q.lp)
  }

  predicate Funded(p: Pool) { p.reserveA > 0 && p.reserveB > 0 && p.supply > 0 }

  /**
    What a quote promises: token B and LP tokens are the largest whole amounts in
    the pool's proportions, and the LP tokens stay within one unit of what the
    floored amount of token B would buy, on either side.
  */
  lemma QuoteBounds(p: Pool, a: nat)
    requires Funded(p)
    ensures AddLiquidityQuote(Some(p), a).Some?
    ensures var q := AddLiquidityQuote(Some(p), a).value;
            && q.amountA == a && 0 <= q.lp
            && q.amountB * p.reserveA <= a * p.reserveB < (q.amountB + 1) * p.reserveA
            && q.lp * p.reserveA <= a * p.supply < (q.lp + 1) * p.reserveA
            && q.lp * p.reserveB < (q.amountB + 1) * p.supply
            && q.amountB * p.supply < (q.lp + 1) * p.reserveB
  {
    hide FloorSqrt;
    var q := AddLiquidityQuote(Some(p), a).value;
    MulMono(0, a, p.supply);
    MulMono(0, a, p.reserveB);
    AtMostQuotient(0, a * p.supply, p.reserveA);
    QuotientBounds(a * p.supply, p.reserveA);
    QuotientBounds(a * p.reserveB, p.reserveA);
    // lp * rA * rB <= a * T * rB < (b + 1) * rA * T, and rA cancels
    CrossBound(q.lp, p.reserveA, p.reserveB, a, p.supply, q.amountB);
    CrossBound(q.amountB, p.reserveA, p.supply, a, p.reserveB, q.lp);
  }

  lemma CrossBound(lp: nat, ra: nat, rb: nat, a: nat, t: nat, b: nat)
    requires ra > 0 && t > 0 && lp * ra <= a * t && a * rb < (b + 1) * ra
    ensures lp * rb < (b + 1) * t
  {
    MulMono(lp * ra, a * t, rb);
    MulMono(a * rb + 1, (b + 1) * ra, t);
    Distribute(a * rb, 1, t);
    assert lp * ra * rb == ra * (lp * rb);
    assert a * t * rb == a * rb * t;
    assert (b + 1) * ra * t == ra * ((b + 1) * t);
    if lp * rb >= (b + 1) * t { MulMono((b + 1) * t, lp * rb, ra); }
  }

  /** A share lp of a deposit x claims at most x. */
  lemma ClaimAtMost(r: nat, x: nat, lp: nat, t: nat)
    requires t > 0 && lp * r < (x + 1) * t
    ensures Claim(r + x, lp, t + lp) <= x
  {
    AtMostQuotient(x + 1, (r + x) * lp, t + lp);
    Distribute(r, x, lp);
    Distribute(t, lp, x + 1);
    Distribute(x, 1, lp);
  }

  /** It falls short by at most one unit and r / (t + lp). */
  lemma ClaimAtLeast(r: nat, x: nat, lp: nat, t: nat)
    requires t > 0 && x * t < (lp + 1) * r
    ensures (x - 1 - Claim(r + x, lp, t + lp)) * (t + lp) < r
  {
    var claim := Claim(r + x, lp, t + lp);
    QuotientBounds((r + x) * lp, t + lp);
    ShortBy(r, x, lp, t, (claim + 1) * (t + lp));
    Distribute(x, claim + 1, t + lp);
  }

  lemma ShortBy(r: nat, x: nat, lp: nat, t: nat, above: int)
    requires x * t < (lp + 1) * r && (r + x) * lp < above
    ensures x * (t + lp) - above < r
  {
    Distribute(r, x, lp);
    Distribute(lp, 1, r);
    Distribute(t, lp, x);
  }

  lemma ClaimBound(r: nat, x: nat, lp: nat, t: nat)
    requires t > 0 && lp * r < (x + 1) * t && x * t < (lp + 1) * r
    ensures Claim(r + x, lp, t + lp) <= x
    ensures (x - 1 - Claim(r + x, lp, t + lp)) * (t + lp) < r
  {
    ClaimAtMost(r, x, lp, t);
    ClaimAtLeast(r, x, lp, t);
  }

  /**
    Claiming the LP tokens a quote mints never returns more of either token than was
    deposited, and loses at most one unit plus the worth of one LP token.
  */
  lemma AddThenClaimNeverGains(p: Pool, a: nat)
    requires Funded(p)
    ensures AddLiquidityQuote(Some(p), a).Some?
    ensures var q := AddLiquidityQuote(Some(p), a).value;
            && q.lp >= 0
            && var after := Deposited(p, q);
               && Claim(after.reserveA, q.lp, after.supply) <= q.amountA
               && Claim(after.reserveB, q.lp, after.supply) <= q.amountB
               && (q.amountA - 1 - Claim(after.reserveA, q.lp, after.supply)) * after.supply < p.reserveA
               && (q.amountB - 1 - Claim(after.reserveB, q.lp, after.supply)) * after.supply < p.reserveB
  {
    QuoteBounds(p, a);
    var q := AddLiquidityQuote(Some(p), a).value;
    hide FloorSqrt, AddLiquidityQuote, Claim;
    Distribute(a, 1, p.supply);
    ClaimBound(p.reserveA, a, q.lp, p.supply);
    ClaimBound(p.reserveB, q.amountB, q.lp, p.supply);
  }

  /** What x * t >= lp * r means for holders of the old supply. */
  lemma OldHoldersExactly(r: nat, x: nat, lp: nat, t: nat, balance: nat)
    requires t > 0
    ensures x * t >= lp * r ==> Claim(r + x, balance, t + lp) >= Claim(r, balance, t)
    ensures Claim(r + x, t, t + lp) >= Claim(r, t, t) <==> x * t >= lp * r
  {
    hide Claim;
    WholeSupplyClaims(r, t);
    ClaimAbove(r, r + x, t, t + lp);
    if x * t >= lp * r {
      var k := Claim(r, balance, t);
      ClaimAbove(k, r, balance, t);
      KeepsShare(k, r, x, lp, t, balance);
      ClaimAbove(k, r + x, balance, t + lp);
    }
    Distribute(r, x, t);
    Distribute(t, lp, r);
  }

  lemma ClaimAbove(k: nat, r: nat, balance: nat, t: nat)
    requires t > 0
    ensures k <= Claim(r, balance, t) <==> k * t <= r * balance
  {
    AtMostQuotient(k, r * balance, t);
  }

  lemma WholeSupplyClaims(r: nat, t: nat)
    requires t > 0
    ensures Claim(r, t, t) == r
  {
    ClaimAbove(r, r, t, t);
    ClaimAbove(r + 1, r, t, t);
    Distribute(r, 1, t);
  }

  lemma KeepsShare(k: nat, r: nat, x: nat, lp: nat, t: nat, balance: nat)
    requires t > 0 && k * t <= r * balance && lp * r <= x * t
    ensures k * (t + lp) <= (r + x) * balance
  {
    Distribute(t, lp, k);
    Distribute(r, x, balance);
    MulMono(k * t, r * balance, lp);
    MulMono(lp * r, x * t, balance);
    assert k * t * lp == t * (k * lp);
    assert r * balance * lp == lp * r * balance;
    assert x * t * balance == t * (x * balance);
    if k * lp > x * balance { MulMono(x * balance + 1, k * lp, t); Distribute(x * balance, 1, t); }
  }

  /** Flooring takes more from the quoted token B, in proportion, than from the quoted LP tokens. */
  predicate Dilutes(p: Pool, a: nat)
    requires Funded(p)
  {
    (a * p.reserveB % p.reserveA) * p.supply > (a * p.supply % p.reserveA) * p.reserveB
  }

  lemma DilutesExactly(p: Pool, a: nat, amountB: int, lp: int)
    requires Funded(p) && amountB == a * p.reserveB / p.reserveA && lp == a * p.supply / p.reserveA
    ensures Dilutes(p, a) <==> amountB * p.supply < lp * p.reserveB
  {
    var x, y := a * p.reserveB % p.reserveA, a * p.supply % p.reserveA;
    DivMod(a * p.reserveB, p.reserveA);
    DivMod(a * p.supply, p.reserveA);
    Remainders(p.reserveA, p.reserveB, p.supply, a, amountB, lp, x, y);
  }

  lemma DivMod(a: int, b: int)
    requires b > 0
    ensures a == a / b * b + a % b
  {
  }

  lemma Remainders(ra: nat, rb: nat, t: nat, a: nat, b: int, lp: int, x: int, y: int)
    requires ra > 0 && a * rb == b * ra + x && a * t == lp * ra + y
    ensures ra * (b * t) + x * t == ra * (lp * rb) + y * rb
    ensures x * t > y * rb <==> b * t < lp * rb
  {
    Distribute(b * ra, x, t);
    Distribute(lp * ra, y, rb);
    assert b * ra * t == ra * (b * t) && lp * ra * rb == ra * (lp * rb);
    assert a * rb * t == a * t * rb;
    Distribute(lp * rb, b * t, ra);
    if b * t < lp * rb { MulMono(1, lp * rb - b * t, ra); } else { MulMono(0, b * t - lp * rb, ra); }
  }

  ghost predicate NoHolderLoses(before: nat, supply: nat, after: nat, newSupply: nat) {
    forall balance: nat :: balance <= supply ==> Claim(after, balance, newSupply) >= Claim(before, balance, supply)
  }

  /**
    No earlier holder of any balance loses token A.  In token B the floored amount can
    be too small: some earlier holder's claim falls, and the whole supply's with it,
    exactly when the remainders of the two divisions compare the wrong way.
  */
  lemma DepositAndEarlierHolders(p: Pool, a: nat)
    requires Funded(p)
    ensures AddLiquidityQuote(Some(p), a).Some?
    ensures var q := AddLiquidityQuote(Some(p), a).value;
            && q.lp >= 0
            && var after := Deposited(p, q);
               && NoHolderLoses(p.reserveA, p.supply, after.reserveA, after.supply)
               && (NoHolderLoses(p.reserveB, p.supply, after.reserveB, after.supply) <==> !Dilutes(p, a))
               && (Claim(after.reserveB, p.supply, after.supply) < Claim(p.reserveB, p.supply, p.supply) <==> Dilutes(p, a))
  {
    QuoteBounds(p, a);
    var q := AddLiquidityQuote(Some(p), a).value;
    DilutesExactly(p, a, q.amountB, q.lp);
    hide FloorSqrt, AddLiquidityQuote, Claim, Dilutes;
    var after := Deposited(p, q);
    forall balance: nat | balance <= p.supply
      ensures Claim(after.reserveA, balance, after.supply) >= Claim(p.reserveA, balance, p.supply)
      ensures !Dilutes(p, a) ==> Claim(after.reserveB, balance, after.supply) >= Claim(p.reserveB, balance, p.supply)
    {
      OldHoldersExactly(p.reserveA, a, q.lp, p.supply, balance);
      OldHoldersExactly(p.reserveB, q.amountB, q.lp, p.supply, balance);
    }
    OldHoldersExactly(p.reserveB, q.amountB, q.lp, p.supply, p.supply);
  }

  /** The falling case does occur. */
  lemma DepositCanDiluteTokenB()
    ensures var p := Pool(10, 1, 1000);
            && AddLiquidityQuote(Some(p), 9) == Some(Quote(9, 0, 900))
            && Dilutes(p, 9) && Claim(1, 1000, 1000) == 1 && Claim(1, 1000, 1900) == 0
  {
  }

  // ----- claims of all holders together

  function Sum(xs: seq<nat>): nat {
    if xs == [] then 0 else xs[0] + Sum(xs[1..])
  }

  function Claims(reserve: nat, balances: seq<nat>, supply: nat): nat {
    if balances == [] then 0 else Claim(reserve, balances[0], supply) + Claims(reserve, balances[1..], supply)
  }

  lemma {:induction false} ClaimsTimesSupply(reserve: nat, balances: seq<nat>, supply: nat)
    requires supply > 0
    ensures Claims(reserve, balances, supply) * supply <= reserve * Sum(balances)
    ensures reserve * Sum(balances) <= Claims(reserve, balances, supply) * supply + |balances| * (supply - 1)
  {
    if balances != [] {
      var b, rest := balances[0], balances[1..];
      ClaimsTimesSupply(reserve, rest, supply);
      QuotientBounds(reserve * b, supply);
      OneMoreClaim(reserve, supply, b, Sum(rest), Claim(reserve, b, supply), Claims(reserve, rest, supply), |rest|);
    }
  }

  lemma OneMoreClaim(r: nat, t: nat, b: nat, balances: nat, claim: nat, claims: nat, n: nat)
    requires t > 0 && claim * t <= r * b < (claim + 1) * t
    requires claims * t <= r * balances <= claims * t + n * (t - 1)
    ensures (claim + claims) * t <= r * (b + balances) <= (claim + claims) * t + (n + 1) * (t - 1)
  {
    Distribute(b, balances, r);
    Distribute(claim, claims, t);
    Distribute(claim, 1, t);
    Distribute(n, 1, t - 1);
  }

  /**
    Pro-rata claims never exceed the reserve while balances sum to at most the
    supply; when they sum to it exactly, less than one unit per holder is left over.
  */
  lemma ClaimsConserveTheReserve(reserve: nat, balances: seq<nat>, supply: nat)
    requires Sum(balances) <= supply
    ensures Claims(reserve, balances, supply) <= reserve
    ensures Sum(balances) == supply > 0 ==> reserve - Claims(reserve, balances, supply) < |balances|
  {
    if supply == 0 {
      NoSupplyNoClaims(reserve, balances);
    } else {
      ClaimsTimesSupply(reserve, balances, supply);
      MulMono(Sum(balances), supply, reserve);
      DustBound(reserve, supply, Claims(reserve, balances, supply), |balances|);
    }
  }

  lemma DustBound(r: nat, t: nat, claimed: nat, n: nat)
    requires t > 0 && claimed * t <= r * t
    ensures claimed <= r
    ensures n > 0 && r * t <= claimed * t + n * (t - 1) ==> r - claimed < n
  {
    if claimed > r { MulMono(r + 1, claimed, t); Distribute(r, 1, t); }
    Distribute(r, claimed, t);
    Distribute(t, 1, n);
    if r - claimed >= n { MulMono(n, r - claimed, t); }
  }

  lemma {:induction false} NoSupplyNoClaims(reserve: nat, balances: seq<nat>)
    ensures Claims(reserve, balances, 0) == 0
  {
    if balances != [] {
      NoSupplyNoClaims(reserve, balances[1..]);
    }
  }
}
