/**
  What a TWAP means: when the accumulators really are sums of price times elapsed
  seconds, the answer of `getTWAP` is a mean of the prices in force over the
  retained window, and a short spike moves it little.
*/
module TwapBounds {
  import opened Wrappers
  import opened FloorDivision
  import opened TwapOracle

  /** The price in force during each second. */
  type PricePath = nat -> nat

  function Cumulative(p: PricePath, t: nat): nat {
    if t == 0 then 0 else Cumulative(p, t - 1) + p(t - 1)
  }

  function Reading(p0: PricePath, p1: PricePath, t: nat): Observation {
    Observation(Cumulative(p0, t), Cumulative(p1, t), t)
  }

  ghost predicate Honest(h: seq<Observation>, p0: PricePath, p1: PricePath) {
    forall i :: 0 <= i < |h| ==> h[i].timestamp >= 0 && h[i] == Reading(p0, p1, h[i].timestamp)
  }

  ghost predicate InForceBetween(p: PricePath, s: nat, e: nat, lo: nat, hi: nat) {
    forall u: nat :: s <= u < e ==> lo <= p(u) <= hi
  }

  lemma {:induction false} CumulativeBetween(p: PricePath, s: nat, e: nat, lo: nat, hi: nat)
    requires s <= e && InForceBetween(p, s, e, lo, hi)
    ensures lo * (e - s) <= Cumulative(p, e) - Cumulative(p, s) <= hi * (e - s)
    decreases e
  {
    if s < e {
      CumulativeBetween(p, s, e - 1, lo, hi);
      assert lo <= p(e - 1) <= hi;
      assert lo * (e - s) == lo * (e - 1 - s) + lo && hi * (e - s) == hi * (e - 1 - s) + hi;
    }
  }

  /**
    After any run of observations the answer uses the newest reading and one older
    reading, spans the minimum window when that is enforced, and lies between any
    bounds on the prices in force over exactly that window.
  */
  lemma TwapLiesBetweenPricesInForce(h: seq<Observation>, p0: PricePath, p1: PricePath, enforceMinWindow: bool,
                                     lo: nat, hi: nat)
    requires h != [] && Nondecreasing(h) && Honest(h, p0, p1)
    ensures var r := TwapOf(Retained(h), enforceMinWindow);
            r.Some? ==>
              var s, e := r.value.start.timestamp, r.value.end.timestamp;
              && r.value.end == h[|h| - 1] && r.value.start in h
              && 0 <= s < e && r.value.timeWindow == e - s
              && (enforceMinWindow ==> e - s >= MIN_TWAP_WINDOW_SECONDS)
              && (InForceBetween(p0, s, e, lo, hi) ==> lo <= r.value.price0 <= hi)
              && (InForceBetween(p1, s, e, lo, hi) ==> lo <= r.value.price1 <= hi)
  {
    hide Retained, Nondecreasing, Cumulative, InForceBetween;
    CacheBounds(h);
    var c := Retained(h);
    assert c[0] == h[|h| - |c|] && c[|c| - 1] == h[|h| - 1];
    var s, e := c[0].timestamp, c[|c| - 1].timestamp;
    if s < e && InForceBetween(p0, s, e, lo, hi) { MeanBetween(p0, s, e, lo, hi); }
    if s < e && InForceBetween(p1, s, e, lo, hi) { MeanBetween(p1, s, e, lo, hi); }
  }

  lemma MeanBetween(p: PricePath, s: nat, e: nat, lo: nat, hi: nat)
    requires s < e && InForceBetween(p, s, e, lo, hi)
    ensures lo <= TruncDiv(Cumulative(p, e) - Cumulative(p, s), e - s) <= hi
  {
    CumulativeBetween(p, s, e, lo, hi);
    var area := Cumulative(p, e) - Cumulative(p, s);
    MulMono(0, lo, e - s);
    AtMostQuotient(lo, area, e - s);
    AtMostQuotient(hi + 1, area, e - s);
    Distribute(hi, 1, e - s);
  }

  // ----- resistance to short spikes

  /** In how many seconds of [s, e) the two paths differ. */
  function DifferingSeconds(p: PricePath, q: PricePath, s: nat, e: nat): nat
    requires s <= e
    decreases e
  {
    if s == e then 0 else DifferingSeconds(p, q, s, e - 1) + if p(e - 1) == q(e - 1) then 0 else 1
  }

  lemma {:induction false} SpikeArea(p: PricePath, q: PricePath, s: nat, e: nat, cap: nat)
    requires s <= e && InForceBetween(p, s, e, 0, cap) && InForceBetween(q, s, e, 0, cap)
    ensures (Cumulative(p, e) - Cumulative(p, s)) - (Cumulative(q, e) - Cumulative(q, s))
            <= DifferingSeconds(p, q, s, e) * cap
    decreases e
  {
    if s < e {
      SpikeArea(p, q, s, e - 1, cap);
      assert 0 <= p(e - 1) <= cap && 0 <= q(e - 1);
      Distribute(DifferingSeconds(p, q, s, e - 1), 1, cap);
    }
  }

  lemma SpikeMovesMeanLittle(p: PricePath, q: PricePath, s: nat, e: nat, cap: nat)
    requires MIN_TWAP_WINDOW_SECONDS <= e - s
    requires InForceBetween(p, s, e, 0, cap) && InForceBetween(q, s, e, 0, cap)
    ensures var d := DifferingSeconds(p, q, s, e);
            TruncDiv(Cumulative(p, e) - Cumulative(p, s), e - s) - TruncDiv(Cumulative(q, e) - Cumulative(q, s), e - s)
            <= d * cap / MIN_TWAP_WINDOW_SECONDS + 1
  {
    hide Cumulative, DifferingSeconds;
    SpikeArea(p, q, s, e, cap);
    CumulativeGrows(p, s, e);
    CumulativeGrows(q, s, e);
    var d := DifferingSeconds(p, q, s, e);
    MulMono(0, d, cap);
    QuotientGap(Cumulative(p, e) - Cumulative(p, s), Cumulative(q, e) - Cumulative(q, s), d * cap, e - s,
                MIN_TWAP_WINDOW_SECONDS);
  }

  lemma {:induction false} DifferingBothWays(p: PricePath, q: PricePath, s: nat, e: nat)
    requires s <= e
    ensures DifferingSeconds(p, q, s, e) == DifferingSeconds(q, p, s, e)
    decreases e
  {
    if s < e {
      DifferingBothWays(p, q, s, e - 1);
    }
  }

  ghost predicate SameTimestamps(h: seq<Observation>, g: seq<Observation>) {
    |h| == |g| && forall i :: 0 <= i < |h| ==> h[i].timestamp == g[i].timestamp
  }

  /** What is kept depends on the timestamps only. */
  lemma SameTimestampsKeepTheSame(h: seq<Observation>, g: seq<Observation>)
    requires h != [] && Nondecreasing(h) && SameTimestamps(h, g)
    ensures Nondecreasing(g) && SameTimestamps(Retained(h), Retained(g))
  {
    hide Retained, Recent;
    CacheIsTheRecentSuffix(h);
    CacheIsTheRecentSuffix(g);
    var w, v := Recent(h, Newest(h)), Recent(g, Newest(g));
    assert v == w;
  }

  /** How far a price answered from one path is from the one answered from the other. */
  ghost predicate WithinSpike(x: int, y: int, p: PricePath, q: PricePath, s: nat, e: nat, cap: nat)
    requires s <= e
  {
    InForceBetween(p, s, e, 0, cap) && InForceBetween(q, s, e, 0, cap) ==>
      var gap := DifferingSeconds(p, q, s, e) * cap / MIN_TWAP_WINDOW_SECONDS + 1;
      x - y <= gap && y - x <= gap
  }

  /**
    Manipulation resistance, quantified: of two runs observed at the same times, in
    one of which the prices were distorted, either both get an enforced TWAP or
    neither does.  With prices capped at `cap` and distorted in d seconds of the
    window, the two answers differ by at most d * cap / 300 + 1.
  */
  lemma SpikeMovesTwapLittle(h: seq<Observation>, p0: PricePath, p1: PricePath,
                             g: seq<Observation>, q0: PricePath, q1: PricePath, cap: nat)
    requires h != [] && Nondecreasing(h) && SameTimestamps(h, g)
    requires Honest(h, p0, p1) && Honest(g, q0, q1)
    ensures var x, y := TwapOf(Retained(h), true), TwapOf(Retained(g), true);
            && (x.Some? <==> y.Some?)
            && (x.Some? ==>
                  var s, e := x.value.start.timestamp, x.value.end.timestamp;
                  && 0 <= s <= e && s == y.value.start.timestamp && e == y.value.end.timestamp
                  && WithinSpike(x.value.price0, y.value.price0, p0, q0, s, e, cap)
                  && WithinSpike(x.value.price1, y.value.price1, p1, q1, s, e, cap))
  {
    hide Retained, Nondecreasing, Cumulative, WithinSpike;
    SameTimestampsKeepTheSame(h, g);
    CacheBounds(h);
    CacheBounds(g);
    var c, d := Retained(h), Retained(g);
    assert |c| == |d| && c[0] == h[|h| - |c|] && d[0] == g[|g| - |d|];
    assert c[|c| - 1] == h[|h| - 1] && d[|d| - 1] == g[|g| - 1];
    var s, e := c[0].timestamp, c[|c| - 1].timestamp;
    if TwapOf(c, true).Some? {
      MeansWithinSpike(p0, q0, s, e, cap);
      MeansWithinSpike(p1, q1, s, e, cap);
    }
  }

  lemma MeansWithinSpike(p: PricePath, q: PricePath, s: nat, e: nat, cap: nat)
    requires MIN_TWAP_WINDOW_SECONDS <= e - s
    ensures WithinSpike(TruncDiv(Cumulative(p, e) - Cumulative(p, s), e - s),
                        TruncDiv(Cumulative(q, e) - Cumulative(q, s), e - s), p, q, s, e, cap)
  {
    hide InForceBetween, Cumulative, DifferingSeconds;
    if InForceBetween(p, s, e, 0, cap) && InForceBetween(q, s, e, 0, cap) {
      SpikeMovesMeanLittle(p, q, s, e, cap);
      SpikeMovesMeanLittle(q, p, s, e, cap);
      DifferingBothWays(p, q, s, e);
    }
  }

  lemma {:induction false} CumulativeGrows(p: PricePath, s: nat, e: nat)
    requires s <= e
    ensures Cumulative(p, s) <= Cumulative(p, e)
    decreases e
  {
    if s < e {
      CumulativeGrows(p, s, e - 1);
    }
  }

  lemma QuotientGap(a: int, b: int, gap: int, w: int, minW: int)
    requires 0 < minW <= w && a - b <= gap && 0 <= gap
    ensures a / w - b / w <= gap / minW + 1
  {
    var y, z := b / w, gap / minW;
    QuotientBounds(b, w);
    QuotientBounds(gap, minW);
    MulMono(minW, w, z + 1);
    Distribute(y + 1, z + 1, w);
    AtMostQuotient(y + z + 2, a, w);
  }
}
