/**
  Fee revenue of a pair: one loop over its swap events keeps a running total, a
  total per input token and a history; the per-token list is then sorted.
*/
module FeeRevenue {
  import opened Wrappers
  import opened FloorDivision

  const BPS_DENOMINATOR := 10_000

  /** A token stands for its position in the order `localeCompare` puts token addresses in. */
  type Token = nat

  datatype SwapEvent = SwapEvent(ledger: int, tokenIn: Token, amountIn: int, feeBps: int)

  datatype FeeEvent = FeeEvent(ledger: int, tokenIn: Token, feeBps: int, feeStroops: int)

  datatype TokenTotal = TokenTotal(token: Token, feeStroops: int)

  function Fee(e: SwapEvent): int {
    TruncDiv(e.amountIn * e.feeBps, BPS_DENOMINATOR)
  }

  /** Reference definition of the history: the in-window swaps with a positive fee, in event order. */
  function History(events: seq<SwapEvent>, toLedger: int): seq<FeeEvent> {
    if events == [] then [] else
    var e := events[|events| - 1];
    History(events[..|events| - 1], toLedger) +
    if e.ledger <= toLedger && Fee(e) > 0 then [FeeEvent(e.ledger, e.tokenIn, e.feeBps, Fee(e))] else []
  }

  /** A swap is counted if it lies in the window and its fee is at least one stroop. */
  function CountedAt(events: seq<SwapEvent>, toLedger: int): nat -> bool {
    (i: nat) => i < |events| && events[i].ledger <= toLedger && events[i].amountIn * events[i].feeBps >= 10_000
  }

  /** The row a counted swap leaves: its own fields, and its fee rounded down to whole stroops. */
  predicate RowFor(f: FeeEvent, e: SwapEvent) {
    && f.ledger == e.ledger && f.tokenIn == e.tokenIn && f.feeBps == e.feeBps
    && f.feeStroops * 10_000 <= e.amountIn * e.feeBps < (f.feeStroops + 1) * 10_000
  }

  function RowAt(events: seq<SwapEvent>): (nat, FeeEvent) -> bool {
    (i: nat, f: FeeEvent) => i < |events| && RowFor(f, events[i])
  }

  /** The history holds one row for each counted swap, in event order, and no other. */
  lemma {:induction false} HistoryIs(events: seq<SwapEvent>, toLedger: int, n: nat) returns (picked: seq<nat>)
    requires n <= |events|
    ensures Selects(History(events[..n], toLedger), picked, n, CountedAt(events, toLedger), RowAt(events))
  {
    picked := [];
    if n > 0 {
      hide Selects;
      var last := n - 1;
      picked := HistoryIs(events, toLedger, last);
      HistoryNext(events, last, toLedger);
      FeeIs(events[last]);
      var e, h, wanted := events[last], History(events[..last], toLedger), CountedAt(events, toLedger);
      hide Fee, History;
      SelectsNext(h, picked, last, wanted, RowAt(events),
                  if wanted(last) then [FeeEvent(e.ledger, e.tokenIn, e.feeBps, Fee(e))] else []);
      assert h + [] == h;
      if wanted(last) { picked := picked + [last]; }
    }
  }

  lemma FeeIs(e: SwapEvent)
    ensures Fee(e) > 0 <==> e.amountIn * e.feeBps >= 10_000
    ensures Fee(e) > 0 ==> Fee(e) * 10_000 <= e.amountIn * e.feeBps < (Fee(e) + 1) * 10_000
  {
    TruncDivIs(e.amountIn * e.feeBps, BPS_DENOMINATOR);
  }

  function SumHistory(h: seq<FeeEvent>): int {
    if h == [] then 0 else SumHistory(h[..|h| - 1]) + h[|h| - 1].feeStroops
  }

  /** What one token earned over a history. */
  function Earned(h: seq<FeeEvent>, token: Token): int {
    if h == [] then 0 else
    Earned(h[..|h| - 1], token) + if h[|h| - 1].tokenIn == token then h[|h| - 1].feeStroops else 0
  }

  function SumTotals(ts: seq<TokenTotal>): int {
    if ts == [] then 0 else SumTotals(ts[..|ts| - 1]) + ts[|ts| - 1].feeStroops
  }

  // ----- the final sort

  /** The comparator's strict order: larger fees first, equal fees by token. */
  predicate Before(a: TokenTotal, b: TokenTotal) {
    a.feeStroops > b.feeStroops || (a.feeStroops == b.feeStroops && a.token < b.token)
  }

  ghost predicate SortedTotals(ts: seq<TokenTotal>) {
    forall i, j :: 0 <= i < j < |ts| ==> Before(ts[i], ts[j])
  }

  ghost predicate DistinctTokens(ts: seq<TokenTotal>) {
    forall i, j :: 0 <= i < j < |ts| ==> ts[i].token != ts[j].token
  }

  lemma {:induction false} SumTotalsSplit(a: seq<TokenTotal>, b: seq<TokenTotal>)
    ensures SumTotals(a + b) == SumTotals(a) + SumTotals(b)
    decreases |b|
  {
    if b == [] {
      assert a + b == a;
    } else {
      assert (a + b)[..|a + b| - 1] == a + b[..|b| - 1];
      SumTotalsSplit(a, b[..|b| - 1]);
    }
  }

  lemma SumTotalsInserted(front: seq<TokenTotal>, x: TokenTotal, back: seq<TokenTotal>)
    ensures SumTotals(front + [x] + back) == SumTotals(front + back) + x.feeStroops
  {
    SumTotalsSplit(front, back);
    SumTotalsSplit(front + [x], back);
    assert (front + [x])[..|front|] == front;
  }

  lemma MultisetInserted(ts: seq<TokenTotal>, k: nat, x: TokenTotal)
    requires k <= |ts|
    ensures multiset(ts[..k] + [x] + ts[k..]) == multiset(ts) + multiset{x}
  {
    assert ts == ts[..k] + ts[k..];
  }

  /** One insertion of the sort. */
  method InsertTotal(ts: seq<TokenTotal>, x: TokenTotal) returns (r: seq<TokenTotal>)
    requires SortedTotals(ts) && forall i :: 0 <= i < |ts| ==> ts[i].token != x.token
    ensures SortedTotals(r) && multiset(r) == multiset(ts) + multiset{x} && SumTotals(r) == SumTotals(ts) + x.feeStroops
  {
    hide SumTotals;
    var k := 0;
    while k < |ts| && Before(ts[k], x)
      invariant 0 <= k <= |ts|
      invariant forall i :: 0 <= i < k ==> Before(ts[i], x)
    {
      k := k + 1;
    }
    SumTotalsInserted(ts[..k], x, ts[k..]);
    assert ts[..k] + ts[k..] == ts;
    MultisetInserted(ts, k, x);
    r := ts[..k] + [x] + ts[k..];
  }

  /** Sorts distinct tokens' totals; the result is strictly ordered, so it is the only sorted arrangement. */
  method SortTotals(list: seq<TokenTotal>) returns (sorted: seq<TokenTotal>)
    requires DistinctTokens(list)
    ensures SortedTotals(sorted) && multiset(sorted) == multiset(list) && SumTotals(sorted) == SumTotals(list)
  {
    hide SortedTotals, SumTotals;
    sorted := [];
    NothingToSort();
    for n := 0 to |list|
      invariant SortedTotals(sorted) && multiset(sorted) == multiset(list[..n]) && SumTotals(sorted) == SumTotals(list[..n])
    {
      NextToSort(list, n, sorted);
      sorted := InsertTotal(sorted, list[n]);
    }
    assert list[..|list|] == list;
  }

  lemma NextToSort(list: seq<TokenTotal>, n: nat, sorted: seq<TokenTotal>)
    requires n < |list| && DistinctTokens(list) && multiset(sorted) == multiset(list[..n])
    ensures forall i :: 0 <= i < |sorted| ==> sorted[i].token != list[n].token
    ensures multiset(list[..n + 1]) == multiset(list[..n]) + multiset{list[n]}
    ensures SumTotals(list[..n + 1]) == SumTotals(list[..n]) + list[n].feeStroops
  {
    assert list[..n + 1] == list[..n] + [list[n]] && list[..n + 1][..n] == list[..n];
    forall i | 0 <= i < |sorted| ensures sorted[i].token != list[n].token {
      assert sorted[i] in multiset(sorted);
      assert sorted[i] in list[..n];
    }
  }

  lemma NothingToSort()
    ensures SortedTotals([]) && SumTotals([]) == 0
  {
  }

  // ----- the aggregation loop

  function SumOver(order: seq<Token>, totals: map<Token, int>): int
    requires forall i :: 0 <= i < |order| ==> order[i] in totals
  {
    if order == [] then 0 else SumOver(order[..|order| - 1], totals) + totals[order[|order| - 1]]
  }

  lemma {:induction false} SumOverUpdated(order: seq<Token>, totals: map<Token, int>, t: Token, fee: int)
    requires Distinct(order) && forall i :: 0 <= i < |order| ==> order[i] in totals
    requires t in totals
    ensures SumOver(order, totals[t := totals[t] + fee]) == SumOver(order, totals) + if t in order then fee else 0
  {
    if order != [] {
      SumOverUpdated(order[..|order| - 1], totals, t, fee);
    }
  }

  lemma {:induction false} SumOverExtended(order: seq<Token>, totals: map<Token, int>, t: Token, fee: int)
    requires forall i :: 0 <= i < |order| ==> order[i] in totals
    requires t !in totals
    ensures SumOver(order, totals[t := fee]) == SumOver(order, totals)
  {
    if order != [] {
      SumOverExtended(order[..|order| - 1], totals, t, fee);
    }
  }

  ghost predicate Appears(h: seq<FeeEvent>, t: Token) {
    exists i :: 0 <= i < |h| && h[i].tokenIn == t
  }

  ghost predicate Lists(ts: seq<TokenTotal>, t: Token) {
    exists i :: 0 <= i < |ts| && ts[i].token == t
  }

  /** The Map of running totals: insertion order, values, and what they add up to. */
  ghost predicate Tallies(order: seq<Token>, totals: map<Token, int>, h: seq<FeeEvent>) {
    && Distinct(order)
    && (forall t :: t in totals <==> t in order)
    && (forall t :: t in totals <==> Appears(h, t))
    && (forall t :: t in totals ==> totals[t] == Earned(h, t))
    && SumOver(order, totals) == SumHistory(h)
  }

  function Get(totals: map<Token, int>, t: Token): int {
    if t in totals then totals[t] else 0
  }

  lemma {:induction false} EarnedNothing(h: seq<FeeEvent>, t: Token)
    requires forall i :: 0 <= i < |h| ==> h[i].tokenIn != t
    ensures Earned(h, t) == 0
  {
    if h != [] {
      EarnedNothing(h[..|h| - 1], t);
    }
  }

  lemma UnlistedEarnsNothing(h: seq<FeeEvent>, t: Token)
    requires !Appears(h, t)
    ensures Earned(h, t) == 0
  {
    EarnedNothing(h, t);
  }

  lemma EarnedNext(h: seq<FeeEvent>, f: FeeEvent)
    ensures SumHistory(h + [f]) == SumHistory(h) + f.feeStroops
    ensures forall u :: Earned(h + [f], u) == Earned(h, u) + if f.tokenIn == u then f.feeStroops else 0
  {
    assert (h + [f])[..|h|] == h;
  }

  lemma AppearsNext(h: seq<FeeEvent>, f: FeeEvent)
    ensures forall u :: Appears(h + [f], u) <==> Appears(h, u) || u == f.tokenIn
  {
    forall u ensures Appears(h + [f], u) <==> Appears(h, u) || u == f.tokenIn {
      if Appears(h, u) {
        var i :| 0 <= i < |h| && h[i].tokenIn == u;
        assert (h + [f])[i].tokenIn == u;
      }
      assert (h + [f])[|h|] == f;
    }
  }

  /** Booking one more fee keeps the tallies. */
  lemma TallyOne(order: seq<Token>, totals: map<Token, int>, h: seq<FeeEvent>, f: FeeEvent)
    requires Tallies(order, totals, h)
    ensures Tallies(if f.tokenIn in totals then order else order + [f.tokenIn],
                    totals[f.tokenIn := Get(totals, f.tokenIn) + f.feeStroops], h + [f])
  {
    hide Appears, Earned, SumHistory;
    var t := f.tokenIn;
    AppearsNext(h, f);
    EarnedNext(h, f);
    if t in totals {
      SumOverUpdated(order, totals, t, f.feeStroops);
    } else {
      assert Earned(h, t) == 0 by { UnlistedEarnsNothing(h, t); }
      SumOverExtended(order, totals, t, f.feeStroops);
      assert (order + [t])[..|order|] == order;
    }
  }

  /** The Map's entries as a list, in insertion order. */
  function Entries(order: seq<Token>, totals: map<Token, int>): (ts: seq<TokenTotal>)
    requires forall i :: 0 <= i < |order| ==> order[i] in totals
    ensures |ts| == |order| && forall i :: 0 <= i < |order| ==> ts[i] == TokenTotal(order[i], totals[order[i]])
  {
    seq(|order|, i requires 0 <= i < |order| => TokenTotal(order[i], totals[order[i]]))
  }

  lemma {:induction false} SumOfEntries(order: seq<Token>, totals: map<Token, int>)
    requires forall i :: 0 <= i < |order| ==> order[i] in totals
    ensures SumTotals(Entries(order, totals)) == SumOver(order, totals)
  {
    if order != [] {
      var last := |order| - 1;
      SumOfEntries(order[..last], totals);
      assert Entries(order, totals)[..last] == Entries(order[..last], totals);
    }
  }

  /** The loop over the events. */
  method Aggregate(swapEvents: seq<SwapEvent>, toLedger: int)
    returns (total: int, order: seq<Token>, totalsByToken: map<Token, int>, history: seq<FeeEvent>)
    ensures history == History(swapEvents, toLedger)
    ensures total == SumHistory(history) && Tallies(order, totalsByToken, history)
  {
    hide Tallies, Fee, History, SumHistory;
    assert History([], toLedger) == [] && SumHistory([]) == 0 by { NothingBooked(toLedger); }
    total, order, totalsByToken, history := 0, [], map[], [];
    assert Tallies(order, totalsByToken, history) by { NothingTallied(); }
    for n := 0 to |swapEvents|
      invariant history == History(swapEvents[..n], toLedger)
      invariant total == SumHistory(history)
      invariant Tallies(order, totalsByToken, history)
    {
      var event := swapEvents[n];
      HistoryNext(swapEvents, n, toLedger);
      if event.ledger > toLedger {
        continue;
      }
      var feeStroops := Fee(event);
      if feeStroops <= 0 {
        continue;
      }
      var f := FeeEvent(event.ledger, event.tokenIn, event.feeBps, feeStroops);
      TallyOne(order, totalsByToken, history, f);
      EarnedNext(history, f);
      total := total + feeStroops;
      order := if event.tokenIn in totalsByToken then order else order + [event.tokenIn];
      totalsByToken := totalsByToken[event.tokenIn := Get(totalsByToken, event.tokenIn) + feeStroops];
      history := history + [f];
    }
    assert swapEvents[..|swapEvents|] == swapEvents;
  }

  lemma NothingBooked(toLedger: int)
    ensures History([], toLedger) == [] && SumHistory([]) == 0
  {
  }

  lemma HistoryNext(events: seq<SwapEvent>, n: nat, toLedger: int)
    requires n < |events|
    ensures var e, h := events[n], History(events[..n], toLedger);
            History(events[..n + 1], toLedger) ==
            if e.ledger <= toLedger && Fee(e) > 0 then h + [FeeEvent(e.ledger, e.tokenIn, e.feeBps, Fee(e))] else h
  {
    assert events[..n + 1][..n] == events[..n];
  }

  lemma NothingTallied()
    ensures Tallies([], map[], [])
  {
  }

  /**
    The total equals both the sum of the history and the sum of the per-token list;
    the history is the counted swaps in order; the list names each token of the
    history exactly once, with what it earned, largest first and ties by token.
  */
  method GetFeeRevenue(swapEvents: seq<SwapEvent>, toLedger: int)
    returns (totalFeeStroops: int, totalFeeByToken: seq<TokenTotal>, history: seq<FeeEvent>)
    ensures history == History(swapEvents, toLedger)
    ensures totalFeeStroops == SumHistory(history) == SumTotals(totalFeeByToken)
    ensures forall i, j :: 0 <= i < j < |totalFeeByToken| ==>
              var a, b := totalFeeByToken[i], totalFeeByToken[j];
              a.feeStroops > b.feeStroops || (a.feeStroops == b.feeStroops && a.token < b.token)
    ensures DistinctTokens(totalFeeByToken)
    ensures forall x :: x in totalFeeByToken ==> x.feeStroops == Earned(history, x.token)
    ensures forall t :: Lists(totalFeeByToken, t) <==> Appears(history, t)
  {
    var order, totalsByToken;
    totalFeeStroops, order, totalsByToken, history := Aggregate(swapEvents, toLedger);
    var list := Entries(order, totalsByToken);
    SumOfEntries(order, totalsByToken);
    hide SumTotals, SumHistory, Earned, SumOver, Appears, Lists, SortedTotals;
    totalFeeByToken := SortTotals(list);
    SortedListOf(order, totalsByToken, history, totalFeeByToken);
    LargestFirst(totalFeeByToken);
  }

  lemma LargestFirst(ts: seq<TokenTotal>)
    requires SortedTotals(ts)
    ensures forall i, j :: 0 <= i < j < |ts| ==>
              ts[i].feeStroops > ts[j].feeStroops || (ts[i].feeStroops == ts[j].feeStroops && ts[i].token < ts[j].token)
  {
  }

  /** What sorting the entries leaves of the tallies. */
  lemma SortedListOf(order: seq<Token>, totals: map<Token, int>, h: seq<FeeEvent>, sorted: seq<TokenTotal>)
    requires Tallies(order, totals, h) && SortedTotals(sorted)
    requires multiset(sorted) == multiset(Entries(order, totals))
    ensures DistinctTokens(sorted)
    ensures forall x :: x in sorted ==> x.feeStroops == Earned(h, x.token)
    ensures forall t :: Lists(sorted, t) <==> Appears(h, t)
  {
    var list := Entries(order, totals);
    forall x ensures x in sorted <==> x.token in totals && x.feeStroops == totals[x.token] {
      assert x in sorted <==> x in multiset(sorted);
      assert x in list <==> x in multiset(list);
      if x.token in totals && x.feeStroops == totals[x.token] {
        var i :| 0 <= i < |order| && order[i] == x.token;
        assert list[i] == x;
      }
    }
    forall t ensures Lists(sorted, t) <==> t in totals {
      if t in totals { assert TokenTotal(t, totals[t]) in sorted; }
      if Lists(sorted, t) {
        var i :| 0 <= i < |sorted| && sorted[i].token == t;
        assert sorted[i] in sorted;
      }
    }
  }

  // ----- what flooring loses

  /** The exact fee total in ten-thousandths of a stroop, and how many swaps are in the window. */
  function ExactTotal(events: seq<SwapEvent>, toLedger: int): int {
    if events == [] then 0 else
    var e := events[|events| - 1];
    ExactTotal(events[..|events| - 1], toLedger) + if e.ledger <= toLedger then e.amountIn * e.feeBps else 0
  }

  function InWindow(events: seq<SwapEvent>, toLedger: int): nat {
    if events == [] then 0 else
    InWindow(events[..|events| - 1], toLedger) + if events[|events| - 1].ledger <= toLedger then 1 else 0
  }

  /** The reported total falls short of the exact one by at most 9999/10000 of a stroop per in-window swap. */
  lemma {:induction false} FlooringLoss(events: seq<SwapEvent>, toLedger: int)
    requires forall i :: 0 <= i < |events| ==> events[i].amountIn * events[i].feeBps >= 0
    ensures var total := SumHistory(History(events, toLedger));
            0 <= ExactTotal(events, toLedger) - BPS_DENOMINATOR * total <= (BPS_DENOMINATOR - 1) * InWindow(events, toLedger)
  {
    if events != [] {
      var last := |events| - 1;
      FlooringLoss(events[..last], toLedger);
      var e, h := events[last], History(events[..last], toLedger);
      QuotientBounds(e.amountIn * e.feeBps, BPS_DENOMINATOR);
      var f := FeeEvent(e.ledger, e.tokenIn, e.feeBps, Fee(e));
      assert (h + [f])[..|h|] == h && h + [] == h;
    }
  }
}
