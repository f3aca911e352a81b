/**
  Threshold price alerts with hysteresis: the three remembered fields, the loop
  that checks every alert, and an exact description of when an alert fires in
  terms of the prices it has seen.
*/
module PriceAlerts {
  import opened Wrappers

  datatype Direction = Above | Below

  datatype Status = Active | Triggered

  datatype Alert = Alert(target: int, direction: Direction,
                         hasCrossedBack: bool, lastKnownPrice: Option<int>, status: Status)

  datatype CreateResult = Created | InvalidTarget

  function NewAlert(target: int, direction: Direction): Alert {
    Alert(target, direction, true, None, Active)
  }

  predicate EvaluateThresholdCondition(current: int, target: int, direction: Direction,
                                       hasCrossedBack: bool, lastKnownPrice: Option<int>)
  {
    var conditionMet := if direction.Above? then current >= target else current <= target;
    if !hasCrossedBack then false
    else if lastKnownPrice.Some? && direction.Above? && lastKnownPrice.value >= target then false
    else if lastKnownPrice.Some? && direction.Below? && !(lastKnownPrice.value >= target) then false
    else conditionMet
  }

  predicate CheckCrossBack(current: int, target: int, direction: Direction, lastKnownPrice: Option<int>) {
    if lastKnownPrice.None? then true
    else if direction.Above? then current < target && lastKnownPrice.value >= target
    else current > target && lastKnownPrice.value <= target
  }

  predicate ShouldTrigger(a: Alert, price: int) {
    && a.status.Active?
    && EvaluateThresholdCondition(price, a.target, a.direction, a.hasCrossedBack, a.lastKnownPrice)
  }

  /** One observation of one alert. */
  function Observe(a: Alert, price: int): Alert {
    if ShouldTrigger(a, price) then
      a.(lastKnownPrice := Some(price), status := Triggered, hasCrossedBack := false)
    else
      var crossed := CheckCrossBack(price, a.target, a.direction, a.lastKnownPrice);
      a.(lastKnownPrice := Some(price), hasCrossedBack := crossed,
         status := if a.status.Triggered? && crossed then Active else a.status)
  }

  function ObserveAll(a: Alert, prices: seq<int>): Alert {
    if prices == [] then a else
    Observe(ObserveAll(a, prices[..|prices| - 1]), prices[|prices| - 1])
  }

  // ----- the exact firing condition

  predicate OnTarget(target: int, direction: Direction, price: int) {
    if direction.Above? then price >= target else price <= target
  }

  /** Does a new alert fire on the last of these prices? */
  predicate FiresOnLast(target: int, direction: Direction, prices: seq<int>)
    requires prices != []
  {
    var n := |prices| - 1;
    && OnTarget(target, direction, prices[n])
    && (n == 0 || (!OnTarget(target, direction, prices[n - 1]) && (n == 1 || OnTarget(target, direction, prices[n - 2]))))
  }

  /** What the three fields remember of a whole price stream. */
  lemma {:induction false} MemoryAfter(target: int, direction: Direction, prices: seq<int>)
    requires prices != []
    ensures var a := ObserveAll(NewAlert(target, direction), prices);
            var n := |prices|;
            && a.target == target && a.direction == direction
            && a.lastKnownPrice == Some(prices[n - 1])
            && (a.hasCrossedBack <==> !OnTarget(target, direction, prices[n - 1]) &&
                                      (n == 1 || OnTarget(target, direction, prices[n - 2])))
            && (a.hasCrossedBack ==> a.status.Active?)
  {
    if |prices| > 1 {
      MemoryAfter(target, direction, prices[..|prices| - 1]);
    }
  }

  /**
    For every price stream, the machine fires exactly on a target-side price that
    is first of all, or follows a price strictly on the other side which was itself
    second of all or preceded by a target-side price.
  */
  lemma FiresExactly(target: int, direction: Direction, prices: seq<int>)
    requires prices != []
    ensures ShouldTrigger(ObserveAll(NewAlert(target, direction), prices[..|prices| - 1]), prices[|prices| - 1])
       <==> FiresOnLast(target, direction, prices)
  {
    if |prices| > 1 {
      MemoryAfter(target, direction, prices[..|prices| - 1]);
    }
  }

  /** A new alert shown these prices one by one triggers at the one at position `k`. */
  predicate TriggersAt(target: int, direction: Direction, prices: seq<int>, k: nat)
    requires k < |prices|
  {
    ShouldTrigger(ObserveAll(NewAlert(target, direction), prices[..k]), prices[k])
  }

  /** Between two triggerings the machine always sees a price strictly on the other side. */
  lemma FiringsAreSeparated(target: int, direction: Direction, prices: seq<int>, i: nat, j: nat)
    requires i < j < |prices|
    requires TriggersAt(target, direction, prices, i) && TriggersAt(target, direction, prices, j)
    ensures i + 1 < j && !OnTarget(target, direction, prices[j - 1])
  {
    assert prices[..i + 1][..i] == prices[..i] && prices[..i + 1][i] == prices[i];
    assert prices[..j + 1][..j] == prices[..j] && prices[..j + 1][j - 1] == prices[j - 1];
    FiresExactly(target, direction, prices[..i + 1]);
    FiresExactly(target, direction, prices[..j + 1]);
  }

  /**
    "Once per crossing" is not what the machine does: a move from the other side to
    the target side goes unreported exactly when the price had been on the other
    side for the two observations before it.
  */
  lemma CrossingIsMissedExactly(target: int, direction: Direction, prices: seq<int>)
    requires |prices| >= 2
    requires OnTarget(target, direction, prices[|prices| - 1]) && !OnTarget(target, direction, prices[|prices| - 2])
    ensures !ShouldTrigger(ObserveAll(NewAlert(target, direction), prices[..|prices| - 1]), prices[|prices| - 1])
       <==> |prices| >= 3 && !OnTarget(target, direction, prices[|prices| - 3])
  {
    FiresExactly(target, direction, prices);
  }

  /** An alert whose price starts away from the target and stays there a while never reports its first crossing. */
  lemma FirstCrossingMissed()
    ensures !ShouldTrigger(ObserveAll(NewAlert(100, Above), [50, 60, 120][..2]), 120)
  {
    CrossingIsMissedExactly(100, Above, [50, 60, 120]);
  }

  // ----- one pass over all alerts

  type Alerts = map<string, Alert>
  type Histories = map<string, seq<int>>

  /** `prices` holds the prices that could be fetched; an alert whose fetch fails is skipped. */
  function AfterPass(alerts: Alerts, prices: map<string, int>): Alerts {
    map id | id in alerts :: if id in prices then Observe(alerts[id], prices[id]) else alerts[id]
  }

  function SeenAfterPass(observed: Histories, prices: map<string, int>): Histories {
    map id | id in observed :: if id in prices then observed[id] + [prices[id]] else observed[id]
  }

  /** Every alert's memory is that of a new alert which saw exactly the recorded prices. */
  ghost predicate Remembers(alerts: Alerts, observed: Histories) {
    && observed.Keys == alerts.Keys
    && forall id :: id in alerts ==>
         alerts[id] == ObserveAll(NewAlert(alerts[id].target, alerts[id].direction), observed[id])
  }

  predicate Reports(alerts: Alerts, prices: map<string, int>, id: string) {
    id in alerts && id in prices && ShouldTrigger(alerts[id], prices[id])
  }

  /** The alerts a pass reports, in the order it visits them. */
  function Reported(alerts: Alerts, order: seq<string>, prices: map<string, int>): seq<string> {
    if order == [] then [] else
    var last := |order| - 1;
    Reported(alerts, order[..last], prices) + if Reports(alerts, prices, order[last]) then [order[last]] else []
  }

  function ReportsAt(alerts: Alerts, order: seq<string>, prices: map<string, int>): nat -> bool {
    (i: nat) => i < |order| && Reports(alerts, prices, order[i])
  }

  function IdAt(order: seq<string>): (nat, string) -> bool {
    (i: nat, id: string) => i < |order| && id == order[i]
  }

  lemma ReportedNext(alerts: Alerts, order: seq<string>, prices: map<string, int>, n: nat)
    requires n < |order|
    ensures Reported(alerts, order[..n + 1], prices) ==
            Reported(alerts, order[..n], prices) + if ReportsAt(alerts, order, prices)(n) then [order[n]] else []
  {
    hide Reports;
    assert order[..n + 1][..n] == order[..n];
  }

  /** The reported alerts are those visited ones that report, in the order of the visits. */
  lemma {:induction false} ReportedInOrder(alerts: Alerts, order: seq<string>, prices: map<string, int>, n: nat)
    returns (picked: seq<nat>)
    requires n <= |order|
    ensures Selects(Reported(alerts, order[..n], prices), picked, n, ReportsAt(alerts, order, prices), IdAt(order))
  {
    hide Reports;
    picked := [];
    if n > 0 {
      hide Selects;
      var last := n - 1;
      picked := ReportedInOrder(alerts, order, prices, last);
      ReportedNext(alerts, order, prices, last);
      hide Reported;
      var wanted := ReportsAt(alerts, order, prices);
      SelectsNext(Reported(alerts, order[..last], prices), picked, last, wanted, IdAt(order),
                  if wanted(last) then [order[last]] else []);
      if wanted(last) { picked := picked + [last]; }
    }
  }

  /** Each reported alert appears once, and nothing else does. */
  lemma {:induction false} ReportedOnce(alerts: Alerts, order: seq<string>, prices: map<string, int>)
    requires Distinct(order)
    ensures Distinct(Reported(alerts, order, prices))
    ensures forall id :: id in Reported(alerts, order, prices) <==> id in order && Reports(alerts, prices, id)
  {
    hide Reports;
    if order != [] {
      ReportedOnce(alerts, order[..|order| - 1], prices);
      assert order == order[..|order| - 1] + [order[|order| - 1]];
    }
  }

  /** What a pass has done once it has visited `done`. */
  ghost predicate VisitedTo(before: Alerts, now: Alerts, triggered: seq<string>, done: seq<string>, prices: map<string, int>) {
    && now.Keys == before.Keys
    && (forall id :: id in now ==>
          now[id] == if id in done && id in prices then Observe(before[id], prices[id]) else before[id])
    && triggered == Reported(before, done, prices)
  }

  lemma VisitOne(before: Alerts, now: Alerts, triggered: seq<string>, done: seq<string>, id: string, prices: map<string, int>)
    requires VisitedTo(before, now, triggered, done, prices) && id in before && id !in done
    ensures id in now
    ensures VisitedTo(before, if id in prices then now[id := Observe(now[id], prices[id])] else now,
                      if id in prices && ShouldTrigger(now[id], prices[id]) then triggered + [id] else triggered,
                      done + [id], prices)
  {
    hide Observe, ShouldTrigger;
    assert (done + [id])[..|done|] == done && triggered + [] == triggered;
  }

  lemma VisitNone(before: Alerts, prices: map<string, int>)
    ensures VisitedTo(before, before, [], [], prices)
  {
  }

  /** At the end the pass is complete, and each reported alert was reported once. */
  lemma VisitAll(before: Alerts, now: Alerts, triggered: seq<string>, order: seq<string>, prices: map<string, int>)
    requires VisitedTo(before, now, triggered, order, prices)
    requires Distinct(order) && forall id :: id in before <==> id in order
    ensures now == AfterPass(before, prices)
    ensures Distinct(triggered) && forall id :: id in triggered <==> Reports(before, prices, id)
  {
    hide Observe, ShouldTrigger;
    ReportedOnce(before, order, prices);
  }

  lemma NextInOrder(order: seq<string>, i: nat)
    requires i < |order| && Distinct(order)
    ensures order[i] in order && order[i] !in order[..i] && order[..i + 1] == order[..i] + [order[i]]
  {
  }

  /** A pass keeps every memory faithful and reports exactly by the firing condition. */
  lemma PassFollowsHistories(alerts: Alerts, observed: Histories, prices: map<string, int>)
    requires Remembers(alerts, observed)
    ensures Remembers(AfterPass(alerts, prices), SeenAfterPass(observed, prices))
    ensures AfterPass(alerts, prices).Keys == alerts.Keys
    ensures forall id :: id in alerts && id in prices ==>
              (Reports(alerts, prices, id) <==>
               FiresOnLast(alerts[id].target, alerts[id].direction, observed[id] + [prices[id]]))
  {
    hide Observe, ShouldTrigger, FiresOnLast;
    forall id | id in alerts && id in prices
      ensures var a, seen := alerts[id], observed[id] + [prices[id]];
              && ObserveAll(NewAlert(a.target, a.direction), seen) == Observe(a, prices[id])
              && Observe(a, prices[id]).target == a.target && Observe(a, prices[id]).direction == a.direction
              && (ShouldTrigger(a, prices[id]) <==> FiresOnLast(a.target, a.direction, seen))
    {
      var seen := observed[id] + [prices[id]];
      assert seen[..|seen| - 1] == observed[id];
      FiresExactly(alerts[id].target, alerts[id].direction, seen);
      ObserveKeepsConfig(alerts[id], prices[id]);
    }
  }

  lemma ObserveKeepsConfig(a: Alert, price: int)
    ensures Observe(a, price).target == a.target && Observe(a, price).direction == a.direction
  {
  }

  // ----- the module's state

  lemma RemoveAt(s: seq<string>, k: nat)
    requires Distinct(s) && k < |s|
    ensures var t := s[..k] + s[k + 1..];
            Distinct(t) && forall id :: id in t <==> id in s && id != s[k]
  {
    var t := s[..k] + s[k + 1..];
    assert forall i :: 0 <= i < |t| ==> t[i] == s[if i < k then i else i + 1];
    assert forall i :: 0 <= i < |s| && i != k ==> s[i] == t[if i < k then i else i - 1];
  }

  class AlertModule {
    var thresholdPriceAlerts: Alerts
    var order: seq<string>          // the insertion order a Map iterates in
    ghost var observed: Histories   // the prices each alert has seen

    ghost predicate Valid()
      reads this
    {
      && Distinct(order)
      && (forall id :: id in thresholdPriceAlerts <==> id in order)
      && Remembers(thresholdPriceAlerts, observed)
    }

    constructor ()
      ensures Valid() && thresholdPriceAlerts == map[]
    {
      thresholdPriceAlerts, order, observed := map[], [], map[];
    }

    method CreateThresholdPriceAlert(id: string, target: int, direction: Direction) returns (r: CreateResult)
      requires Valid() && id !in thresholdPriceAlerts  // a generated id is new
      modifies this
      ensures Valid()
      ensures r == if target <= 0 then InvalidTarget else Created
      ensures thresholdPriceAlerts == if r.Created? then old(thresholdPriceAlerts)[id := NewAlert(target, direction)]
                                      else old(thresholdPriceAlerts)
      ensures observed == if r.Created? then old(observed)[id := []] else old(observed)
    {
      if target <= 0 {
        return InvalidTarget;
      }
      thresholdPriceAlerts := thresholdPriceAlerts[id := NewAlert(target, direction)];
      order := order + [id];
      observed := observed[id := []];
      r := Created;
    }

    method CheckThresholdPriceAlerts(prices: map<string, int>) returns (triggered: seq<string>)
      requires Valid()
      modifies this
      ensures Valid() && order == old(order)
      ensures thresholdPriceAlerts == AfterPass(old(thresholdPriceAlerts), prices)
      ensures observed == SeenAfterPass(old(observed), prices)
      ensures triggered == Reported(old(thresholdPriceAlerts), order, prices) && Distinct(triggered)
      ensures forall id :: id in triggered <==> Reports(old(thresholdPriceAlerts), prices, id)
    {
      triggered := [];
      ghost var before := thresholdPriceAlerts;
      VisitNone(before, prices);
      assert order[..0] == [];
      hide Observe, ShouldTrigger, Remembers, VisitedTo, Reported, AfterPass, SeenAfterPass;
      for i := 0 to |order|
        invariant VisitedTo(before, thresholdPriceAlerts, triggered, order[..i], prices)
        modifies this`thresholdPriceAlerts
      {
        hide Distinct;
        var id := order[i];
        NextInOrder(order, i);
        VisitOne(before, thresholdPriceAlerts, triggered, order[..i], id, prices);
        if id in prices {
          var alert := thresholdPriceAlerts[id];
          if ShouldTrigger(alert, prices[id]) {
            triggered := triggered + [id];
          }
          thresholdPriceAlerts := thresholdPriceAlerts[id := Observe(alert, prices[id])];
        }
      }
      assert order[..|order|] == order;
      VisitAll(before, thresholdPriceAlerts, triggered, order, prices);
      assert Remembers(AfterPass(before, prices), SeenAfterPass(observed, prices)) by {
        PassFollowsHistories(before, observed, prices);
      }
      observed := SeenAfterPass(observed, prices);
    }

    method DeletePriceAlert(id: string) returns (deleted: bool)
      requires Valid()
      modifies this
      ensures Valid()
      ensures deleted <==> id in old(thresholdPriceAlerts)
      ensures thresholdPriceAlerts == old(thresholdPriceAlerts) - {id} && observed == old(observed) - {id}
    {
      hide ObserveAll, Distinct;
      deleted := id in thresholdPriceAlerts;
      if deleted {
        var k :| 0 <= k < |order| && order[k] == id;
        RemoveAt(order, k);
        order := order[..k] + order[k + 1..];
      }
      thresholdPriceAlerts, observed := thresholdPriceAlerts - {id}, observed - {id};
    }
  }
}
