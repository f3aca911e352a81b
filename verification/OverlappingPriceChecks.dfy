/**
  Threshold price alerts when passes overlap or alerts are deleted while a price is
  fetched: each check reads an alert, waits for its price and writes the alert back.
*/
module OverlappingPriceChecks {
  import opened Wrappers
  import opened PriceAlerts

  /** A check that waits for its price, with the alert as it was read. */
  datatype Check = Check(id: nat, alert: Alert)

  /** For the statements only: the prices fetched for each alert, and the alerts deleted so far. */
  datatype State = State(alerts: map<nat, Alert>, nextId: nat, checks: map<nat, Check>,
                         seen: map<nat, seq<int>>, deleted: set<nat>)

  datatype Event =
    | Create(target: int, direction: Direction)
    | Delete(id: nat)
    | Begin(check: nat, id: nat)
    | Finish(check: nat, price: int)
    | Fail(check: nat)

  function SeenBy(s: State, id: nat): seq<int> {
    if id in s.seen then s.seen[id] else []
  }

  function Next(s: State, e: Event): State {
    match e
    case Create(target, direction) =>
      if target <= 0 then s
      else s.(alerts := s.alerts[s.nextId := NewAlert(target, direction)], nextId := s.nextId + 1)
    case Delete(id) =>
      if id in s.alerts then s.(alerts := s.alerts - {id}, deleted := s.deleted + {id}) else s
    case Begin(check, id) =>
      if id in s.alerts && check !in s.checks then s.(checks := s.checks[check := Check(id, s.alerts[id])]) else s
    case Finish(check, price) =>
      if check !in s.checks then s else
      var c := s.checks[check];
      s.(alerts := s.alerts[c.id := Observe(c.alert, price)], checks := s.checks - {check},
         seen := s.seen[c.id := SeenBy(s, c.id) + [price]])
    case Fail(check) => s.(checks := s.checks - {check})
  }

  function RunAll(s: State, es: seq<Event>): State
    decreases |es|
  {
    if es == [] then s else RunAll(Next(s, es[0]), es[1..])
  }

  const EMPTY := State(map[], 0, map[], map[], {})

  /** The steps undisturbed: creation as in the sequential model, one observation per check, deletion of one alert. */
  lemma UndisturbedSteps(s: State, check: nat, id: nat, price: int, target: int, direction: Direction)
    requires check !in s.checks
    ensures id in s.alerts ==>
              Next(Next(s, Begin(check, id)), Finish(check, price)) ==
              s.(alerts := s.alerts[id := Observe(s.alerts[id], price)], seen := s.seen[id := SeenBy(s, id) + [price]])
    ensures Next(Next(s, Begin(check, id)), Fail(check)) == s
    ensures Next(s, Create(target, direction)) ==
            if target <= 0 then s
            else s.(alerts := s.alerts[s.nextId := Alert(target, direction, true, None, Active)], nextId := s.nextId + 1)
    ensures id in s.alerts ==> Next(s, Delete(id)) == s.(alerts := s.alerts - {id}, deleted := s.deleted + {id})
  {
    if id in s.alerts {
      var s1 := s.(checks := s.checks[check := Check(id, s.alerts[id])]);
      assert Next(s, Begin(check, id)) == s1;
      assert s1.checks - {check} == s.checks;
    }
    assert s.checks - {check} == s.checks;
  }

  /** Every alert remembers exactly the prices fetched for it, and a deleted alert stays deleted. */
  ghost predicate Faithful(s: State) {
    && (forall id :: id in s.alerts ==>
          s.alerts[id] == ObserveAll(NewAlert(s.alerts[id].target, s.alerts[id].direction), SeenBy(s, id)))
    && (forall id :: id in s.deleted ==> id !in s.alerts)
  }

  predicate BeingChecked(s: State, id: nat) {
    exists c :: c in s.checks && s.checks[c].id == id
  }

  /** No check of an alert begins, and no alert is deleted, while a check of it is in flight. */
  predicate Admitted(s: State, e: Event) {
    && (e.Begin? && e.id in s.alerts && e.check !in s.checks ==> !BeingChecked(s, e.id))
    && (e.Delete? && e.id in s.alerts ==> !BeingChecked(s, e.id))
  }

  ghost predicate Separate(s: State, es: seq<Event>)
    decreases |es|
  {
    es != [] ==> Admitted(s, es[0]) && Separate(Next(s, es[0]), es[1..])
  }

  /** However things go on, alerts stay faithful if later checks and deletions are separate. */
  ghost predicate SafeFrom(s: State) {
    forall es :: Separate(s, es) ==> Faithful(RunAll(s, es))
  }

  ghost predicate SafeThroughout(s: State, es: seq<Event>)
    decreases |es|
  {
    SafeFrom(s) && (es != [] ==> SafeThroughout(Next(s, es[0]), es[1..]))
  }

  // ----- separate checks keep every alert faithful

  ghost predicate Sound(s: State) {
    && Faithful(s)
    && (forall id :: id in s.alerts || id in s.seen || id in s.deleted ==> id < s.nextId)
    && (forall c :: c in s.checks ==> s.checks[c].id in s.alerts && s.checks[c].alert == s.alerts[s.checks[c].id])
    && (forall c, d :: c in s.checks && d in s.checks && c != d ==> s.checks[c].id != s.checks[d].id)
  }

  lemma ObservedNext(a: Alert, prices: seq<int>, price: int)
    ensures ObserveAll(a, prices + [price]) == Observe(ObserveAll(a, prices), price)
    ensures ObserveAll(a, []) == a
  {
    assert (prices + [price])[..|prices|] == prices;
  }

  lemma StepIsSound(s: State, e: Event)
    requires Sound(s) && Admitted(s, e)
    ensures Sound(Next(s, e))
  {
    hide Observe, ObserveAll;
    if e.Finish? && e.check in s.checks {
      var c := s.checks[e.check];
      ObservedNext(NewAlert(c.alert.target, c.alert.direction), SeenBy(s, c.id), e.price);
      ObserveKeepsConfig(c.alert, e.price);
    } else if e.Create? {
      ObservedNext(NewAlert(e.target, e.direction), [], 0);
    }
  }

  lemma {:induction false} SeparateIsSound(s: State, es: seq<Event>)
    requires Sound(s) && Separate(s, es)
    ensures Sound(RunAll(s, es))
    decreases |es|
  {
    hide Sound, Next, Admitted;
    if es != [] {
      StepIsSound(s, es[0]);
      SeparateIsSound(Next(s, es[0]), es[1..]);
    }
  }

  lemma SoundIsSafe(s: State)
    requires Sound(s)
    ensures SafeFrom(s)
  {
    forall es | Separate(s, es) ensures Faithful(RunAll(s, es)) {
      SeparateIsSound(s, es);
    }
  }

  // ----- and separation is exactly what is needed

  /** A price strictly on the other side of the target. */
  function OtherSide(a: Alert): int {
    if a.direction.Above? then a.target - 1 else a.target + 1
  }

  /** A price that changes what the next one on the other side means. */
  function Confusing(a: Alert): int {
    if CheckCrossBack(OtherSide(a), a.target, a.direction, a.lastKnownPrice) then OtherSide(a) else a.target
  }

  lemma OverlookedPriceMatters(a: Alert)
    ensures Observe(a, OtherSide(a)) != Observe(Observe(a, Confusing(a)), OtherSide(a))
  {
  }

  lemma SeparateFinishes(s: State, e: Event, f: Event)
    requires e.Finish? && f.Finish?
    ensures Separate(s, [e]) && RunAll(s, [e]) == Next(s, e)
    ensures Separate(s, [e, f]) && RunAll(s, [e, f]) == Next(Next(s, e), f)
  {
    hide Next;
    assert [e, f][1..] == [f] && [f][1..] == [] && [e][1..] == [];
    assert RunAll(s, [e, f]) == RunAll(Next(s, e), [f]) == RunAll(Next(Next(s, e), f), []);
    assert RunAll(s, [e]) == RunAll(Next(s, e), []);
    assert Separate(Next(s, e), [f]);
  }

  /** Of two checks of one alert, the second to finish overlooks the price of the first. */
  lemma OverlapForgetsAPrice(s: State, a: nat, b: nat)
    requires a != b && a in s.checks && b in s.checks && s.checks[a] == s.checks[b]
    requires Faithful(s) && s.checks[a].id in s.alerts && s.alerts[s.checks[a].id] == s.checks[a].alert
    ensures !SafeFrom(s)
  {
    hide Observe, ObserveAll, Confusing, OtherSide;
    var id, alert := s.checks[a].id, s.checks[a].alert;
    var p, q := Confusing(alert), OtherSide(alert);
    var blank, seen := NewAlert(alert.target, alert.direction), SeenBy(s, id);
    var t := Next(Next(s, Finish(a, p)), Finish(b, q));
    SeparateFinishes(s, Finish(a, p), Finish(b, q));
    ObserveKeepsConfig(alert, q);
    assert t.alerts[id] == Observe(alert, q) && SeenBy(t, id) == seen + [p] + [q];
    ObservedNext(blank, seen, p);
    ObservedNext(blank, seen + [p], q);
    OverlookedPriceMatters(alert);
  }

  /** An alert deleted during a check comes back. */
  lemma DeletedDuringCheckComesBack(s: State, c: nat)
    requires c in s.checks && s.checks[c].id in s.deleted
    ensures !SafeFrom(s)
  {
    hide Observe;
    SeparateFinishes(s, Finish(c, 0), Finish(c, 0));
    assert s.checks[c].id in Next(s, Finish(c, 0)).alerts;
    assert !Faithful(RunAll(s, [Finish(c, 0)]));
  }

  lemma OverlapIsUnsafe(s: State, e: Event)
    requires Sound(s) && !Admitted(s, e)
    ensures !SafeFrom(Next(s, e))
  {
    hide ObserveAll, SafeFrom;
    var c :| c in s.checks && s.checks[c].id == e.id;
    if e.Begin? {
      OverlapForgetsAPrice(Next(s, e), c, e.check);
    } else {
      DeletedDuringCheckComesBack(Next(s, e), c);
    }
  }

  lemma {:induction false} SeparationIsExact(s: State, es: seq<Event>)
    requires Sound(s)
    ensures Separate(s, es) <==> SafeThroughout(s, es)
    decreases |es|
  {
    hide Sound, Next, Admitted, SafeFrom;
    SoundIsSafe(s);
    if es != [] {
      if Admitted(s, es[0]) {
        StepIsSound(s, es[0]);
        SeparationIsExact(Next(s, es[0]), es[1..]);
      } else {
        OverlapIsUnsafe(s, es[0]);
      }
    }
  }

  /**
    Every state of a run is safe, in the sense that with separate checks and deletions
    from then on each alert remembers exactly the prices fetched for it and deleted
    alerts stay deleted, if and only if no check of an alert began and no alert was
    deleted while a check of it was in flight.
  */
  lemma AlertsStayFaithfulExactly(es: seq<Event>)
    ensures Separate(EMPTY, es) <==> SafeThroughout(EMPTY, es)
    ensures Separate(EMPTY, es) ==> Faithful(RunAll(EMPTY, es))
  {
    SeparationIsExact(EMPTY, es);
    if Separate(EMPTY, es) {
      SeparateIsSound(EMPTY, es);
    }
  }
}
