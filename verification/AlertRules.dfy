/**
  Alert rules of the `AlertsModule`: creation, status changes, clean-up and the
  asynchronous evaluation that reads a rule, waits for its metric and writes the
  rule back.  Between the two halves of an evaluation anything else may happen,
  including another evaluation of the same rule.
*/
module AlertRules {
  import opened Wrappers

  const MAX_ALERTS_PER_USER := 50
  const DEFAULT_COOLDOWN_SECONDS := 900

  datatype Condition = PriceAbove | PriceBelow | VolumeAbove | LiquidityBelow | GasAbove | ReserveChange
  datatype Frequency = Once | Always | Interval
  datatype Status = Active | Paused | Fired | Acknowledged | Resolved | Archived

  datatype Config = Config(condition: Condition, threshold: int,
                           frequency: Option<Frequency>, cooldownSeconds: Option<int>, enabled: bool)

  datatype Rule = Rule(config: Config, status: Status, lastFiredAt: Option<nat>, fireCount: nat)

  /** The first half of an evaluation: the rule as it was read, and the pass's clock. */
  datatype Pending = Pending(id: nat, rule: Rule, now: nat)

  /** For the statements only: every firing with the configuration it was judged by. */
  datatype Firing = Firing(id: nat, at: nat, config: Config)

  /** Ids are generated, so a new one is never one used before. */
  datatype State = State(rules: map<nat, Rule>, nextId: nat, pending: map<nat, Pending>, firings: seq<Firing>)

  datatype Event =
    | Create(config: Config)
    | Update(id: nat, merged: Config)
    | Acknowledge(id: nat)
    | Resolve(id: nat)
    | Archive(id: nat)
    | SetPaused(id: nat, paused: bool)
    | CleanupArchived
    | BeginEvaluation(evaluator: nat, id: nat, now: nat)
    | FinishEvaluation(evaluator: nat, value: int)

  function Cooldown(c: Config): int {
    match c.cooldownSeconds
    case Some(s) => s
    case None => DEFAULT_COOLDOWN_SECONDS
  }

  /** The guards of the evaluation loop; a last firing at time zero counts as none. */
  predicate Due(r: Rule, now: nat) {
    && !r.status.Paused? && !r.status.Archived? && !r.status.Resolved?
    && r.config.enabled
    && !(r.config.frequency == Some(Interval) && r.lastFiredAt.Some? && r.lastFiredAt.value != 0 &&
         now - r.lastFiredAt.value < Cooldown(r.config))
    && !(r.config.frequency == Some(Once) && r.fireCount > 0)
  }

  predicate EvaluateCondition(condition: Condition, current: int, threshold: int) {
    if condition.PriceBelow? || condition.LiquidityBelow? then current <= threshold else current >= threshold
  }

  predicate Fires(r: Rule, now: nat, value: int) {
    Due(r, now) && EvaluateCondition(r.config.condition, value, r.config.threshold)
  }

  function WithDefaults(c: Config): Config {
    c.(frequency := if c.frequency.None? then Some(Interval) else c.frequency,
       cooldownSeconds := Some(Cooldown(c)))
  }

  function SetStatus(s: State, id: nat, status: Status): State {
    if id in s.rules then s.(rules := s.rules[id := s.rules[id].(status := status)]) else s
  }

  function Finished(p: Pending, value: int): Rule {
    if EvaluateCondition(p.rule.config.condition, value, p.rule.config.threshold) then
      p.rule.(status := Status.Fired, lastFiredAt := Some(p.now), fireCount := p.rule.fireCount + 1)
    else p.rule
  }

  /** A rejected call (limit reached, bad threshold, unknown id, wrong status) changes nothing. */
  function Next(s: State, e: Event): State {
    match e
    case Create(config) =>
      if |s.rules| >= MAX_ALERTS_PER_USER || config.threshold <= 0 then s
      else s.(rules := s.rules[s.nextId := Rule(WithDefaults(config), Active, None, 0)], nextId := s.nextId + 1)
    case Update(id, merged) =>
      if id in s.rules then s.(rules := s.rules[id := s.rules[id].(config := merged, status := Active)]) else s
    case Acknowledge(id) =>
      if id in s.rules && s.rules[id].status.Fired? then SetStatus(s, id, Acknowledged) else s
    case Resolve(id) => SetStatus(s, id, Resolved)
    case Archive(id) => SetStatus(s, id, Archived)
    case SetPaused(id, paused) => SetStatus(s, id, if paused then Paused else Active)
    case CleanupArchived => s.(rules := map id | id in s.rules && !s.rules[id].status.Archived? :: s.rules[id])
    case BeginEvaluation(ev, id, now) =>
      if id in s.rules && ev !in s.pending && Due(s.rules[id], now)
      then s.(pending := s.pending[ev := Pending(id, s.rules[id], now)]) else s
    case FinishEvaluation(ev, value) =>
      if ev !in s.pending then s else
      var p := s.pending[ev];
      var updated := Finished(p, value);
      State(s.rules[p.id := updated], s.nextId, s.pending - {ev},
            if updated.fireCount > p.rule.fireCount then s.firings + [Firing(p.id, p.now, p.rule.config)] else s.firings)
  }

  function RunAll(s: State, es: seq<Event>): State
    decreases |es|
  {
    if es == [] then s else RunAll(Next(s, es[0]), es[1..])
  }

  const EMPTY := State(map[], 0, map[], [])

  // ----- the promises

  function TimesFired(firings: seq<Firing>, id: nat): nat {
    if firings == [] then 0 else
    var last := |firings| - 1;
    TimesFired(firings[..last], id) + if firings[last].id == id then 1 else 0
  }

  function LastFired(firings: seq<Firing>, id: nat): Option<nat> {
    if firings == [] then None else
    var last := |firings| - 1;
    if firings[last].id == id then Some(firings[last].at) else LastFired(firings[..last], id)
  }

  /** A once-only rule had never fired; an interval rule waited out the cooldown then in force. */
  predicate FiringAllowed(before: seq<Firing>, f: Firing) {
    && (f.config.frequency == Some(Once) ==> TimesFired(before, f.id) == 0)
    && (f.config.frequency == Some(Interval) ==>
          var last := LastFired(before, f.id);
          last.Some? && last.value != 0 ==> f.at - last.value >= Cooldown(f.config))
  }

  ghost predicate AllFiringsAllowed(firings: seq<Firing>) {
    forall k :: 0 <= k < |firings| ==> FiringAllowed(firings[..k], firings[k])
  }

  // ----- which rules fire

  predicate FiresBelow(c: Condition) { c.PriceBelow? || c.LiquidityBelow? }

  /**
    A due rule fires at its threshold, not one unit short of it, and together with a
    value at every value further on its condition's side.
  */
  lemma FiresFromTheThresholdOn(r: Rule, now: nat, value: int, further: int)
    requires if FiresBelow(r.config.condition) then further <= value else value <= further
    ensures Fires(r, now, value) ==> Fires(r, now, further)
    ensures Due(r, now) ==> Fires(r, now, r.config.threshold)
    ensures !Fires(r, now, if FiresBelow(r.config.condition) then r.config.threshold + 1 else r.config.threshold - 1)
  {
  }

  /**
    Only an enabled rule that is active, has fired or was acknowledged is ever due:
    a once-only rule while it has not fired, an interval rule up to its first firing
    and again from exactly the cooldown (900 s unless set) after its last one, any
    other rule at any time.
  */
  lemma DueExactly(r: Rule, now: nat)
    ensures r.status.Paused? || r.status.Archived? || r.status.Resolved? || !r.config.enabled ==> !Due(r, now)
    ensures (r.status.Active? || r.status.Fired? || r.status.Acknowledged?) && r.config.enabled ==>
              match r.config.frequency
              case Some(Once) => Due(r, now) <==> r.fireCount == 0
              case Some(Interval) =>
                var cooldown := if r.config.cooldownSeconds.Some? then r.config.cooldownSeconds.value else 900;
                Due(r, now) <==>
                  r.lastFiredAt.None? || r.lastFiredAt.value == 0 || r.lastFiredAt.value + cooldown <= now
              case _ => Due(r, now)
  {
  }

  /** A finished evaluation marks a rule that fires, counts it and stamps the pass's clock, and changes no other rule. */
  lemma FinishedExactly(p: Pending, value: int)
    requires Due(p.rule, p.now)
    ensures Finished(p, value) ==
            if Fires(p.rule, p.now, value)
            then Rule(p.rule.config, Status.Fired, Some(p.now), p.rule.fireCount + 1) else p.rule
  {
  }

  // ----- what the other operations do

  /** Every rule but `id` is as it was, and so is everything else. */
  ghost predicate OnlyTouches(s: State, t: State, id: nat) {
    && t.nextId == s.nextId && t.pending == s.pending && t.firings == s.firings
    && t.rules.Keys == s.rules.Keys
    && forall i :: i in s.rules && i != id ==> t.rules[i] == s.rules[i]
  }

  /**
    A rule is created only below the limit and with a positive threshold, under a new
    id, active and never fired, firing at intervals of 900 s unless told otherwise.
  */
  lemma CreateExactly(s: State, config: Config)
    requires s.nextId !in s.rules
    ensures var t := Next(s, Create(config));
            if |s.rules| < 50 && config.threshold > 0 then
              && t.rules.Keys == s.rules.Keys + {s.nextId} && t.nextId == s.nextId + 1
              && t.pending == s.pending && t.firings == s.firings
              && (forall i :: i in s.rules ==> t.rules[i] == s.rules[i])
              && var r := t.rules[s.nextId];
                 && r.status.Active? && r.lastFiredAt == None && r.fireCount == 0
                 && r.config.condition == config.condition && r.config.threshold == config.threshold
                 && r.config.enabled == config.enabled
                 && (config.frequency.Some? ==> r.config.frequency == config.frequency)
                 && (config.frequency.None? ==> r.config.frequency == Some(Interval))
                 && (config.cooldownSeconds.Some? ==> r.config.cooldownSeconds == config.cooldownSeconds)
                 && (config.cooldownSeconds.None? ==> r.config.cooldownSeconds == Some(900))
            else t == s
  {
  }

  /** The status changes: which are refused, and that they keep the rule's configuration and memory. */
  lemma StatusChangesExactly(s: State, e: Event)
    requires e.Acknowledge? || e.Resolve? || e.Archive? || e.SetPaused?
    ensures var t := Next(s, e);
            if e.id in s.rules && (e.Acknowledge? ==> s.rules[e.id].status.Fired?) then
              && OnlyTouches(s, t, e.id)
              && t.rules[e.id] == s.rules[e.id].(status := t.rules[e.id].status)
              && (e.Acknowledge? ==> t.rules[e.id].status == Acknowledged)
              && (e.Resolve? ==> t.rules[e.id].status == Resolved)
              && (e.Archive? ==> t.rules[e.id].status == Archived)
              && (e.SetPaused? && e.paused ==> t.rules[e.id].status == Paused)
              && (e.SetPaused? && !e.paused ==> t.rules[e.id].status == Active)
            else t == s
  {
  }

  /** An update replaces the configuration, reactivates the rule and keeps its memory. */
  lemma UpdateExactly(s: State, id: nat, merged: Config)
    ensures var t := Next(s, Update(id, merged));
            if id in s.rules then
              && OnlyTouches(s, t, id)
              && t.rules[id] == Rule(merged, Active, s.rules[id].lastFiredAt, s.rules[id].fireCount)
            else t == s
  {
  }

  lemma CleanupExactly(s: State, id: nat)
    ensures var t := Next(s, CleanupArchived);
            && t.nextId == s.nextId && t.pending == s.pending && t.firings == s.firings
            && (id in t.rules <==> id in s.rules && !s.rules[id].status.Archived?)
            && (id in t.rules ==> t.rules[id] == s.rules[id])
  {
  }

  /** An event that could make the rule due again. */
  predicate Reactivates(e: Event, id: nat) {
    (e.Update? && e.id == id) || (e.SetPaused? && !e.paused && e.id == id)
  }

  ghost predicate Silent(s: State, id: nat) {
    && id < s.nextId
    && (id in s.rules ==> s.rules[id].status.Paused? || s.rules[id].status.Archived? || s.rules[id].status.Resolved?)
    && (forall ev :: ev in s.pending ==> s.pending[ev].id != id)
  }

  /**
    A rule that is paused, archived or resolved while no evaluation of it is in flight
    does not fire again, whatever else happens, before it is updated or resumed.
  */
  lemma {:induction false} SilentRulesStaySilent(s: State, es: seq<Event>, id: nat)
    requires Silent(s, id) && forall k :: 0 <= k < |es| ==> !Reactivates(es[k], id)
    ensures Silent(RunAll(s, es), id) && TimesFired(RunAll(s, es).firings, id) == TimesFired(s.firings, id)
    decreases |es|
  {
    hide TimesFired, Next, Silent;
    if es != [] {
      SilentStep(s, es[0], id);
      assert forall k :: 0 <= k < |es[1..]| ==> es[1..][k] == es[k + 1];
      SilentRulesStaySilent(Next(s, es[0]), es[1..], id);
    }
  }

  lemma SilentStep(s: State, e: Event, id: nat)
    requires Silent(s, id) && !Reactivates(e, id)
    ensures Silent(Next(s, e), id) && TimesFired(Next(s, e).firings, id) == TimesFired(s.firings, id)
  {
    hide TimesFired, EvaluateCondition, WithDefaults, Finished;
    if e.FinishEvaluation? && e.evaluator in s.pending {
      var p := s.pending[e.evaluator];
      OneMoreFiring(s.firings, Firing(p.id, p.now, p.rule.config));
    }
  }

  // ----- when an evaluation may start

  predicate Starts(s: State, ev: nat, id: nat, now: nat) {
    id in s.rules && ev !in s.pending && Due(s.rules[id], now)
  }

  /** Writing the rule back as `q` read it cannot hide a firing of `p` from the guards. */
  predicate Remembers(q: Pending, p: Pending) {
    q.rule.fireCount > 0 && (p.now == 0 || (q.rule.lastFiredAt.Some? && p.now <= q.rule.lastFiredAt.value))
  }

  /** Each evaluation of the rule in flight, and the new one, read it as fired no earlier than the other's second. */
  predicate MayStart(s: State, id: nat, now: nat)
    requires id in s.rules
  {
    var q := Pending(id, s.rules[id], now);
    forall o :: o in s.pending && s.pending[o].id == id ==> Remembers(q, s.pending[o]) && Remembers(s.pending[o], q)
  }

  predicate Admitted(s: State, e: Event) {
    e.BeginEvaluation? && Starts(s, e.evaluator, e.id, e.now) ==> MayStart(s, e.id, e.now)
  }

  /** Every evaluation of the run starts when it may.  Rules may change in any way while one is in flight. */
  ghost predicate Guarded(s: State, es: seq<Event>)
    decreases |es|
  {
    es != [] ==> Admitted(s, es[0]) && Guarded(Next(s, es[0]), es[1..])
  }

  /** The plain discipline: an evaluation starts only when none of the same rule is in flight. */
  ghost predicate OneEvaluationPerRule(s: State, es: seq<Event>)
    decreases |es|
  {
    es != [] ==>
      && (es[0].BeginEvaluation? && Starts(s, es[0].evaluator, es[0].id, es[0].now) ==>
            forall o :: o in s.pending ==> s.pending[o].id != es[0].id)
      && OneEvaluationPerRule(Next(s, es[0]), es[1..])
  }

  /** However things go on, no firing breaks a promise if later evaluations do not overlap. */
  ghost predicate SafeFrom(s: State) {
    forall es :: OneEvaluationPerRule(s, es) ==> AllFiringsAllowed(RunAll(s, es).firings)
  }

  ghost predicate SafeThroughout(s: State, es: seq<Event>)
    decreases |es|
  {
    SafeFrom(s) && (es != [] ==> SafeThroughout(Next(s, es[0]), es[1..]))
  }

  // ----- what a guarded run keeps

  /** The rule's two memory fields block at least as much as its firings require. */
  predicate Covers(r: Rule, firings: seq<Firing>, id: nat) {
    && (TimesFired(firings, id) > 0 ==> r.fireCount > 0)
    && (LastFired(firings, id).Some? && LastFired(firings, id).value > 0 ==>
          r.lastFiredAt.Some? && LastFired(firings, id).value <= r.lastFiredAt.value)
  }

  ghost predicate RulesCovered(s: State) {
    && (forall id :: id in s.rules ==> id < s.nextId && Covers(s.rules[id], s.firings, id))
    && (forall k :: 0 <= k < |s.firings| ==> s.firings[k].id < s.nextId)
  }

  ghost predicate PendingCovered(s: State) {
    && (forall ev :: ev in s.pending ==>
          var p := s.pending[ev];
          p.id < s.nextId && Due(p.rule, p.now) && Covers(p.rule, s.firings, p.id))
    && (forall a, b :: a in s.pending && b in s.pending && a != b && s.pending[a].id == s.pending[b].id ==>
          Remembers(s.pending[a], s.pending[b]))
  }

  ghost predicate Sound(s: State) {
    RulesCovered(s) && PendingCovered(s) && AllFiringsAllowed(s.firings)
  }

  lemma {:induction false} NeverFired(firings: seq<Firing>, id: nat)
    requires forall k :: 0 <= k < |firings| ==> firings[k].id != id
    ensures TimesFired(firings, id) == 0 && LastFired(firings, id) == None
  {
    if firings != [] {
      NeverFired(firings[..|firings| - 1], id);
    }
  }

  lemma OneMoreFiring(firings: seq<Firing>, f: Firing)
    ensures var after := firings + [f];
            && (forall id :: TimesFired(after, id) == TimesFired(firings, id) + if f.id == id then 1 else 0)
            && (forall id :: LastFired(after, id) == if f.id == id then Some(f.at) else LastFired(firings, id))
            && (AllFiringsAllowed(after) <==> AllFiringsAllowed(firings) && FiringAllowed(firings, f))
  {
    var after := firings + [f];
    assert after[..|firings|] == firings && after[|firings|] == f;
    assert forall k :: 0 <= k < |firings| ==> after[..k] == firings[..k] && after[k] == firings[k];
  }

  lemma DueAndCoveredIsAllowed(p: Pending, firings: seq<Firing>)
    requires Due(p.rule, p.now) && Covers(p.rule, firings, p.id)
    ensures FiringAllowed(firings, Firing(p.id, p.now, p.rule.config))
  {
  }

  lemma FinishIsSound(s: State, ev: nat, value: int)
    requires Sound(s) && ev in s.pending
    ensures Sound(Next(s, FinishEvaluation(ev, value)))
  {
    hide TimesFired, LastFired, AllFiringsAllowed, FiringAllowed, EvaluateCondition, Due;
    var p := s.pending[ev];
    DueAndCoveredIsAllowed(p, s.firings);
    OneMoreFiring(s.firings, Firing(p.id, p.now, p.rule.config));
  }

  lemma StepIsSound(s: State, e: Event)
    requires Sound(s) && Admitted(s, e)
    ensures Sound(Next(s, e))
  {
    hide TimesFired, LastFired, AllFiringsAllowed, Due, Finished, WithDefaults;
    if e.FinishEvaluation? && e.evaluator in s.pending {
      FinishIsSound(s, e.evaluator, e.value);
    } else if e.Create? {
      NeverFired(s.firings, s.nextId);
    }
  }

  lemma {:induction false} GuardedIsSound(s: State, es: seq<Event>)
    requires Sound(s) && Guarded(s, es)
    ensures Sound(RunAll(s, es))
    decreases |es|
  {
    hide Sound, Next, Admitted;
    if es != [] {
      StepIsSound(s, es[0]);
      GuardedIsSound(Next(s, es[0]), es[1..]);
    }
  }

  lemma SoundIsSafe(s: State)
    requires Sound(s)
    ensures SafeFrom(s)
  {
    forall es | OneEvaluationPerRule(s, es) ensures AllFiringsAllowed(RunAll(s, es).firings) {
      OneEvaluationIsGuarded(s, es);
      GuardedIsSound(s, es);
    }
  }

  /**
    If no evaluation starts while one of the same rule is in flight, a once-only rule
    fires only if it never fired before, and two successive firings of an interval
    rule are at least the cooldown then in force apart: whatever is paused, resumed,
    updated, resolved, archived, cleaned up or created meanwhile.
  */
  lemma RulesKeepTheirPromises(es: seq<Event>)
    requires OneEvaluationPerRule(EMPTY, es)
    ensures AllFiringsAllowed(RunAll(EMPTY, es).firings)
  {
    OneEvaluationIsGuarded(EMPTY, es);
    GuardedIsSound(EMPTY, es);
  }

  lemma {:induction false} OneEvaluationIsGuarded(s: State, es: seq<Event>)
    requires OneEvaluationPerRule(s, es)
    ensures Guarded(s, es)
    decreases |es|
  {
    hide Next, Starts;
    if es != [] {
      OneEvaluationIsGuarded(Next(s, es[0]), es[1..]);
    }
  }

  // ----- and that the guard is exactly what is needed

  function MissValue(c: Config): int {
    if c.condition.PriceBelow? || c.condition.LiquidityBelow? then c.threshold + 1 else c.threshold - 1
  }

  /** Every other evaluation in flight is completed without firing. */
  lemma {:induction false} DrainOthers(s: State, a: nat, b: nat) returns (es: seq<Event>)
    requires a in s.pending && b in s.pending
    ensures var t := RunAll(s, es);
            && OneEvaluationPerRule(s, es) && t.firings == s.firings
            && t.pending == map[a := s.pending[a], b := s.pending[b]]
    decreases |s.pending|
  {
    if c :| c in s.pending && c != a && c != b {
      var e := FinishEvaluation(c, MissValue(s.pending[c].rule.config));
      var s1 := Next(s, e);
      assert s1.pending == s.pending - {c} && s1.firings == s.firings;
      assert |s1.pending.Keys| == |s.pending.Keys - {c}| < |s.pending.Keys|;
      assert |s1.pending| < |s.pending|;
      var rest := DrainOthers(s1, a, b);
      es := [e] + rest;
      assert es[0] == e && es[1..] == rest;
    } else {
      es := [];
    }
  }

  /** One of the two fires, the other writes back what it read, and the firing is forgotten. */
  lemma ForgottenFiring(s: State, a: nat, b: nat)
    requires a != b && s.pending.Keys == {a, b} && s.pending[a].id == s.pending[b].id
    ensures var p, q := s.pending[a], s.pending[b];
            var es := [FinishEvaluation(a, p.rule.config.threshold), FinishEvaluation(b, MissValue(q.rule.config))];
            && OneEvaluationPerRule(s, es)
            && RunAll(s, es) == State(s.rules[q.id := q.rule], s.nextId, map[],
                                      s.firings + [Firing(p.id, p.now, p.rule.config)])
  {
    var p, q := s.pending[a], s.pending[b];
    var e, f := FinishEvaluation(a, p.rule.config.threshold), FinishEvaluation(b, MissValue(q.rule.config));
    RunTwo(s, e, f);
    var s1 := Next(s, e);
    assert s1.pending == s.pending - {a} && s1.firings == s.firings + [Firing(p.id, p.now, p.rule.config)];
    var s2 := Next(s1, f);
    assert s2.pending == map[];
    assert s2.rules == s.rules[q.id := q.rule];
  }

  /** Set to once-only, or to a cooldown the forgotten firing has not waited out, the rule fires too early. */
  lemma TooEarly(s: State, id: nat, ev: nat, last: nat) returns (es: seq<Event>)
    requires id in s.rules && s.pending == map[]
    requires TimesFired(s.firings, id) > 0 && LastFired(s.firings, id) == Some(last)
    requires !Covers(s.rules[id], s.firings, id)
    ensures OneEvaluationPerRule(s, es) && !AllFiringsAllowed(RunAll(s, es).firings)
  {
    var r := s.rules[id];
    var config := if r.fireCount == 0 then r.config.(frequency := Some(Once), enabled := true)
                  else r.config.(frequency := Some(Interval), enabled := true,
                                 cooldownSeconds := Some(if r.lastFiredAt.Some? then last - r.lastFiredAt.value else 1));
    es := [Update(id, config), BeginEvaluation(ev, id, last), FinishEvaluation(ev, config.threshold)];
    var r1 := r.(config := config, status := Active);
    var s1 := s.(rules := s.rules[id := r1]);
    assert Next(s, es[0]) == s1 && Due(r1, last);
    UndisturbedEvaluation(s1, ev, id, last, config.threshold);
    assert es[1..] == [es[1], es[2]];
    OneMoreFiring(s.firings, Firing(id, last, config));
    assert !FiringAllowed(s.firings, Firing(id, last, config));
  }

  lemma NotRememberedBreaks(s: State, a: nat, b: nat)
    requires a != b && a in s.pending && b in s.pending && s.pending[a].id == s.pending[b].id
    requires !Remembers(s.pending[b], s.pending[a])
    ensures !SafeFrom(s)
  {
    hide Next, AllFiringsAllowed;
    var p, q := s.pending[a], s.pending[b];
    var es := DrainOthers(s, a, b);
    var s1 := RunAll(s, es);
    var fs := [FinishEvaluation(a, p.rule.config.threshold), FinishEvaluation(b, MissValue(q.rule.config))];
    ForgottenFiring(s1, a, b);
    var s2 := RunAll(s1, fs);
    OneMoreFiring(s1.firings, Firing(p.id, p.now, p.rule.config));
    var gs := TooEarly(s2, p.id, a, p.now);
    RunAppend(s1, fs, gs);
    RunAppend(s, es, fs + gs);
  }

  /**
    Every state of a run is safe, in the sense that no continuation with separate
    evaluations breaks a promise, if and only if each evaluation of the run started
    when none of the same rule was in flight, or each of the two had read the rule as
    already fired no earlier than the other's second.
  */
  lemma {:induction false} GuardIsExact(s: State, es: seq<Event>)
    requires Sound(s)
    ensures Guarded(s, es) <==> SafeThroughout(s, es)
    decreases |es|
  {
    hide Sound, Next, Admitted, SafeFrom;
    SoundIsSafe(s);
    if es != [] {
      if Admitted(s, es[0]) {
        StepIsSound(s, es[0]);
        GuardIsExact(Next(s, es[0]), es[1..]);
      } else {
        UnguardedStartBreaks(s, es[0]);
      }
    }
  }

  lemma UnguardedStartBreaks(s: State, e: Event)
    requires !Admitted(s, e)
    ensures !SafeFrom(Next(s, e))
  {
    hide Due, SafeFrom, Remembers;
    var q := Pending(e.id, s.rules[e.id], e.now);
    var t := s.(pending := s.pending[e.evaluator := q]);
    assert Next(s, e) == t;
    var o :| o in s.pending && s.pending[o].id == e.id && !(Remembers(q, s.pending[o]) && Remembers(s.pending[o], q));
    if !Remembers(q, s.pending[o]) {
      NotRememberedBreaks(t, o, e.evaluator);
    } else {
      NotRememberedBreaks(t, e.evaluator, o);
    }
  }

  /** The same for runs of a new module. */
  lemma PromisesAreKeptExactly(es: seq<Event>)
    ensures Guarded(EMPTY, es) <==> SafeThroughout(EMPTY, es)
    ensures Guarded(EMPTY, es) ==> AllFiringsAllowed(RunAll(EMPTY, es).firings)
  {
    GuardIsExact(EMPTY, es);
    if Guarded(EMPTY, es) {
      GuardedIsSound(EMPTY, es);
    }
  }

  // ----- the limit on the number of rules

  ghost predicate WithinLimit(s: State, es: seq<Event>)
    decreases |es|
  {
    |s.rules| <= MAX_ALERTS_PER_USER && (es != [] ==> WithinLimit(Next(s, es[0]), es[1..]))
  }

  /** The evaluation being finished writes a rule that is gone back into a full set. */
  predicate RevivesIntoFullSet(s: State, e: Event) {
    && e.FinishEvaluation? && e.evaluator in s.pending
    && s.pending[e.evaluator].id !in s.rules && |s.rules| == MAX_ALERTS_PER_USER
  }

  ghost predicate NeverRevivesIntoFullSet(s: State, es: seq<Event>)
    decreases |es|
  {
    es != [] ==> !RevivesIntoFullSet(s, es[0]) && NeverRevivesIntoFullSet(Next(s, es[0]), es[1..])
  }

  lemma KeysAfterFinish(s: State, ev: nat, value: int)
    ensures var keys := Next(s, FinishEvaluation(ev, value)).rules.Keys;
            keys == if ev in s.pending then s.rules.Keys + {s.pending[ev].id} else s.rules.Keys
  {
    hide Finished;
  }

  lemma KeysAfterCreate(s: State, config: Config)
    ensures var keys := Next(s, Create(config)).rules.Keys;
            keys == s.rules.Keys || (|s.rules| < MAX_ALERTS_PER_USER && keys == s.rules.Keys + {s.nextId})
  {
    hide WithDefaults;
  }

  lemma KeysAfterOthers(s: State, e: Event)
    requires !e.FinishEvaluation? && !e.Create?
    ensures Next(s, e).rules.Keys <= s.rules.Keys
  {
    hide Due;
  }

  lemma LimitStep(s: State, e: Event)
    requires |s.rules| <= MAX_ALERTS_PER_USER
    ensures |Next(s, e).rules| <= MAX_ALERTS_PER_USER <==> !RevivesIntoFullSet(s, e)
  {
    if e.FinishEvaluation? {
      KeysAfterFinish(s, e.evaluator, e.value);
    } else if e.Create? {
      KeysAfterCreate(s, e.config);
    } else {
      KeysAfterOthers(s, e);
    }
    hide Next;
    var before, after := s.rules.Keys, Next(s, e).rules.Keys;
    assert |Next(s, e).rules| == |after| && |s.rules| == |before|;
    if after <= before {
      SubsetSize(after, before);
    }
  }

  lemma {:induction false} SubsetSize(a: set<nat>, b: set<nat>)
    requires a <= b
    ensures |a| <= |b|
  {
    if a != {} {
      var x :| x in a;
      SubsetSize(a - {x}, b - {x});
    }
  }

  /**
    There are never more than 50 rules if and only if no evaluation finishes for a
    rule that was cleaned up meanwhile while the set is full.
  */
  lemma {:induction false} RuleLimitHoldsExactly(s: State, es: seq<Event>)
    requires |s.rules| <= MAX_ALERTS_PER_USER
    ensures WithinLimit(s, es) <==> NeverRevivesIntoFullSet(s, es)
    decreases |es|
  {
    hide Next, RevivesIntoFullSet;
    if es != [] {
      LimitStep(s, es[0]);
      if |Next(s, es[0]).rules| <= MAX_ALERTS_PER_USER {
        RuleLimitHoldsExactly(Next(s, es[0]), es[1..]);
      }
    }
  }

  // ----- what overlapping evaluations do

  /** Two overlapping passes both read a due once-only rule, and both fire it. */
  lemma OverlapFiresTwice(s: State, a: nat, b: nat, id: nat, now: nat, value: int)
    requires a != b && b !in s.pending && Starts(s, a, id, now) && s.rules[id].config.frequency == Some(Once)
    requires EvaluateCondition(s.rules[id].config.condition, value, s.rules[id].config.threshold)
    ensures var t := Next(Next(Next(Next(s, BeginEvaluation(a, id, now)), BeginEvaluation(b, id, now)),
                               FinishEvaluation(a, value)), FinishEvaluation(b, value));
            var f := Firing(id, now, s.rules[id].config);
            t.firings == s.firings + [f, f] && !AllFiringsAllowed(t.firings)
  {
    var p := Pending(id, s.rules[id], now);
    var f := Firing(id, now, s.rules[id].config);
    var s1 := s.(pending := s.pending[a := p]);
    var s2 := s1.(pending := s1.pending[b := p]);
    assert Next(s, BeginEvaluation(a, id, now)) == s1 && Next(s1, BeginEvaluation(b, id, now)) == s2;
    hide Next, Due, EvaluateCondition, Finished, AllFiringsAllowed;
    FinishOf(s2, a, value);
    FinishOf(Next(s2, FinishEvaluation(a, value)), b, value);
    OneMoreFiring(s.firings, f);
    OneMoreFiring(s.firings + [f], f);
    assert s.firings + [f] + [f] == s.firings + [f, f];
  }

  /** A rule archived, cleaned up and replaced while its metric is fetched comes back as number 51. */
  lemma OverlapExceedsTheLimit(s: State, ev: nat, id: nat, now: nat, value: int, config: Config)
    requires |s.rules| == MAX_ALERTS_PER_USER && config.threshold > 0 && ev !in s.pending
    requires forall i :: i in s.rules ==> i < s.nextId && !s.rules[i].status.Archived?
    requires id in s.rules && Due(s.rules[id], now)
    ensures var t := Next(Next(Next(Next(Next(s, BeginEvaluation(ev, id, now)), Archive(id)), CleanupArchived),
                               Create(config)), FinishEvaluation(ev, value));
            |t.rules| == MAX_ALERTS_PER_USER + 1
  {
    ArchiveWhilePending(s, ev, id, now);
    hide Due, Finished;
    var s3 := Next(Next(Next(s, BeginEvaluation(ev, id, now)), Archive(id)), CleanupArchived);
    CreateThenFinish(s3, ev, id, value, config);
  }

  lemma ArchiveWhilePending(s: State, ev: nat, id: nat, now: nat)
    requires ev !in s.pending && id in s.rules && Due(s.rules[id], now)
    requires forall i :: i in s.rules ==> !s.rules[i].status.Archived?
    ensures var t := Next(Next(Next(s, BeginEvaluation(ev, id, now)), Archive(id)), CleanupArchived);
            && t.rules.Keys == s.rules.Keys - {id} && |t.rules| == |s.rules| - 1 && t.nextId == s.nextId
            && ev in t.pending && t.pending[ev].id == id
  {
    var s1 := s.(pending := s.pending[ev := Pending(id, s.rules[id], now)]);
    assert Next(s, BeginEvaluation(ev, id, now)) == s1;
    hide Due;
    var s2 := Next(s1, Archive(id));
    assert s2.rules.Keys == s.rules.Keys && s2.pending == s1.pending;
    CleanupDrops(s2, id);
  }

  lemma CreateThenFinish(s: State, ev: nat, id: nat, value: int, config: Config)
    requires |s.rules| < MAX_ALERTS_PER_USER && config.threshold > 0
    requires ev in s.pending && s.pending[ev].id == id && id !in s.rules && id != s.nextId && s.nextId !in s.rules
    ensures |Next(Next(s, Create(config)), FinishEvaluation(ev, value)).rules| == |s.rules| + 2
  {
    hide Finished;
    var t := Next(s, Create(config));
    assert t.rules.Keys == s.rules.Keys + {s.nextId} && t.pending == s.pending;
    assert Next(t, FinishEvaluation(ev, value)).rules.Keys == t.rules.Keys + {id};
    assert |t.rules| == |t.rules.Keys| && |s.rules| == |s.rules.Keys|;
  }

  lemma CleanupDrops(s: State, id: nat)
    requires id in s.rules && s.rules[id].status.Archived?
    requires forall i :: i in s.rules && i != id ==> !s.rules[i].status.Archived?
    ensures var t := Next(s, CleanupArchived);
            t.rules.Keys == s.rules.Keys - {id} && t.nextId == s.nextId && t.pending == s.pending && |t.rules| == |s.rules| - 1
  {
    assert Next(s, CleanupArchived).rules.Keys == s.rules.Keys - {id};
  }

  /** A change made to a rule while its metric is fetched is undone by the write-back. */
  lemma ChangeDuringEvaluationIsUndone(s: State, ev: nat, value: int, e: Event)
    requires e.Update? || e.SetPaused? || e.Archive? || e.Resolve? || e.Acknowledge?
    requires ev in s.pending && s.pending[ev].id == e.id
    ensures Next(Next(s, e), FinishEvaluation(ev, value)) == Next(s, FinishEvaluation(ev, value))
  {
    hide Due, Finished;
    var p, changed := s.pending[ev], Next(s, e);
    assert changed.rules[p.id := Finished(p, value)] == s.rules[p.id := Finished(p, value)];
  }

  // ----- the evaluation loop as the module runs it

  /** The rules an undisturbed pass fires, in iteration order. */
  function FiredBy(rules: map<nat, Rule>, order: seq<nat>, now: nat, values: map<nat, int>): seq<nat>
    requires forall id :: id in order ==> id in rules && id in values
  {
    if order == [] then [] else
    var last := |order| - 1;
    FiredBy(rules, order[..last], now, values) +
    if Fires(rules[order[last]], now, values[order[last]]) then [order[last]] else []
  }

  lemma {:induction false} FiredByIs(rules: map<nat, Rule>, order: seq<nat>, now: nat, values: map<nat, int>)
    requires forall id :: id in order ==> id in rules && id in values
    ensures forall id :: id in FiredBy(rules, order, now, values) <==> id in order && Fires(rules[id], now, values[id])
  {
    hide Fires;
    if order != [] {
      var last := |order| - 1;
      assert order == order[..last] + [order[last]];
      FiredByIs(rules, order[..last], now, values);
    }
  }

  function FiresAt(rules: map<nat, Rule>, order: seq<nat>, now: nat, values: map<nat, int>): nat -> bool {
    (i: nat) => i < |order| && order[i] in rules && order[i] in values && Fires(rules[order[i]], now, values[order[i]])
  }

  function IdAt(order: seq<nat>): (nat, nat) -> bool {
    (i: nat, id: nat) => i < |order| && id == order[i]
  }

  lemma FiredNext(rules: map<nat, Rule>, order: seq<nat>, now: nat, values: map<nat, int>, n: nat)
    requires n < |order| && forall id :: id in order ==> id in rules && id in values
    ensures FiredBy(rules, order[..n + 1], now, values) ==
            FiredBy(rules, order[..n], now, values) + if FiresAt(rules, order, now, values)(n) then [order[n]] else []
  {
    hide Fires;
    assert order[..n + 1][..n] == order[..n];
  }

  /** The fired rules are those that fire, in the order of the pass. */
  lemma {:induction false} FiredInOrder(rules: map<nat, Rule>, order: seq<nat>, now: nat, values: map<nat, int>, n: nat)
    returns (picked: seq<nat>)
    requires n <= |order| && forall id :: id in order ==> id in rules && id in values
    ensures Selects(FiredBy(rules, order[..n], now, values), picked, n, FiresAt(rules, order, now, values), IdAt(order))
  {
    hide Fires;
    picked := [];
    if n > 0 {
      hide Selects;
      var last := n - 1;
      picked := FiredInOrder(rules, order, now, values, last);
      FiredNext(rules, order, now, values, last);
      hide FiredBy;
      var wanted := FiresAt(rules, order, now, values);
      SelectsNext(FiredBy(rules, order[..last], now, values), picked, last, wanted, IdAt(order),
                  if wanted(last) then [order[last]] else []);
      if wanted(last) { picked := picked + [last]; }
    }
  }

  /** The rules before, once the first `done` of the pass have been handled. */
  ghost predicate HandledTo(before: State, s: State, done: seq<nat>, now: nat, values: map<nat, int>)
    requires forall id :: id in before.rules ==> id in values
  {
    && s.rules.Keys == before.rules.Keys && s.nextId == before.nextId && s.pending == before.pending
    && forall id :: id in s.rules ==>
         var r := before.rules[id];
         s.rules[id] == if id in done && Due(r, now) then Finished(Pending(id, r, now), values[id]) else r
  }

  ghost predicate Recorded(firings: seq<Firing>, fired: seq<nat>, rules: map<nat, Rule>, now: nat) {
    && |firings| == |fired|
    && forall k :: 0 <= k < |fired| ==> fired[k] in rules && firings[k] == Firing(fired[k], now, rules[fired[k]].config)
  }

  /** What a pass has done once it has handled `done`. */
  ghost predicate PassTo(before: State, s: State, fired: seq<nat>, done: seq<nat>, now: nat, values: map<nat, int>)
    requires forall id :: id in before.rules ==> id in values
    requires forall id :: id in done ==> id in before.rules
  {
    && HandledTo(before, s, done, now, values)
    && fired == FiredBy(before.rules, done, now, values)
    && before.firings <= s.firings && Recorded(s.firings[|before.firings|..], fired, before.rules, now)
  }

  function AfterOne(s: State, id: nat, now: nat, value: int): State
    requires id in s.rules
  {
    var r := s.rules[id];
    if !Due(r, now) then s else
    State(s.rules[id := Finished(Pending(id, r, now), value)], s.nextId, s.pending,
          s.firings + if Fires(r, now, value) then [Firing(id, now, r.config)] else [])
  }

  lemma PassNext(before: State, s: State, fired: seq<nat>, done: seq<nat>, id: nat, now: nat, values: map<nat, int>)
    requires forall i :: i in before.rules ==> i in values
    requires forall i :: i in done ==> i in before.rules
    requires PassTo(before, s, fired, done, now, values) && id in before.rules && id !in done
    ensures var t := AfterOne(s, id, now, values[id]);
            PassTo(before, t, fired + if Fires(before.rules[id], now, values[id]) then [id] else [], done + [id], now, values)
  {
    hide Due, Finished, EvaluateCondition;
    var n := |before.firings|;
    var t := AfterOne(s, id, now, values[id]);
    assert HandledTo(before, t, done + [id], now, values);
    assert (done + [id])[..|done|] == done;
    var more := if Fires(before.rules[id], now, values[id]) then [Firing(id, now, before.rules[id].config)] else [];
    assert t.firings[n..] == s.firings[n..] + more;
  }

  /**
    One undisturbed pass over the rules in iteration order.  Exactly the due rules
    whose value meets their condition fire, in that order; a rule that is not due or
    does not fire keeps every field; and the pass is a run of the steps above.
  */
  method EvaluateAll(s0: State, order: seq<nat>, evaluator: nat, now: nat, values: map<nat, int>)
    returns (s: State, fired: seq<nat>, ghost trace: seq<Event>)
    requires evaluator !in s0.pending
    requires Distinct(order) && forall id :: id in order <==> id in s0.rules
    requires forall id :: id in s0.rules ==> id in values
    ensures PassTo(s0, s, fired, order, now, values)
    ensures forall id :: id in fired <==> id in s0.rules && Fires(s0.rules[id], now, values[id])
    ensures s == RunAll(s0, trace) && (s0.pending == map[] ==> OneEvaluationPerRule(s0, trace))
  {
    s, fired, trace := s0, [], [];
    PassStarts(s0, now, values);
    assert order[..0] == [];
    hide Next, Finished, FiredBy, Recorded, Due, EvaluateCondition, Distinct;
    for i := 0 to |order|
      invariant PassSoFar(s0, s, fired, order[..i], now, values, trace)
    {
      hide PassTo, PassSoFar, RunAll, OneEvaluationPerRule;
      var id := order[i];
      FreshInOrder(order, i);
      SoFarNext(s0, s, fired, order[..i], evaluator, id, now, values, trace);
      if Due(s.rules[id], now) {
        var rule := s.rules[id];
        s := Next(Next(s, BeginEvaluation(evaluator, id, now)), FinishEvaluation(evaluator, values[id]));
        trace := trace + [BeginEvaluation(evaluator, id, now), FinishEvaluation(evaluator, values[id])];
        if EvaluateCondition(rule.config.condition, values[id], rule.config.threshold) {
          fired := fired + [id];
        }
      }
    }
    assert order[..|order|] == order;
    FiredIsFiredBy(s0, s, fired, order, now, values);
  }

  ghost predicate PassSoFar(before: State, s: State, fired: seq<nat>, done: seq<nat>, now: nat, values: map<nat, int>,
                            trace: seq<Event>)
    requires forall id :: id in before.rules ==> id in values
    requires forall id :: id in done ==> id in before.rules
  {
    && PassTo(before, s, fired, done, now, values)
    && s == RunAll(before, trace) && (before.pending == map[] ==> OneEvaluationPerRule(before, trace))
  }

  lemma PassStarts(s0: State, now: nat, values: map<nat, int>)
    requires forall id :: id in s0.rules ==> id in values
    ensures PassSoFar(s0, s0, [], [], now, values, [])
  {
  }

  lemma SoFarNext(before: State, s: State, fired: seq<nat>, done: seq<nat>, ev: nat, id: nat, now: nat,
                  values: map<nat, int>, trace: seq<Event>)
    requires forall i :: i in before.rules ==> i in values
    requires forall i :: i in done ==> i in before.rules
    requires PassSoFar(before, s, fired, done, now, values, trace)
    requires ev !in before.pending && id in before.rules && id !in done
    ensures id in s.rules
    ensures var r := s.rules[id];
            var begin, finish := BeginEvaluation(ev, id, now), FinishEvaluation(ev, values[id]);
            if Due(r, now) then
              PassSoFar(before, Next(Next(s, begin), finish),
                        if EvaluateCondition(r.config.condition, values[id], r.config.threshold) then fired + [id] else fired,
                        done + [id], now, values, trace + [begin, finish])
            else
              PassSoFar(before, s, fired, done + [id], now, values, trace)
  {
    hide Next, RunAll, OneEvaluationPerRule, Finished, FiredBy, Recorded, Due, EvaluateCondition;
    assert s.rules.Keys == before.rules.Keys && s.pending == before.pending && s.rules[id] == before.rules[id];
    hide PassTo;
    PassNext(before, s, fired, done, id, now, values);
    if Due(s.rules[id], now) {
      UndisturbedRun(before, s, trace, ev, id, now, values[id]);
    }
    assert fired + [] == fired;
  }

  lemma FiredIsFiredBy(before: State, s: State, fired: seq<nat>, order: seq<nat>, now: nat, values: map<nat, int>)
    requires forall id :: id in before.rules ==> id in values
    requires forall id :: id in order <==> id in before.rules
    requires PassTo(before, s, fired, order, now, values)
    ensures forall id :: id in fired <==> id in before.rules && Fires(before.rules[id], now, values[id])
  {
    FiredByIs(before.rules, order, now, values);
  }

  lemma FreshInOrder(order: seq<nat>, i: nat)
    requires i < |order| && Distinct(order)
    ensures order[i] in order && order[i] !in order[..i] && order[..i + 1] == order[..i] + [order[i]]
  {
  }

  lemma UndisturbedRun(s0: State, s: State, trace: seq<Event>, ev: nat, id: nat, now: nat, value: int)
    requires s == RunAll(s0, trace) && s.pending == s0.pending && Starts(s, ev, id, now)
    requires s0.pending == map[] ==> OneEvaluationPerRule(s0, trace)
    ensures var longer := trace + [BeginEvaluation(ev, id, now), FinishEvaluation(ev, value)];
            var t := Next(Next(s, BeginEvaluation(ev, id, now)), FinishEvaluation(ev, value));
            t == AfterOne(s, id, now, value) && t == RunAll(s0, longer) &&
            (s0.pending == map[] ==> OneEvaluationPerRule(s0, longer))
  {
    hide Next, RunAll, OneEvaluationPerRule, Finished, Due, EvaluateCondition;
    UndisturbedEvaluation(s, ev, id, now, value);
    RunAppend(s0, trace, [BeginEvaluation(ev, id, now), FinishEvaluation(ev, value)]);
  }

  lemma FinishOf(s: State, ev: nat, value: int)
    requires ev in s.pending
    ensures var p := s.pending[ev];
            Next(s, FinishEvaluation(ev, value)) ==
            State(s.rules[p.id := Finished(p, value)], s.nextId, s.pending - {ev},
                  s.firings + if EvaluateCondition(p.rule.config.condition, value, p.rule.config.threshold)
                              then [Firing(p.id, p.now, p.rule.config)] else [])
  {
    hide EvaluateCondition;
  }

  /** Nothing happens between the read and the write-back. */
  lemma UndisturbedEvaluation(s: State, ev: nat, id: nat, now: nat, value: int)
    requires Starts(s, ev, id, now)
    ensures var es := [BeginEvaluation(ev, id, now), FinishEvaluation(ev, value)];
            var r := s.rules[id];
            var t := Next(Next(s, es[0]), es[1]);
            && RunAll(s, es) == t
            && t == State(s.rules[id := Finished(Pending(id, r, now), value)], s.nextId, s.pending,
                          s.firings + if Fires(r, now, value) then [Firing(id, now, r.config)] else [])
            && (s.pending == map[] ==> OneEvaluationPerRule(s, es))
  {
    var p := Pending(id, s.rules[id], now);
    var begin, finish := BeginEvaluation(ev, id, now), FinishEvaluation(ev, value);
    var s1 := s.(pending := s.pending[ev := p]);
    assert Next(s, begin) == s1;
    FinishOf(s1, ev, value);
    assert s1.pending - {ev} == s.pending;
    RunTwo(s, begin, finish);
    hide Due, EvaluateCondition, Finished;
  }

  lemma RunTwo(s: State, e: Event, f: Event)
    ensures RunAll(s, [e, f]) == Next(Next(s, e), f)
    ensures f.FinishEvaluation? && (s.pending == map[] || e.FinishEvaluation?) ==> OneEvaluationPerRule(s, [e, f])
  {
    hide Next;
    assert [e, f][1..] == [f] && [f][1..] == [];
    assert RunAll(s, [e, f]) == RunAll(Next(s, e), [f]) == RunAll(Next(Next(s, e), f), []);
    if f.FinishEvaluation? {
      assert OneEvaluationPerRule(Next(s, e), [f]);
    }
  }

  lemma {:induction false} RunAppend(s: State, es: seq<Event>, fs: seq<Event>)
    ensures RunAll(s, es + fs) == RunAll(RunAll(s, es), fs)
    ensures OneEvaluationPerRule(s, es) && OneEvaluationPerRule(RunAll(s, es), fs) ==> OneEvaluationPerRule(s, es + fs)
    decreases |es|
  {
    hide Next, Starts;
    if es == [] {
      assert es + fs == fs;
    } else {
      assert (es + fs)[1..] == es[1..] + fs;
      RunAppend(Next(s, es[0]), es[1..], fs);
    }
  }
}
