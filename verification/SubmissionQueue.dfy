/**
  The two serialisers of transaction lifecycles: the client's promise chain
  (`submitTransaction`) and the bot's FIFO lock (`SequenceMutex.runExclusive`).

  Every call captures the current tail of the chain, installs its own tail, and
  runs once the captured tail is fulfilled.  The two differ only in when a call's
  own tail is fulfilled: the client relays both outcomes of the lifecycle, the lock
  releases in a `finally` attached to the promise the callback returns, which a
  callback that throws before returning one never reaches.

  A run is an arbitrary list of events; an event that is not enabled does nothing,
  so the theorems cover every interleaving of callers, lifecycles and ledger.
*/
module SubmissionQueue {
  import opened Wrappers

  datatype Discipline = RelayBothOutcomes | ReleaseInFinally

  datatype Settlement = Resolved | Rejected | ThrewSynchronously

  /** A lifecycle's sequence number is the account's number at `getAccount`, plus one. */
  datatype Phase =
    | Queued
    | Running
    | HasNumber(n: nat)
    | Sent(n: nat)
    | Settled(how: Settlement, used: Option<nat>)

  datatype Call = Call(after: Option<nat>, phase: Phase, released: bool)

  /** `started` records, for the statements only, the order in which lifecycles began. */
  datatype State = State(calls: seq<Call>, tail: Option<nat>, accountSeq: nat, started: seq<nat>)

  datatype Event =
    | Submit                              // a caller enqueues
    | Start(i: nat)                       // the captured tail is fulfilled, the lifecycle begins
    | ReadSequence(i: nat)                // getAccount
    | Send(i: nat)                        // sendTransaction
    | CloseTx(i: nat)                     // the ledger consumes the transaction's number
    | ForeignTx                           // another transaction of the account closes
    | Settle(i: nat, how: Settlement)
    | Release(i: nat)                     // the call's own tail is fulfilled

  function Init(accountSeq: nat): State { State([], None, accountSeq, []) }

  predicate Active(p: Phase) { p.Running? || p.HasNumber? || p.Sent? }

  function Number(p: Phase): Option<nat> {
    match p
    case HasNumber(n) => Some(n)
    case Sent(n) => Some(n)
    case Settled(_, used) => used
    case _ => None
  }

  predicate Releases(d: Discipline, how: Settlement) {
    d.RelayBothOutcomes? || !how.ThrewSynchronously?
  }

  function SetPhase(s: State, i: nat, p: Phase): State
    requires i < |s.calls|
  {
    s.(calls := s.calls[i := s.calls[i].(phase := p)])
  }

  function Next(d: Discipline, s: State, e: Event): State {
    match e
    case Submit => s.(calls := s.calls + [Call(s.tail, Queued, false)], tail := Some(|s.calls|))
    case ForeignTx => s.(accountSeq := s.accountSeq + 1)
    case Start(i) =>
      if i < |s.calls| && s.calls[i].phase.Queued? && TailFulfilled(s, s.calls[i].after)
      then SetPhase(s, i, Running).(started := s.started + [i]) else s
    case ReadSequence(i) =>
      if i < |s.calls| && s.calls[i].phase.Running? then SetPhase(s, i, HasNumber(s.accountSeq + 1)) else s
    case Send(i) =>
      if i < |s.calls| && s.calls[i].phase.HasNumber? then SetPhase(s, i, Sent(s.calls[i].phase.n)) else s
    case CloseTx(i) =>
      if i < |s.calls| && !s.calls[i].phase.HasNumber? && Number(s.calls[i].phase) == Some(s.accountSeq + 1)
      then s.(accountSeq := s.accountSeq + 1) else s
    case Settle(i, how) =>
      if i < |s.calls| && Active(s.calls[i].phase) && (how.ThrewSynchronously? ==> s.calls[i].phase.Running?)
      then SetPhase(s, i, Settled(how, if s.calls[i].phase.Sent? then Some(s.calls[i].phase.n) else None)) else s
    case Release(i) =>
      if i < |s.calls| && s.calls[i].phase.Settled? && Releases(d, s.calls[i].phase.how)
      then s.(calls := s.calls[i := s.calls[i].(released := true)]) else s
  }

  predicate TailFulfilled(s: State, tail: Option<nat>) {
    tail.None? || (tail.value < |s.calls| && s.calls[tail.value].released)
  }

  function RunAll(d: Discipline, s: State, es: seq<Event>): State
    decreases |es|
  {
    if es == [] then s else RunAll(d, Next(d, s, es[0]), es[1..])
  }

  // ----- mutual exclusion and order

  /** Calls form one chain; all before the last started one are done; all after it wait. */
  ghost predicate Chained(d: Discipline, s: State) {
    var m := |s.started|;
    && m <= |s.calls|
    && s.tail == (if s.calls == [] then None else Some(|s.calls| - 1))
    && (forall i :: 0 <= i < m ==> s.started[i] == i)
    && (forall i :: 0 <= i < |s.calls| ==> s.calls[i].after == if i == 0 then None else Some(i - 1))
    && (forall i :: 0 <= i < |s.calls| ==> (s.calls[i].phase.Queued? <==> m <= i))
    && (forall i :: 0 <= i < m - 1 ==> s.calls[i].released)
    && (forall i :: 0 <= i < |s.calls| ==> s.calls[i].released ==>
          s.calls[i].phase.Settled? && Releases(d, s.calls[i].phase.how))
  }

  lemma ChainedStep(d: Discipline, s: State, e: Event)
    requires Chained(d, s)
    ensures Chained(d, Next(d, s, e))
  {
  }

  lemma {:induction false} ChainedAlways(d: Discipline, s: State, es: seq<Event>)
    requires Chained(d, s)
    ensures Chained(d, RunAll(d, s, es))
    decreases |es|
  {
    if es != [] {
      ChainedStep(d, s, es[0]);
      ChainedAlways(d, Next(d, s, es[0]), es[1..]);
    }
  }

  /**
    In every interleaving at most one lifecycle lies between its start and its
    settlement, lifecycles start in call order, and none starts before its
    predecessor has settled and been released.
  */
  lemma LifecyclesAreSerialised(d: Discipline, accountSeq: nat, es: seq<Event>)
    ensures var s := RunAll(d, Init(accountSeq), es);
            && (forall k :: 0 <= k < |s.started| ==> s.started[k] == k)
            && (forall i, j :: 0 <= i < j < |s.calls| && Active(s.calls[i].phase) ==> s.calls[j].phase.Queued?)
            && (forall i, j :: 0 <= i < j < |s.calls| && !s.calls[j].phase.Queued? ==>
                  s.calls[i].phase.Settled? && s.calls[i].released)
  {
    ChainedAlways(d, Init(accountSeq), es);
  }

  // ----- a failed lifecycle never blocks the next one

  /** The last started call holds the lock forever. */
  predicate Wedged(d: Discipline, s: State) {
    var m := |s.started|;
    0 < m <= |s.calls| && s.calls[m - 1].phase.Settled? && !Releases(d, s.calls[m - 1].phase.how)
  }

  /** The last lifecycle to start threw before it returned a promise. */
  predicate LastThrew(s: State) {
    var m := |s.started|;
    0 < m <= |s.calls| && s.calls[m - 1].phase.Settled? && s.calls[m - 1].phase.how.ThrewSynchronously?
  }

  /** Only a synchronous throw wedges, and only the lock: a lifecycle that resolved or was rejected never does. */
  lemma WedgedExactly(d: Discipline, s: State)
    ensures Wedged(d, s) <==> d.ReleaseInFinally? && LastThrew(s)
  {
  }

  lemma {:induction false} RunAppend(d: Discipline, s: State, es: seq<Event>, fs: seq<Event>)
    ensures RunAll(d, s, es + fs) == RunAll(d, RunAll(d, s, es), fs)
    decreases |es|
  {
    if es == [] {
      assert es + fs == fs;
    } else {
      assert (es + fs)[1..] == es[1..] + fs;
      RunAppend(d, Next(d, s, es[0]), es[1..], fs);
    }
  }

  lemma RunThree(d: Discipline, s: State, e: Event, f: Event, g: Event)
    ensures RunAll(d, s, [e, f, g]) == Next(d, Next(d, Next(d, s, e), f), g)
  {
    hide Next;
    var s1 := Next(d, s, e);
    var s2 := Next(d, s1, f);
    assert [e, f, g][1..] == [f, g] && [f, g][1..] == [g] && [g][1..] == [];
    assert RunAll(d, s, [e, f, g]) == RunAll(d, s1, [f, g]) == RunAll(d, s2, [g]) == RunAll(d, Next(d, s2, g), []);
  }

  /** Unless the chain is wedged, every waiting call can still be brought to its start. */
  lemma {:induction false} EveryCallCanStart(d: Discipline, s: State, i: nat) returns (es: seq<Event>)
    requires Chained(d, s) && !Wedged(d, s) && i < |s.calls|
    ensures |RunAll(d, s, es).calls| == |s.calls|
    ensures Chained(d, RunAll(d, s, es)) && !RunAll(d, s, es).calls[i].phase.Queued?
    decreases i + 1 - |s.started|
  {
    var m := |s.started|;
    if i < m {
      es := [];
    } else {
      // settle the running lifecycle as a failure, release it, start the next one
      var prev := if m == 0 then 0 else m - 1;
      var now := [Settle(prev, Rejected), Release(prev), Start(m)];
      RunThree(d, s, now[0], now[1], now[2]);
      ChainedAlways(d, s, now);
      var t := RunAll(d, s, now);
      assert |t.started| == m + 1 && |t.calls| == |s.calls|;
      var rest := EveryCallCanStart(d, t, i);
      es := now + rest;
      RunAppend(d, s, now, rest);
    }
  }

  lemma {:induction false} WedgedForever(d: Discipline, s: State, es: seq<Event>)
    requires Chained(d, s) && Wedged(d, s)
    ensures RunAll(d, s, es).started == s.started && Chained(d, RunAll(d, s, es)) && Wedged(d, RunAll(d, s, es))
    ensures |s.calls| <= |RunAll(d, s, es).calls|
    decreases |es|
  {
    if es != [] {
      ChainedStep(d, s, es[0]);
      assert Next(d, s, es[0]).started == s.started;
      WedgedForever(d, Next(d, s, es[0]), es[1..]);
    }
  }

  /**
    Exactly when a waiting call can still start.  The client's chain is never
    wedged, so there every call can; the bot's lock is wedged exactly when the
    last callback to start threw before returning a promise.
  */
  lemma WaitingCallCanStartExactly(d: Discipline, accountSeq: nat, past: seq<Event>, i: nat)
    requires i < |RunAll(d, Init(accountSeq), past).calls|
    requires RunAll(d, Init(accountSeq), past).calls[i].phase.Queued?
    ensures var s := RunAll(d, Init(accountSeq), past);
            && ((exists es :: var t := RunAll(d, s, es); i < |t.calls| && !t.calls[i].phase.Queued?) <==> !Wedged(d, s))
            && (Wedged(d, s) <==> d.ReleaseInFinally? && LastThrew(s))
  {
    var s := RunAll(d, Init(accountSeq), past);
    ChainedAlways(d, Init(accountSeq), past);
    WedgedExactly(d, s);
    if Wedged(d, s) {
      forall es ensures var t := RunAll(d, s, es); i < |t.calls| ==> t.calls[i].phase.Queued? {
        WedgedForever(d, s, es);
      }
    } else {
      var es := EveryCallCanStart(d, s, i);
    }
  }

  /** An undisturbed lifecycle on an idle chain consumes exactly the account's next number and lets the next call start. */
  lemma UndisturbedLifecycle(d: Discipline, accountSeq: nat)
    ensures var s := RunAll(d, Init(accountSeq), [Submit, Start(0), ReadSequence(0)]);
            var t := RunAll(d, s, [Send(0), CloseTx(0), Settle(0, Resolved)]);
            var u := RunAll(d, t, [Release(0), Submit, Start(1)]);
            && s.calls == [Call(None, HasNumber(accountSeq + 1), false)] && s.accountSeq == accountSeq
            && t.calls == [Call(None, Settled(Resolved, Some(accountSeq + 1)), false)] && t.accountSeq == accountSeq + 1
            && u.calls == [t.calls[0].(released := true), Call(Some(0), Running, false)] && u.started == [0, 1]
  {
    var n := accountSeq + 1;
    var s0 := Init(accountSeq);
    RunThree(d, s0, Submit, Start(0), ReadSequence(0));
    var s := State([Call(None, HasNumber(n), false)], Some(0), accountSeq, [0]);
    assert Next(d, Next(d, Next(d, s0, Submit), Start(0)), ReadSequence(0)) == s;
    RunThree(d, s, Send(0), CloseTx(0), Settle(0, Resolved));
    var t := State([Call(None, Settled(Resolved, Some(n)), false)], Some(0), n, [0]);
    assert Next(d, Next(d, Next(d, s, Send(0)), CloseTx(0)), Settle(0, Resolved)) == t;
    RunThree(d, t, Release(0), Submit, Start(1));
    UndisturbedRelease(d, t, n);
  }

  /**
    The account's number moves by one when a sent transaction that carries the next
    number closes or a foreign one does, and at nothing else.
  */
  lemma NumberMovesExactly(d: Discipline, s: State, e: Event)
    ensures var closes := e.CloseTx? && e.i < |s.calls| && !s.calls[e.i].phase.HasNumber? &&
                          Number(s.calls[e.i].phase) == Some(s.accountSeq + 1);
            Next(d, s, e).accountSeq == if closes || e.ForeignTx? then s.accountSeq + 1 else s.accountSeq
  {
  }

  lemma UndisturbedRelease(d: Discipline, t: State, n: nat)
    requires t == State([Call(None, Settled(Resolved, Some(n)), false)], Some(0), n, [0])
    ensures Next(d, Next(d, Next(d, t, Release(0)), Submit), Start(1)) ==
            State([t.calls[0].(released := true), Call(Some(0), Running, false)], Some(1), n, [0, 1])
  {
    var freed := t.calls[0].(released := true);
    assert Next(d, t, Release(0)) == State([freed], Some(0), n, [0]);
    assert Next(d, State([freed], Some(0), n, [0]), Submit) ==
           State([freed, Call(Some(0), Queued, false)], Some(1), n, [0]);
  }

  // ----- sequence numbers

  /** The event settles a lifecycle whose transaction has not consumed its number yet. */
  predicate SettlesEarly(s: State, e: Event) {
    && e.Settle? && !e.how.ThrewSynchronously? && e.i < |s.calls| && s.calls[e.i].phase.Sent?
    && s.accountSeq < s.calls[e.i].phase.n
  }

  /** No lifecycle settles while its transaction could still be waiting for its number. */
  ghost predicate FinalBeforeSettling(d: Discipline, s: State, es: seq<Event>)
    decreases |es|
  {
    es != [] ==>
      && !SettlesEarly(s, es[0])
      && FinalBeforeSettling(d, Next(d, s, es[0]), es[1..])
  }

  /** Later callers use larger numbers. */
  ghost predicate CallersInOrder(s: State) {
    forall i, j :: 0 <= i < j < |s.calls| && Number(s.calls[i].phase).Some? && Number(s.calls[j].phase).Some? ==>
      Number(s.calls[i].phase).value < Number(s.calls[j].phase).value
  }

  ghost predicate NumbersIncrease(s: State) {
    && CallersInOrder(s)
    && (forall i :: 0 <= i < |s.calls| && Number(s.calls[i].phase).Some? ==>
          Number(s.calls[i].phase).value <= if s.calls[i].phase.Settled? then s.accountSeq else s.accountSeq + 1)
  }

  /** A number read but not yet sent is still the account's next number. */
  ghost predicate ReadIsCurrent(s: State) {
    forall i :: 0 <= i < |s.calls| && s.calls[i].phase.HasNumber? ==> s.calls[i].phase.n == s.accountSeq + 1
  }

  /** Every lifecycle before one that has started is settled. */
  ghost predicate Sequential(s: State) {
    forall i, j :: 0 <= i < j < |s.calls| && !s.calls[j].phase.Queued? ==> s.calls[i].phase.Settled?
  }

  lemma ChainedIsSequential(d: Discipline, s: State)
    requires Chained(d, s)
    ensures Sequential(s)
  {
  }

  lemma NumbersStep(d: Discipline, s: State, e: Event)
    requires Sequential(s) && NumbersIncrease(s) && FinalBeforeSettling(d, s, [e])
    ensures NumbersIncrease(Next(d, s, e))
  {
  }

  lemma CurrentStep(d: Discipline, s: State, e: Event)
    requires Sequential(s) && NumbersIncrease(s) && ReadIsCurrent(s) && e != ForeignTx
    ensures ReadIsCurrent(Next(d, s, e))
  {
  }

  lemma {:induction false} NumbersIncreaseAlways(d: Discipline, s: State, es: seq<Event>)
    requires Chained(d, s) && NumbersIncrease(s) && FinalBeforeSettling(d, s, es)
    ensures NumbersIncrease(RunAll(d, s, es))
    ensures ForeignTx !in es && ReadIsCurrent(s) ==> ReadIsCurrent(RunAll(d, s, es))
    decreases |es|
  {
    hide Next, Chained, Sequential, NumbersIncrease, ReadIsCurrent;
    if es != [] {
      ChainedIsSequential(d, s);
      ChainedStep(d, s, es[0]);
      NumbersStep(d, s, es[0]);
      if ForeignTx !in es && ReadIsCurrent(s) { CurrentStep(d, s, es[0]); }
      NumbersIncreaseAlways(d, Next(d, s, es[0]), es[1..]);
    }
  }

  /**
    If every transaction is final before its lifecycle settles, the numbers used
    strictly increase in call order, so no two callers ever share one; and while no
    foreign transaction interferes, a number is still the next one when it is sent.
  */
  lemma SequenceNumbersStrictlyIncrease(d: Discipline, accountSeq: nat, es: seq<Event>)
    requires FinalBeforeSettling(d, Init(accountSeq), es)
    ensures var s := RunAll(d, Init(accountSeq), es);
            && CallersInOrder(s)
            && (ForeignTx !in es ==> ReadIsCurrent(s))
  {
    NumbersIncreaseAlways(d, Init(accountSeq), es);
  }

  // ----- and finality is exactly what is needed

  /** However things go on, numbers stay in order if every later lifecycle settles finally. */
  ghost predicate SafeFrom(d: Discipline, s: State) {
    forall es :: FinalBeforeSettling(d, s, es) ==> CallersInOrder(RunAll(d, s, es))
  }

  ghost predicate SafeThroughout(d: Discipline, s: State, es: seq<Event>)
    decreases |es|
  {
    SafeFrom(d, s) && (es != [] ==> SafeThroughout(d, Next(d, s, es[0]), es[1..]))
  }

  /**
    If a lifecycle settles while its transaction still waits for its number, the next
    caller, waiting or still to come, reads the very same number.
  */
  lemma UnfinishedTransactionSharesItsNumber(d: Discipline, s: State, how: Settlement)
    requires Chained(d, s) && 0 < |s.started| && !how.ThrewSynchronously?
    requires s.calls[|s.started| - 1].phase == Sent(s.accountSeq + 1)
    ensures var m := |s.started|;
            var t := Next(d, RunAll(d, Next(d, s, Settle(m - 1, how)), [Submit, Release(m - 1), Start(m)]), ReadSequence(m));
            m < |t.calls| && Number(t.calls[m - 1].phase) == Number(t.calls[m].phase) == Some(s.accountSeq + 1)
  {
    var m := |s.started|;
    RunThree(d, Next(d, s, Settle(m - 1, how)), Submit, Release(m - 1), Start(m));
  }

  lemma {:induction false} SettlingNothingIsFinal(d: Discipline, s: State, es: seq<Event>)
    requires forall e :: e in es ==> !e.Settle?
    ensures FinalBeforeSettling(d, s, es)
    decreases |es|
  {
    hide Next;
    if es != [] {
      SettlingNothingIsFinal(d, Next(d, s, es[0]), es[1..]);
    }
  }

  lemma OnlyTheLastStartedIsActive(d: Discipline, s: State, i: nat)
    requires Chained(d, s) && i < |s.calls| && Active(s.calls[i].phase)
    ensures i + 1 == |s.started|
  {
  }

  lemma EarlySettlementIsUnsafe(d: Discipline, s: State, e: Event)
    requires Chained(d, s) && NumbersIncrease(s) && SettlesEarly(s, e)
    ensures !SafeFrom(d, Next(d, s, e))
  {
    OnlyTheLastStartedIsActive(d, s, e.i);
    UnfinishedTransactionSharesItsNumber(d, s, e.how);
    hide Next, Chained, NumbersIncrease, SettlesEarly;
    var m := |s.started|;
    var t := Next(d, s, e);
    var three := [Submit, Release(m - 1), Start(m)];
    RunAppend(d, t, three, [ReadSequence(m)]);
    var u := RunAll(d, t, three);
    assert [ReadSequence(m)][1..] == [];
    assert RunAll(d, u, [ReadSequence(m)]) == RunAll(d, Next(d, u, ReadSequence(m)), []);
    SettlingNothingIsFinal(d, t, three + [ReadSequence(m)]);
  }

  lemma {:induction false} FinalityIsExact(d: Discipline, s: State, es: seq<Event>)
    requires Chained(d, s) && NumbersIncrease(s)
    ensures FinalBeforeSettling(d, s, es) <==> SafeThroughout(d, s, es)
    decreases |es|
  {
    hide Next, Chained, Sequential, NumbersIncrease, SafeFrom, SettlesEarly;
    FinalRunsAreSafe(d, s);
    if es != [] {
      if SettlesEarly(s, es[0]) {
        EarlySettlementIsUnsafe(d, s, es[0]);
      } else {
        ChainedIsSequential(d, s);
        ChainedStep(d, s, es[0]);
        assert FinalBeforeSettling(d, s, [es[0]]);
        NumbersStep(d, s, es[0]);
        FinalityIsExact(d, Next(d, s, es[0]), es[1..]);
      }
    }
  }

  lemma FinalRunsAreSafe(d: Discipline, s: State)
    requires Chained(d, s) && NumbersIncrease(s)
    ensures SafeFrom(d, s)
  {
    forall es | FinalBeforeSettling(d, s, es) ensures CallersInOrder(RunAll(d, s, es)) {
      NumbersIncreaseAlways(d, s, es);
    }
  }

  /**
    In a run every state is safe, in the sense that callers keep using increasing
    numbers as long as later lifecycles settle finally, if and only if every lifecycle
    of the run settled only once its transaction could no longer wait for its number.
  */
  lemma NumbersAreUniqueExactly(d: Discipline, accountSeq: nat, es: seq<Event>)
    ensures FinalBeforeSettling(d, Init(accountSeq), es) <==> SafeThroughout(d, Init(accountSeq), es)
  {
    FinalityIsExact(d, Init(accountSeq), es);
  }
}
