/**
  `watchPool` when its timer fires while an earlier poll still waits for the RPC.
  A poll begins by fixing the ledger it requests from; its response is handled later,
  on whatever the closure's variables are by then.
*/
module OverlappingPolls {
  import opened Wrappers
  import opened FloorDivision
  import opened PoolWatcher

  /** A poll that has sent its request. */
  datatype Flight = Flight(start: nat, current: nat)

  datatype State = State(watch: Watch, flights: map<nat, Flight>)

  datatype Step =
    | Begin(id: nat, current: nat)
    | Finish(id: nat, fails: bool, visible: nat, throws: nat -> bool)
    | Unsubscribe

  predicate Starts(s: State, id: nat, current: nat) {
    s.watch.active && id !in s.flights && StartLedger(s.watch, current) <= current
  }

  function Next(chain: seq<ChainEvent>, s: State, e: Step): State {
    match e
    case Begin(id, current) =>
      if Starts(s, id, current) then s.(flights := s.flights[id := Flight(StartLedger(s.watch, current), current)]) else s
    case Finish(id, fails, visible, throws) =>
      if id !in s.flights then s else
      var f := s.flights[id];
      State(if fails || !s.watch.active then s.watch
            else Handle(chain, s.watch, f.start, Poll(false, f.current, visible, throws)),
            s.flights - {id})
    case Unsubscribe => s.(watch := s.watch.(active := false))
  }

  function RunAll(chain: seq<ChainEvent>, s: State, es: seq<Step>): State
    decreases |es|
  {
    if es == [] then s else RunAll(chain, Next(chain, s, es[0]), es[1..])
  }

  const START := State(NEW_WATCH, map[])

  /** A poll that begins and ends undisturbed is one poll of the sequential model. */
  lemma UndisturbedPoll(chain: seq<ChainEvent>, s: State, id: nat, p: Poll)
    requires id !in s.flights
    ensures Next(chain, Next(chain, s, Begin(id, p.currentLedger)), Finish(id, p.fails, p.visible, p.throws))
         == State(AfterPoll(chain, s.watch, p), s.flights)
  {
    hide Handle;
    assert s.flights[id := Flight(StartLedger(s.watch, p.currentLedger), p.currentLedger)] - {id} == s.flights;
  }

  /** After the unsubscription nothing is delivered, not even from polls in flight. */
  lemma UnsubscribedIsSilent(chain: seq<ChainEvent>, s: State, es: seq<Step>)
    ensures RunAll(chain, Next(chain, s, Unsubscribe), es).watch == s.watch.(active := false)
  {
    StaysInactive(chain, Next(chain, s, Unsubscribe), es);
  }

  lemma {:induction false} StaysInactive(chain: seq<ChainEvent>, s: State, es: seq<Step>)
    requires !s.watch.active
    ensures RunAll(chain, s, es).watch == s.watch
    decreases |es|
  {
    hide Handle;
    if es != [] {
      StaysInactive(chain, Next(chain, s, es[0]), es[1..]);
    }
  }

  // ----- when a poll may begin

  /** The response of the flight may contain this event, and the callback would be told of it. */
  predicate MayTell(chain: seq<ChainEvent>, f: Flight, i: nat) {
    && IndexFrom(chain, f.start) <= i < Min(|chain|, IndexFrom(chain, f.start) + PAGE_LIMIT)
    && Watched(chain[i]) && chain[i].ledger <= f.current
  }

  ghost predicate Share(chain: seq<ChainEvent>, f: Flight, g: Flight) {
    exists i: nat :: MayTell(chain, f, i) && MayTell(chain, g, i)
  }

  /** The new poll's page and the page of each poll in flight have no event in common. */
  ghost predicate Admitted(chain: seq<ChainEvent>, s: State, e: Step) {
    e.Begin? && Starts(s, e.id, e.current) ==>
      forall o :: o in s.flights ==> !Share(chain, s.flights[o], Flight(StartLedger(s.watch, e.current), e.current))
  }

  ghost predicate Guarded(chain: seq<ChainEvent>, s: State, es: seq<Step>)
    decreases |es|
  {
    es != [] ==> Admitted(chain, s, es[0]) && Guarded(chain, Next(chain, s, es[0]), es[1..])
  }

  /** The plain discipline: a poll begins only when none is in flight. */
  ghost predicate OneAtATime(chain: seq<ChainEvent>, s: State, es: seq<Step>)
    decreases |es|
  {
    es != [] ==>
      && (es[0].Begin? && Starts(s, es[0].id, es[0].current) ==> s.flights == map[])
      && OneAtATime(chain, Next(chain, s, es[0]), es[1..])
  }

  /** However things go on, no event is delivered twice if later polls begin one at a time. */
  ghost predicate SafeFrom(chain: seq<ChainEvent>, s: State) {
    forall es :: OneAtATime(chain, s, es) ==> Distinct(RunAll(chain, s, es).watch.delivered)
  }

  ghost predicate SafeThroughout(chain: seq<ChainEvent>, s: State, es: seq<Step>)
    decreases |es|
  {
    SafeFrom(chain, s) && (es != [] ==> SafeThroughout(chain, Next(chain, s, es[0]), es[1..]))
  }

  // ----- what one response delivers

  function Told(chain: seq<ChainEvent>, k: nat, end: nat, p: Poll): seq<nat>
    requires end <= |chain|
    decreases end - k
  {
    if k >= end then []
    else if chain[k].ledger > p.currentLedger || !Watched(chain[k]) then Told(chain, k + 1, end, p)
    else [k] + if p.throws(k) then [] else Told(chain, k + 1, end, p)
  }

  /** The loop appends what it tells, whatever the variables were, and the mark covers it. */
  lemma {:induction false} ProcessAppends(chain: seq<ChainEvent>, w: Watch, k: nat, end: nat, p: Poll)
    requires end <= |chain| && LedgerOrder(chain)
    ensures var t := Process(chain, w, k, end, p);
            && t.delivered == w.delivered + Told(chain, k, end, p)
            && t.active == w.active && w.lastSeenLedger <= t.lastSeenLedger
            && (forall i :: i in Told(chain, k, end, p) ==> i < end && chain[i].ledger <= t.lastSeenLedger)
    decreases end - k
  {
    if k < end {
      if chain[k].ledger > p.currentLedger {
        ProcessAppends(chain, w, k + 1, end, p);
      } else {
        var seen := w.(lastSeenLedger := Max(w.lastSeenLedger, chain[k].ledger));
        ProcessAppends(chain, if Watched(chain[k]) then seen.(delivered := w.delivered + [k]) else seen, k + 1, end, p);
      }
    }
  }

  lemma {:induction false} ToldIs(chain: seq<ChainEvent>, k: nat, end: nat, p: Poll)
    requires end <= |chain|
    ensures Distinct(Told(chain, k, end, p))
    ensures forall i :: i in Told(chain, k, end, p) ==>
              k <= i < end && Watched(chain[i]) && chain[i].ledger <= p.currentLedger
    ensures (forall i: nat :: !p.throws(i)) ==>
              forall i :: k <= i < end && Watched(chain[i]) && chain[i].ledger <= p.currentLedger ==>
                i in Told(chain, k, end, p)
    decreases end - k
  {
    if k < end {
      ToldIs(chain, k + 1, end, p);
    }
  }

  function Response(chain: seq<ChainEvent>, f: Flight, visible: nat, throws: nat -> bool): seq<nat> {
    var p := Poll(false, f.current, visible, throws);
    Told(chain, IndexFrom(chain, f.start), PageEnd(chain, f.start, p), p)
  }

  lemma ResponseIs(chain: seq<ChainEvent>, w: Watch, f: Flight, visible: nat, throws: nat -> bool)
    requires LedgerOrder(chain)
    ensures var told := Response(chain, f, visible, throws);
            var t := Handle(chain, w, f.start, Poll(false, f.current, visible, throws));
            && t.delivered == w.delivered + told && t.active == w.active && w.lastSeenLedger <= t.lastSeenLedger
            && Distinct(told)
            && (forall i :: i in told ==> i < |chain| && MayTell(chain, f, i) && chain[i].ledger <= t.lastSeenLedger)
            && (visible >= |chain| && (forall i: nat :: !throws(i)) ==> forall i: nat :: MayTell(chain, f, i) ==> i in told)
  {
    hide IndexFrom, Process, Told;
    var p := Poll(false, f.current, visible, throws);
    var a, end := IndexFrom(chain, f.start), PageEnd(chain, f.start, p);
    ProcessAppends(chain, Requested(w, f.start), a, end, p);
    ToldIs(chain, a, end, p);
  }

  // ----- a guarded run never repeats an event

  ghost predicate Sound(chain: seq<ChainEvent>, s: State) {
    && Distinct(s.watch.delivered)
    && (forall i :: i in s.watch.delivered ==> i < |chain| && chain[i].ledger <= s.watch.lastSeenLedger)
    && (forall o, i: nat :: o in s.flights && MayTell(chain, s.flights[o], i) ==> i !in s.watch.delivered)
    && (forall o, q :: o in s.flights && q in s.flights && o != q ==> !Share(chain, s.flights[o], s.flights[q]))
  }

  lemma DistinctAppend(d: seq<nat>, e: seq<nat>)
    requires Distinct(d) && Distinct(e) && forall i :: i in e ==> i !in d
    ensures Distinct(d + e)
  {
    forall i, j | 0 <= i < j < |d + e| ensures (d + e)[i] != (d + e)[j] {
      if i < |d| <= j {
        assert (d + e)[j] == e[j - |d|] && e[j - |d|] in e && d[i] in d;
      }
    }
  }

  lemma BeginIsSound(chain: seq<ChainEvent>, s: State, id: nat, current: nat)
    requires LedgerOrder(chain) && Sound(chain, s) && Admitted(chain, s, Begin(id, current))
    ensures Sound(chain, Next(chain, s, Begin(id, current)))
  {
    hide IndexFrom;
    if Starts(s, id, current) {
      var g := Flight(StartLedger(s.watch, current), current);
      IndexSplits(chain, g.start);
      forall i: nat | MayTell(chain, g, i) ensures i !in s.watch.delivered {
        assert chain[i].ledger >= 1;
      }
    }
  }

  lemma FinishIsSound(chain: seq<ChainEvent>, s: State, e: Step)
    requires LedgerOrder(chain) && Sound(chain, s) && e.Finish? && e.id in s.flights && !e.fails && s.watch.active
    ensures Sound(chain, Next(chain, s, e))
  {
    hide MayTell, Handle, Response;
    var f := s.flights[e.id];
    var told := Response(chain, f, e.visible, e.throws);
    ResponseIs(chain, s.watch, f, e.visible, e.throws);
    DistinctAppend(s.watch.delivered, told);
    forall o, i: nat | o in s.flights && o != e.id && MayTell(chain, s.flights[o], i) ensures i !in told {
      assert !Share(chain, f, s.flights[o]);
    }
  }

  lemma StepIsSound(chain: seq<ChainEvent>, s: State, e: Step)
    requires LedgerOrder(chain) && Sound(chain, s) && Admitted(chain, s, e)
    ensures Sound(chain, Next(chain, s, e))
  {
    hide MayTell, Handle, Distinct, Share;
    if e.Begin? {
      BeginIsSound(chain, s, e.id, e.current);
    } else if e.Finish? && e.id in s.flights && !e.fails && s.watch.active {
      FinishIsSound(chain, s, e);
    }
  }

  lemma {:induction false} OneAtATimeIsSound(chain: seq<ChainEvent>, s: State, es: seq<Step>)
    requires LedgerOrder(chain) && Sound(chain, s) && OneAtATime(chain, s, es)
    ensures Sound(chain, RunAll(chain, s, es))
    decreases |es|
  {
    hide Sound, Next, Starts;
    if es != [] {
      StepIsSound(chain, s, es[0]);
      OneAtATimeIsSound(chain, Next(chain, s, es[0]), es[1..]);
    }
  }

  // ----- and that is exactly what is needed

  const NEVER: nat -> bool := i => false

  /** The response shows the whole page, and no callback throws. */
  function InFull(id: nat, chain: seq<ChainEvent>): Step { Finish(id, false, |chain|, NEVER) }

  /** Two polls in flight that share an event deliver it twice once both are answered in full. */
  lemma SharedEventIsDeliveredTwice(chain: seq<ChainEvent>, s: State, a: nat, b: nat)
    requires LedgerOrder(chain) && s.watch.active && a != b && a in s.flights && b in s.flights
    requires Share(chain, s.flights[a], s.flights[b])
    ensures !Distinct(Next(chain, Next(chain, s, InFull(a, chain)), InFull(b, chain)).watch.delivered)
    ensures !SafeFrom(chain, s)
  {
    hide MayTell, Handle, Response;
    var f, g := s.flights[a], s.flights[b];
    var e1, e2 := InFull(a, chain), InFull(b, chain);
    var s1 := Next(chain, s, e1);
    var s2 := Next(chain, s1, e2);
    ResponseIs(chain, s.watch, f, |chain|, NEVER);
    ResponseIs(chain, s1.watch, g, |chain|, NEVER);
    var i: nat :| MayTell(chain, f, i) && MayTell(chain, g, i);
    RepeatedIsNotDistinct(s.watch.delivered, Response(chain, f, |chain|, NEVER), Response(chain, g, |chain|, NEVER), i);
    assert [e1, e2][1..] == [e2] && [e2][1..] == [];
    assert RunAll(chain, s, [e1, e2]) == RunAll(chain, s1, [e2]) == RunAll(chain, s2, []);
    assert OneAtATime(chain, s1, [e2]);
    assert OneAtATime(chain, s, [e1, e2]);
  }

  /** The timer fires again while the first poll waits: every event both can see is delivered twice. */
  lemma OverlappingPollsDeliverTwice(chain: seq<ChainEvent>, s: State, a: nat, b: nat, current: nat, later: nat, i: nat)
    requires LedgerOrder(chain) && a != b && Starts(s, a, current) && Starts(s, b, later)
    requires MayTell(chain, Flight(StartLedger(s.watch, current), current), i)
    requires MayTell(chain, Flight(StartLedger(s.watch, later), later), i)
    ensures var begun := Next(chain, Next(chain, s, Begin(a, current)), Begin(b, later));
            !Distinct(Next(chain, Next(chain, begun, InFull(a, chain)), InFull(b, chain)).watch.delivered)
  {
    hide MayTell, StartLedger;
    var begun := Next(chain, Next(chain, s, Begin(a, current)), Begin(b, later));
    SharedEventIsDeliveredTwice(chain, begun, a, b);
  }

  lemma RepeatedIsNotDistinct(d: seq<nat>, e: seq<nat>, f: seq<nat>, i: nat)
    requires i in e && i in f
    ensures !Distinct(d + e + f)
  {
    var j :| 0 <= j < |e| && e[j] == i;
    var k :| 0 <= k < |f| && f[k] == i;
    assert (d + e + f)[|d| + j] == i && (d + e + f)[|d| + |e| + k] == i;
  }

  lemma {:induction false} GuardIsExact(chain: seq<ChainEvent>, s: State, es: seq<Step>)
    requires LedgerOrder(chain) && Sound(chain, s)
    ensures Guarded(chain, s, es) <==> SafeThroughout(chain, s, es)
    decreases |es|
  {
    hide Sound, Next, Admitted, SafeFrom;
    SoundIsSafe(chain, s);
    if es != [] {
      if Admitted(chain, s, es[0]) {
        StepIsSound(chain, s, es[0]);
        GuardIsExact(chain, Next(chain, s, es[0]), es[1..]);
      } else {
        UnguardedBeginRepeats(chain, s, es[0]);
      }
    }
  }

  lemma SoundIsSafe(chain: seq<ChainEvent>, s: State)
    requires LedgerOrder(chain) && Sound(chain, s)
    ensures SafeFrom(chain, s)
  {
    forall es | OneAtATime(chain, s, es) ensures Distinct(RunAll(chain, s, es).watch.delivered) {
      OneAtATimeIsSound(chain, s, es);
    }
  }

  lemma UnguardedBeginRepeats(chain: seq<ChainEvent>, s: State, e: Step)
    requires LedgerOrder(chain) && !Admitted(chain, s, e)
    ensures !SafeFrom(chain, Next(chain, s, e))
  {
    hide Share, SafeFrom;
    var g := Flight(StartLedger(s.watch, e.current), e.current);
    var o :| o in s.flights && Share(chain, s.flights[o], g);
    SharedEventIsDeliveredTwice(chain, Next(chain, s, e), o, e.id);
  }

  /**
    Every state of a run is safe, in the sense that no continuation with separate
    polls delivers an event twice, if and only if each poll of the run began when its
    page had no event in common with the page of a poll in flight.
  */
  lemma NoRepetitionExactly(chain: seq<ChainEvent>, es: seq<Step>)
    requires LedgerOrder(chain)
    ensures Guarded(chain, START, es) <==> SafeThroughout(chain, START, es)
    ensures Guarded(chain, START, es) ==> Distinct(RunAll(chain, START, es).watch.delivered)
  {
    GuardIsExact(chain, START, es);
    if Guarded(chain, START, es) {
      SafeAtTheEnd(chain, START, es);
    }
  }

  lemma {:induction false} SafeAtTheEnd(chain: seq<ChainEvent>, s: State, es: seq<Step>)
    requires SafeThroughout(chain, s, es)
    ensures Distinct(RunAll(chain, s, es).watch.delivered)
    decreases |es|
  {
    hide Next, Distinct;
    if es != [] {
      SafeAtTheEnd(chain, Next(chain, s, es[0]), es[1..]);
    } else {
      assert OneAtATime(chain, s, []);
    }
  }
}
