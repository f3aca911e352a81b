/**
  `watchPool`: polling a pair contract's events by ledger, at most one page per
  poll, remembering the highest ledger seen.

  `chain` is the ledger-ordered list of the events that pass the request's contract
  and topic filter, past and future; an event is identified by its position, and a
  poll sees some prefix of the list.  A filter that is honoured leaves no event of
  topic `Other`; the loop checks the topic again, so the theorems allow for some.
*/
module PoolWatcher {
  import opened FloorDivision

  const WATCH_LEDGER_WINDOW := 100
  const PAGE_LIMIT := 200

  datatype Topic = Swap | Mint | Burn | Other

  datatype ChainEvent = ChainEvent(ledger: nat, topic: Topic)

  predicate Watched(e: ChainEvent) { !e.topic.Other? }

  ghost predicate LedgerOrder(chain: seq<ChainEvent>) {
    && (forall i, j :: 0 <= i <= j < |chain| ==> chain[i].ledger <= chain[j].ledger)
    && (forall i :: 0 <= i < |chain| ==> chain[i].ledger >= 1)
  }

  /** The position of the first event at or after `ledger`. */
  function IndexFrom(chain: seq<ChainEvent>, ledger: nat): (k: nat)
    ensures k <= |chain|
    ensures k < |chain| ==> chain[k].ledger >= ledger || k == 0
    ensures k > 0 ==> chain[k - 1].ledger < ledger
  {
    if chain == [] then 0
    else if chain[|chain| - 1].ledger < ledger then |chain|
    else IndexFrom(chain[..|chain| - 1], ledger)
  }

  lemma {:induction false} IndexSplits(chain: seq<ChainEvent>, ledger: nat)
    requires LedgerOrder(chain)
    ensures forall i :: 0 <= i < |chain| ==> (i < IndexFrom(chain, ledger) <==> chain[i].ledger < ledger)
  {
    if chain != [] && chain[|chain| - 1].ledger >= ledger {
      IndexSplits(chain[..|chain| - 1], ledger);
    }
  }

  /** `polled` and `first` are for the statements only: whether anything was requested, and from which ledger on. */
  datatype Watch = Watch(active: bool, lastSeenLedger: nat, delivered: seq<nat>, polled: bool, first: nat)

  /** One poll: which calls fail, the two RPC answers, and on which events the callback throws. */
  datatype Poll = Poll(fails: bool, currentLedger: nat, visible: nat, throws: nat -> bool)

  function StartLedger(w: Watch, currentLedger: nat): nat {
    if w.lastSeenLedger > 0 then w.lastSeenLedger + 1
    else if currentLedger >= WATCH_LEDGER_WINDOW then currentLedger - WATCH_LEDGER_WINDOW else 0
  }

  function Max(a: nat, b: nat): nat { if a >= b then a else b }

  /** The loop over one response page, from position `k`. */
  function Process(chain: seq<ChainEvent>, w: Watch, k: nat, end: nat, p: Poll): Watch
    requires end <= |chain|
    decreases end - k
  {
    if k >= end then w
    else if chain[k].ledger > p.currentLedger then Process(chain, w, k + 1, end, p)
    else
      var seen := w.(lastSeenLedger := Max(w.lastSeenLedger, chain[k].ledger));
      if !Watched(chain[k]) then Process(chain, seen, k + 1, end, p)
      else
        var told := seen.(delivered := w.delivered + [k]);
        if p.throws(k) then told else Process(chain, told, k + 1, end, p)
  }

  /** The page `getEvents` answers: at most 200 visible events from the start ledger on. */
  function PageEnd(chain: seq<ChainEvent>, start: nat, p: Poll): nat {
    var a := IndexFrom(chain, start);
    Min(|chain|, Min(a + PAGE_LIMIT, Max(a, p.visible)))
  }

  /** `w` after a request from `start` on. */
  function Requested(w: Watch, start: nat): Watch {
    w.(polled := true, first := if w.polled then Min(w.first, start) else start)
  }

  /** What a poll does with its response. */
  function Handle(chain: seq<ChainEvent>, w: Watch, start: nat, p: Poll): Watch {
    Process(chain, Requested(w, start), IndexFrom(chain, start), PageEnd(chain, start, p), p)
  }

  predicate Performed(w: Watch, p: Poll) {
    w.active && !p.fails && StartLedger(w, p.currentLedger) <= p.currentLedger
  }

  function AfterPoll(chain: seq<ChainEvent>, w: Watch, p: Poll): Watch {
    if Performed(w, p) then Handle(chain, w, StartLedger(w, p.currentLedger), p) else w
  }

  function AfterPolls(chain: seq<ChainEvent>, w: Watch, ps: seq<Poll>): Watch
    decreases |ps|
  {
    if ps == [] then w else AfterPolls(chain, AfterPoll(chain, w, ps[0]), ps[1..])
  }

  const NEW_WATCH := Watch(true, 0, [], false, 0)

  // ----- the closure's variables and its loop

  class Watcher {
    var active: bool
    var lastSeenLedger: nat
    var delivered: seq<nat>      // the events the callback was called with
    ghost var watch: Watch

    ghost predicate Valid()
      reads this
    {
      active == watch.active && lastSeenLedger == watch.lastSeenLedger && delivered == watch.delivered
    }

    constructor ()
      ensures Valid() && watch == NEW_WATCH
    {
      active, lastSeenLedger, delivered, watch := true, 0, [], NEW_WATCH;
    }

    method DoPoll(chain: seq<ChainEvent>, p: Poll)
      requires Valid()
      modifies this
      ensures Valid() && watch == AfterPoll(chain, old(watch), p)
      ensures LedgerOrder(chain) ==> Delivers(chain, old(watch), p, watch)
    {
      hide Delivers, LedgerOrder;
      if LedgerOrder(chain) { PollDeliversExactly(chain, watch, p); }
      if !active || p.fails {
        return;
      }
      var startLedger := StartLedger(Watch(active, lastSeenLedger, [], false, 0), p.currentLedger);
      if startLedger > p.currentLedger {
        return;
      }
      watch := Requested(watch, startLedger);
      var k, end := IndexFrom(chain, startLedger), PageEnd(chain, startLedger, p);
      ghost var goal := Process(chain, watch, k, end, p);
      while k < end
        invariant Valid() && goal == Process(chain, watch, k, end, p)
        decreases end - k
      {
        var ev := chain[k];
        if ev.ledger > p.currentLedger {
          k := k + 1;
          continue;
        }
        if ev.ledger > lastSeenLedger {
          lastSeenLedger := ev.ledger;
        }
        watch := watch.(lastSeenLedger := lastSeenLedger);
        if Watched(ev) {
          delivered := delivered + [k];
          watch := watch.(delivered := delivered);
          if p.throws(k) {
            return;
          }
        }
        k := k + 1;
      }
    }

    method Unsubscribe()
      requires Valid()
      modifies this
      ensures Valid() && watch == old(watch).(active := false)
    {
      active := false;
      watch := watch.(active := false);
    }
  }

  // ----- nothing twice, and nothing late

  /** Deliveries are in ledger order, without repetition, and never above the highest ledger seen. */
  ghost predicate Ordered(chain: seq<ChainEvent>, w: Watch) {
    && (forall i :: 0 <= i < |w.delivered| ==>
          w.delivered[i] < |chain| && Watched(chain[w.delivered[i]]) && chain[w.delivered[i]].ledger <= w.lastSeenLedger)
    && (forall i, j :: 0 <= i < j < |w.delivered| ==> w.delivered[i] < w.delivered[j])
  }

  ghost predicate Below(s: seq<nat>, k: nat) {
    forall i :: 0 <= i < |s| ==> s[i] < k
  }

  lemma TellKeepsOrder(chain: seq<ChainEvent>, w: Watch, k: nat)
    requires k < |chain| && Ordered(chain, w) && Below(w.delivered, k)
    ensures var seen := w.(lastSeenLedger := Max(w.lastSeenLedger, chain[k].ledger));
            && Ordered(chain, seen) && Below(w.delivered, k + 1)
            && (Watched(chain[k]) ==>
                  Ordered(chain, seen.(delivered := w.delivered + [k])) && Below(w.delivered + [k], k + 1))
  {
  }

  lemma {:induction false} ProcessKeepsOrder(chain: seq<ChainEvent>, w: Watch, k: nat, end: nat, p: Poll)
    requires end <= |chain| && Ordered(chain, w) && Below(w.delivered, k)
    ensures var t := Process(chain, w, k, end, p);
            && Ordered(chain, t)
            && w.lastSeenLedger <= t.lastSeenLedger
            && w.delivered <= t.delivered
            && (forall i :: |w.delivered| <= i < |t.delivered| ==> t.delivered[i] >= k)
    decreases end - k
  {
    hide Ordered, Below;
    if k < end {
      TellKeepsOrder(chain, w, k);
      if chain[k].ledger > p.currentLedger {
        ProcessKeepsOrder(chain, w, k + 1, end, p);
      } else {
        var seen := w.(lastSeenLedger := Max(w.lastSeenLedger, chain[k].ledger));
        if !Watched(chain[k]) {
          ProcessKeepsOrder(chain, seen, k + 1, end, p);
        } else if !p.throws(k) {
          ProcessKeepsOrder(chain, seen.(delivered := w.delivered + [k]), k + 1, end, p);
        }
      }
    }
  }

  lemma PollKeepsOrder(chain: seq<ChainEvent>, w: Watch, p: Poll)
    requires LedgerOrder(chain) && Ordered(chain, w)
    ensures var t := AfterPoll(chain, w, p);
            && Ordered(chain, t)
            && w.lastSeenLedger <= t.lastSeenLedger && w.delivered <= t.delivered
            && (forall i :: |w.delivered| <= i < |t.delivered| ==> chain[t.delivered[i]].ledger > w.lastSeenLedger)
  {
    if Performed(w, p) {
      var start := StartLedger(w, p.currentLedger);
      IndexSplits(chain, start);
      ProcessKeepsOrder(chain, Requested(w, start), IndexFrom(chain, start), PageEnd(chain, start, p), p);
    }
  }

  /**
    However polls fail, pages cut or callbacks throw, no event is delivered twice;
    and an event that has been passed over is never delivered later.
  */
  lemma {:induction false} NothingTwiceNothingLate(chain: seq<ChainEvent>, w: Watch, ps: seq<Poll>, k: nat)
    requires LedgerOrder(chain) && Ordered(chain, w)
    ensures var t := AfterPolls(chain, w, ps);
            && Ordered(chain, t) && w.delivered <= t.delivered
            && (k < |chain| && chain[k].ledger <= w.lastSeenLedger && k !in w.delivered ==> k !in t.delivered)
    decreases |ps|
  {
    if ps != [] {
      PollKeepsOrder(chain, w, ps[0]);
      var t := AfterPoll(chain, w, ps[0]);
      NothingTwiceNothingLate(chain, t, ps[1..], k);
    }
  }

  // ----- every event exactly once

  /** One past the last event the loop handles: it stops after the first callback that throws. */
  function StopAt(chain: seq<ChainEvent>, k: nat, m: nat, p: Poll): (stop: nat)
    requires m <= |chain|
    ensures k <= stop && (stop <= m || stop == k)
    decreases m - k
  {
    if k >= m then k
    else if Watched(chain[k]) && p.throws(k) then k + 1
    else StopAt(chain, k + 1, m, p)
  }

  /** The same for a whole poll: of its page, the loop skips what lies past the poll's current ledger. */
  function Stop(chain: seq<ChainEvent>, start: nat, p: Poll): (stop: nat)
    ensures IndexFrom(chain, start) <= stop <= |chain|
  {
    StopAt(chain, IndexFrom(chain, start),
           Min(PageEnd(chain, start, p), IndexFrom(chain, p.currentLedger + 1)), p)
  }

  /**
    The poll loses no event: none of the ledger at which its loop ends comes later,
    and if it is the first to see anything, none lies before its start in what
    earlier polls had requested in vain.
  */
  ghost predicate LosesNothing(chain: seq<ChainEvent>, w: Watch, p: Poll) {
    Performed(w, p) ==>
      var start := StartLedger(w, p.currentLedger);
      var a, stop := IndexFrom(chain, start), Stop(chain, start, p);
      a < stop ==>
        && (forall i :: stop <= i < |chain| && Watched(chain[i]) ==> chain[i].ledger != chain[stop - 1].ledger)
        && (w.polled && w.lastSeenLedger == 0 ==> forall i :: 0 <= i < a && Watched(chain[i]) ==> chain[i].ledger < w.first)
  }

  ghost predicate LoseNothing(chain: seq<ChainEvent>, w: Watch, ps: seq<Poll>)
    decreases |ps|
  {
    ps != [] ==> LosesNothing(chain, w, ps[0]) && LoseNothing(chain, AfterPoll(chain, w, ps[0]), ps[1..])
  }

  /** The swap, mint and burn events from the first requested to the highest seen ledger. */
  predicate Expected(chain: seq<ChainEvent>, w: Watch, k: nat)
    requires k < |chain|
  {
    Watched(chain[k]) && w.first <= chain[k].ledger <= w.lastSeenLedger
  }

  ghost predicate NothingMissing(chain: seq<ChainEvent>, w: Watch) {
    forall k :: 0 <= k < |chain| && Expected(chain, w, k) ==> k in w.delivered
  }

  ghost predicate NothingElse(chain: seq<ChainEvent>, w: Watch) {
    && (forall k :: k in w.delivered ==> k < |chain| && Expected(chain, w, k))
    && (w.lastSeenLedger > 0 ==> w.polled && w.first <= w.lastSeenLedger)
  }

  /** What the loop over a page does, as a set of events. */
  lemma {:induction false} ProcessHandles(chain: seq<ChainEvent>, w: Watch, k: nat, m: nat, end: nat, p: Poll)
    requires k <= m <= end <= |chain| && LedgerOrder(chain)
    requires forall i :: k <= i < end ==> (i < m <==> chain[i].ledger <= p.currentLedger)
    ensures var t, stop := Process(chain, w, k, end, p), StopAt(chain, k, m, p);
            && t == w.(delivered := t.delivered, lastSeenLedger := t.lastSeenLedger)
            && t.lastSeenLedger == (if k < stop then Max(w.lastSeenLedger, chain[stop - 1].ledger) else w.lastSeenLedger)
            && (forall i :: i in t.delivered <==> i in w.delivered || (k <= i < stop && Watched(chain[i])))
    decreases end - k
  {
    if k < m {
      var seen := w.(lastSeenLedger := Max(w.lastSeenLedger, chain[k].ledger));
      var told := if Watched(chain[k]) then seen.(delivered := w.delivered + [k]) else seen;
      if !(Watched(chain[k]) && p.throws(k)) {
        ProcessHandles(chain, told, k + 1, m, end, p);
      }
    } else if k < end {
      ProcessHandles(chain, w, k + 1, k + 1, end, p);
    }
  }

  lemma IndexMono(chain: seq<ChainEvent>, l: nat, m: nat)
    requires LedgerOrder(chain) && l <= m
    ensures IndexFrom(chain, l) <= IndexFrom(chain, m)
  {
    hide IndexFrom;
    IndexSplits(chain, l);
    IndexSplits(chain, m);
  }

  /** Where a page splits into the events up to the poll's current ledger and those past it. */
  lemma PageSplits(chain: seq<ChainEvent>, start: nat, p: Poll)
    requires LedgerOrder(chain) && start <= p.currentLedger
    ensures var a, end, upTo := IndexFrom(chain, start), PageEnd(chain, start, p), IndexFrom(chain, p.currentLedger + 1);
            && a <= Min(end, upTo) && end <= |chain|
            && (forall i :: 0 <= i < |chain| ==> (i < a <==> chain[i].ledger < start))
            && (forall i :: 0 <= i < end ==> (i < Min(end, upTo) <==> chain[i].ledger <= p.currentLedger))
  {
    hide IndexFrom;
    IndexSplits(chain, start);
    IndexSplits(chain, p.currentLedger + 1);
    IndexMono(chain, start, p.currentLedger + 1);
  }

  /** What a poll that requests from `start` on does. */
  lemma HandleEffect(chain: seq<ChainEvent>, w: Watch, start: nat, p: Poll)
    requires LedgerOrder(chain) && start <= p.currentLedger
    ensures var t := Handle(chain, w, start, p);
            var a, stop := IndexFrom(chain, start), Stop(chain, start, p);
            && t == Requested(w, start).(delivered := t.delivered, lastSeenLedger := t.lastSeenLedger)
            && t.lastSeenLedger == (if a < stop then Max(w.lastSeenLedger, chain[stop - 1].ledger) else w.lastSeenLedger)
            && (forall i :: i in t.delivered <==> i in w.delivered || (a <= i < stop && Watched(chain[i])))
            && (forall i :: 0 <= i < |chain| ==> (i < a <==> chain[i].ledger < start))
  {
    hide IndexFrom, Process, StopAt, PageEnd, LedgerOrder;
    PageSplits(chain, start, p);
    var end := PageEnd(chain, start, p);
    var a, m := IndexFrom(chain, start), Min(end, IndexFrom(chain, p.currentLedger + 1));
    ProcessHandles(chain, Requested(w, start), a, m, end, p);
    assert Handle(chain, w, start, p) == Process(chain, Requested(w, start), a, end, p);
    assert Stop(chain, start, p) == StopAt(chain, a, m, p);
    hide Handle, Stop;
  }

  // ----- one poll, event by event

  /** The first ledger a poll asks for: after the highest seen one, or 100 before the current one. */
  function AsksFrom(w: Watch, current: nat): int {
    if w.lastSeenLedger > 0 then w.lastSeenLedger + 1 else if current < 100 then 0 else current - 100
  }

  /** The response holds the event, which is visible and among the first 200 asked for, and the loop does not skip it. */
  predicate InResponse(chain: seq<ChainEvent>, w: Watch, p: Poll, i: nat) {
    && i < |chain| && i < p.visible
    && AsksFrom(w, p.currentLedger) <= chain[i].ledger <= p.currentLedger
    && (i < 200 || chain[i - 200].ledger < AsksFrom(w, p.currentLedger))
  }

  /** No callback for an earlier event of the response throws. */
  ghost predicate Reached(chain: seq<ChainEvent>, w: Watch, p: Poll, i: nat) {
    && InResponse(chain, w, p, i)
    && forall j: nat :: j < i && InResponse(chain, w, p, j) && Watched(chain[j]) ==> !p.throws(j)
  }

  lemma {:induction false} StopsBefore(chain: seq<ChainEvent>, k: nat, m: nat, p: Poll, i: nat)
    requires k <= i && m <= |chain|
    ensures i < StopAt(chain, k, m, p) <==> i < m && forall j :: k <= j < i ==> !(Watched(chain[j]) && p.throws(j))
    decreases m - k
  {
    if k < m && !(Watched(chain[k]) && p.throws(k)) && k < i {
      StopsBefore(chain, k + 1, m, p, i);
    }
  }

  lemma ReachedIsHandled(chain: seq<ChainEvent>, w: Watch, p: Poll, i: nat)
    requires LedgerOrder(chain) && StartLedger(w, p.currentLedger) <= p.currentLedger
    ensures var start := StartLedger(w, p.currentLedger);
            Reached(chain, w, p, i) <==> IndexFrom(chain, start) <= i < Stop(chain, start, p)
  {
    hide IndexFrom, StopAt, LedgerOrder;
    var start := StartLedger(w, p.currentLedger);
    var a, m := IndexFrom(chain, start), Min(PageEnd(chain, start, p), IndexFrom(chain, p.currentLedger + 1));
    PageSplits(chain, start, p);
    IndexSplits(chain, p.currentLedger + 1);
    forall j: nat | j <= i ensures InResponse(chain, w, p, j) <==> a <= j < m {
      assert j >= 200 && j < |chain| ==> (j - 200 < a <==> chain[j - 200].ledger < start);
    }
    if a <= i { StopsBefore(chain, a, m, p, i); }
  }

  /**
    What a poll makes of `w`, in terms of the events alone: it delivers the watched ones
    its loop reaches, and the mark then covers every event reached, and nothing more.
    A failed poll, and one after the unsubscription, changes nothing.
  */
  ghost predicate Delivers(chain: seq<ChainEvent>, w: Watch, p: Poll, t: Watch) {
    if w.active && !p.fails then
      && (forall i: nat :: i in t.delivered <==>
            i in w.delivered || (Reached(chain, w, p, i) && (chain[i].topic.Swap? || chain[i].topic.Mint? || chain[i].topic.Burn?)))
      && (forall i: nat :: Reached(chain, w, p, i) ==> chain[i].ledger <= t.lastSeenLedger)
      && (t.lastSeenLedger == w.lastSeenLedger ||
          exists i: nat :: Reached(chain, w, p, i) && chain[i].ledger == t.lastSeenLedger)
    else t == w
  }

  lemma PollDeliversExactly(chain: seq<ChainEvent>, w: Watch, p: Poll)
    requires LedgerOrder(chain)
    ensures Delivers(chain, w, p, AfterPoll(chain, w, p))
  {
    hide IndexFrom, Handle, Stop, Reached;
    if w.active && !p.fails {
      var start := StartLedger(w, p.currentLedger);
      if start <= p.currentLedger {
        HandleEffect(chain, w, start, p);
        forall i: nat ensures Reached(chain, w, p, i) <==> IndexFrom(chain, start) <= i < Stop(chain, start, p) {
          ReachedIsHandled(chain, w, p, i);
        }
        var stop := Stop(chain, start, p);
        if IndexFrom(chain, start) < stop { assert Reached(chain, w, p, stop - 1); }
      } else {
        NothingInResponse(chain, w, p);
      }
    }
  }

  lemma NothingInResponse(chain: seq<ChainEvent>, w: Watch, p: Poll)
    requires StartLedger(w, p.currentLedger) > p.currentLedger
    ensures forall i: nat :: !Reached(chain, w, p, i)
  {
  }

  /**
    A new watcher's first poll looks back 100 ledgers: with everything visible, no
    throwing callback and at most 200 events in that window it delivers exactly the
    swaps, mints and burns of the window.
  */
  lemma FirstPollLooksBack(chain: seq<ChainEvent>, p: Poll, i: nat)
    requires LedgerOrder(chain) && !p.fails && p.visible >= |chain| && forall k: nat :: !p.throws(k)
    requires forall k: nat :: k + 200 < |chain| && chain[k + 200].ledger <= p.currentLedger ==>
               chain[k].ledger + 100 < p.currentLedger
    ensures i in AfterPoll(chain, NEW_WATCH, p).delivered <==>
            && i < |chain| && chain[i].ledger <= p.currentLedger <= chain[i].ledger + 100
            && (chain[i].topic.Swap? || chain[i].topic.Mint? || chain[i].topic.Burn?)
  {
    PollDeliversExactly(chain, NEW_WATCH, p);
    assert i >= 200 && i < |chain| ==> chain[(i - 200) + 200] == chain[i];
  }

  lemma PollIsComplete(chain: seq<ChainEvent>, w: Watch, p: Poll)
    requires LedgerOrder(chain) && NothingElse(chain, w)
    ensures var t := AfterPoll(chain, w, p);
            && NothingElse(chain, t)
            && (NothingMissing(chain, w) ==> (NothingMissing(chain, t) <==> LosesNothing(chain, w, p)))
            && (w.lastSeenLedger > 0 ==> t.first == w.first) && w.lastSeenLedger <= t.lastSeenLedger
            && (forall k :: 0 <= k < |chain| && Expected(chain, w, k) && k !in w.delivered ==> k !in t.delivered)
  {
    hide IndexFrom, Handle, Stop;
    if Performed(w, p) {
      var start := StartLedger(w, p.currentLedger);
      HandleEffect(chain, w, start, p);
    }
  }

  lemma {:induction false} MissingStaysMissing(chain: seq<ChainEvent>, w: Watch, ps: seq<Poll>)
    requires LedgerOrder(chain) && NothingElse(chain, w) && !NothingMissing(chain, w)
    ensures !NothingMissing(chain, AfterPolls(chain, w, ps))
    decreases |ps|
  {
    hide AfterPoll, LosesNothing;
    if ps != [] {
      PollIsComplete(chain, w, ps[0]);
      MissingStaysMissing(chain, AfterPoll(chain, w, ps[0]), ps[1..]);
    }
  }

  lemma {:induction false} PollsAreComplete(chain: seq<ChainEvent>, w: Watch, ps: seq<Poll>)
    requires LedgerOrder(chain) && NothingElse(chain, w) && NothingMissing(chain, w)
    ensures NothingElse(chain, AfterPolls(chain, w, ps))
    ensures NothingMissing(chain, AfterPolls(chain, w, ps)) <==> LoseNothing(chain, w, ps)
    decreases |ps|
  {
    hide AfterPoll, LosesNothing, NothingElse, NothingMissing;
    if ps != [] {
      PollIsComplete(chain, w, ps[0]);
      var t := AfterPoll(chain, w, ps[0]);
      if LosesNothing(chain, w, ps[0]) {
        PollsAreComplete(chain, t, ps[1..]);
      } else {
        MissingStaysMissing(chain, t, ps[1..]);
        NothingElseAlways(chain, t, ps[1..]);
      }
    }
  }

  lemma {:induction false} NothingElseAlways(chain: seq<ChainEvent>, w: Watch, ps: seq<Poll>)
    requires LedgerOrder(chain) && NothingElse(chain, w)
    ensures NothingElse(chain, AfterPolls(chain, w, ps))
    decreases |ps|
  {
    hide AfterPoll, LosesNothing, NothingElse, NothingMissing;
    if ps != [] {
      PollIsComplete(chain, w, ps[0]);
      NothingElseAlways(chain, AfterPoll(chain, w, ps[0]), ps[1..]);
    }
  }

  /**
    Whatever polls fail, and whatever the RPC shows: the callback receives only swap,
    mint and burn events from the first requested to the highest seen ledger, each at
    most once and in order; and it has received every one of them if and only if no
    poll lost any.
  */
  lemma EveryEventExactlyOnce(chain: seq<ChainEvent>, ps: seq<Poll>)
    requires LedgerOrder(chain)
    ensures var t := AfterPolls(chain, NEW_WATCH, ps);
            && Ordered(chain, t)
            && (forall k :: k in t.delivered ==> k < |chain| && Expected(chain, t, k))
            && ((forall k :: 0 <= k < |chain| && Expected(chain, t, k) ==> k in t.delivered) <==>
                LoseNothing(chain, NEW_WATCH, ps))
  {
    hide AfterPoll, LosesNothing;
    assert NothingMissing(chain, NEW_WATCH);
    PollsAreComplete(chain, NEW_WATCH, ps);
    NothingTwiceNothingLate(chain, NEW_WATCH, ps, 0);
  }

  // ----- what a poll loses

  /** Of the ledger at which a poll's loop ends, everything after that point is lost for good. */
  lemma RestOfLedgerIsLost(chain: seq<ChainEvent>, w: Watch, p: Poll, i: nat, later: seq<Poll>)
    requires LedgerOrder(chain) && Ordered(chain, w) && Performed(w, p)
    requires var start := StartLedger(w, p.currentLedger);
             var stop := Stop(chain, start, p);
             IndexFrom(chain, start) < stop <= i < |chain| && chain[i].ledger == chain[stop - 1].ledger
    ensures i !in AfterPolls(chain, AfterPoll(chain, w, p), later).delivered
  {
    hide IndexFrom, Stop, Handle;
    HandleEffect(chain, w, StartLedger(w, p.currentLedger), p);
    PollKeepsOrder(chain, w, p);
    NothingTwiceNothingLate(chain, AfterPoll(chain, w, p), later, i);
  }

  /** A page that ends inside a ledger loses the next swap, mint or burn of that ledger for good. */
  lemma CutLedgerIsLost(chain: seq<ChainEvent>, w: Watch, p: Poll, later: seq<Poll>)
    requires LedgerOrder(chain) && Ordered(chain, w) && Performed(w, p)
    requires forall i: nat :: !p.throws(i)
    requires var start := StartLedger(w, p.currentLedger);
             var end := PageEnd(chain, start, p);
             IndexFrom(chain, start) < end < |chain| && chain[end].ledger == chain[end - 1].ledger <= p.currentLedger
    requires Watched(chain[PageEnd(chain, StartLedger(w, p.currentLedger), p)])
    ensures var end := PageEnd(chain, StartLedger(w, p.currentLedger), p);
            end !in AfterPolls(chain, AfterPoll(chain, w, p), later).delivered
  {
    hide IndexFrom, StopAt;
    var start := StartLedger(w, p.currentLedger);
    var end := PageEnd(chain, start, p);
    IndexSplits(chain, p.currentLedger + 1);
    NoThrowNoStop(chain, IndexFrom(chain, start), end, p);
    RestOfLedgerIsLost(chain, w, p, end, later);
  }

  lemma {:induction false} NoThrowNoStop(chain: seq<ChainEvent>, k: nat, m: nat, p: Poll)
    requires k <= m <= |chain| && forall i: nat :: !p.throws(i)
    ensures StopAt(chain, k, m, p) == m
    decreases m - k
  {
    if k < m {
      NoThrowNoStop(chain, k + 1, m, p);
    }
  }

  /** The callback throws for event `j`, and for none before it in the page. */
  ghost predicate FirstThrow(chain: seq<ChainEvent>, w: Watch, p: Poll, j: nat) {
    var start := StartLedger(w, p.currentLedger);
    && IndexFrom(chain, start) <= j < PageEnd(chain, start, p)
    && Watched(chain[j]) && p.throws(j) && (forall i: nat :: i < j ==> !p.throws(i))
  }

  /**
    The loop ends at an event whose callback throws, and the rest of that event's
    ledger is lost for good, since the next poll starts at a later ledger.
  */
  lemma ThrowLosesItsLedger(chain: seq<ChainEvent>, w: Watch, p: Poll, j: nat, i: nat, later: seq<Poll>)
    requires LedgerOrder(chain) && Ordered(chain, w) && Performed(w, p) && FirstThrow(chain, w, p, j)
    requires j < i < |chain| && chain[i].ledger == chain[j].ledger <= p.currentLedger
    ensures i !in AfterPolls(chain, AfterPoll(chain, w, p), later).delivered
  {
    hide IndexFrom, StopAt;
    var start := StartLedger(w, p.currentLedger);
    IndexSplits(chain, p.currentLedger + 1);
    StopsAtThrow(chain, IndexFrom(chain, start), j,
                 Min(PageEnd(chain, start, p), IndexFrom(chain, p.currentLedger + 1)), p);
    RestOfLedgerIsLost(chain, w, p, i, later);
  }

  lemma {:induction false} StopsAtThrow(chain: seq<ChainEvent>, k: nat, j: nat, m: nat, p: Poll)
    requires k <= j < m <= |chain| && Watched(chain[j]) && p.throws(j) && forall i: nat :: i < j ==> !p.throws(i)
    ensures StopAt(chain, k, m, p) == j + 1
    decreases j - k
  {
    if k < j {
      StopsAtThrow(chain, k + 1, j, m, p);
    }
  }
}
