/**
  Pair lookups that wait for the registry while the cache and the registry change:
  which answers can still arrive after an address has been invalidated.
*/
module InFlightLookups {
  import opened Wrappers
  import opened PairCache

  /** A lookup past its cache check; `answer` is what the registry said, once it has been read. */
  datatype Waiting = Waiting(token0: string, token1: string, answer: Option<Option<Address>>)

  datatype State = State(cache: Cache, registry: map<(string, string), Address>, waiting: map<nat, Waiting>)

  datatype Event =
    | Look(id: nat, tokenA: string, tokenB: string, bypassCache: bool, now: int)
    | ReadRegistry(id: nat)                                        // the ledger evaluates the call
    | Arrive(id: nat, now: int)                                    // the answer is stored
    | Fail(id: nat)
    | SetPair(token0: string, token1: string, address: Option<Address>)   // the registry changes
    | Change(step: Step)                                           // an invalidation or a preload

  function InRegistry(registry: map<(string, string), Address>, token0: string, token1: string): Option<Address> {
    if (token0, token1) in registry then Some(registry[(token0, token1)]) else None
  }

  function Next(ttl: int, s: State, e: Event): State {
    match e
    case Look(id, tokenA, tokenB, bypassCache, now) =>
      var r := LookIn(s.cache, tokenA, tokenB, bypassCache, now);
      if r.AskRegistry? && id !in s.waiting then s.(waiting := s.waiting[id := Waiting(r.token0, r.token1, None)]) else s
    case ReadRegistry(id) =>
      if id in s.waiting && s.waiting[id].answer.None? then
        var w := s.waiting[id];
        s.(waiting := s.waiting[id := w.(answer := Some(InRegistry(s.registry, w.token0, w.token1)))])
      else s
    case Arrive(id, now) =>
      if id in s.waiting && s.waiting[id].answer.Some? then
        var w := s.waiting[id];
        s.(cache := After(s.cache, ttl, Answered(w.token0, w.token1, w.answer.value, now)), waiting := s.waiting - {id})
      else s
    case Fail(id) => s.(waiting := s.waiting - {id})
    case SetPair(token0, token1, address) =>
      s.(registry := if address.None? then s.registry - {(token0, token1)}
                     else s.registry[(token0, token1) := address.value])
    case Change(step) => if step.Answered? then s else s.(cache := After(s.cache, ttl, step))
  }

  function RunAll(ttl: int, s: State, es: seq<Event>): State
    decreases |es|
  {
    if es == [] then s else RunAll(ttl, Next(ttl, s, es[0]), es[1..])
  }

  function Init(registry: map<(string, string), Address>): State { State(map[], registry, map[]) }

  /**
    An undisturbed lookup that misses stores what the registry holds for the sorted
    pair; one that hits waits for nothing; and the registry is what was last set.
  */
  lemma UndisturbedLookup(ttl: int, s: State, id: nat, tokenA: string, tokenB: string, bypassCache: bool, asked: int, at: int)
    requires id !in s.waiting
    ensures var r := LookIn(s.cache, tokenA, tokenB, bypassCache, asked);
            var t := Next(ttl, Next(ttl, Next(ttl, s, Look(id, tokenA, tokenB, bypassCache, asked)), ReadRegistry(id)), Arrive(id, at));
            if r.AskRegistry? then
              t == s.(cache := After(s.cache, ttl, Answered(r.token0, r.token1, InRegistry(s.registry, r.token0, r.token1), at)))
            else t == s
    ensures Next(ttl, Next(ttl, s, Look(id, tokenA, tokenB, bypassCache, asked)), Fail(id)) == s
    ensures forall address :: InRegistry(Next(ttl, s, SetPair(tokenA, tokenB, address)).registry, tokenA, tokenB) == address
    ensures forall step: Step :: !step.Answered? ==>
              Next(ttl, s, Change(step)) == s.(cache := After(s.cache, ttl, step))
  {
    hide After, LookIn;
    var r := LookIn(s.cache, tokenA, tokenB, bypassCache, asked);
    if r.AskRegistry? {
      var w := Waiting(r.token0, r.token1, None);
      var s1 := s.(waiting := s.waiting[id := w]);
      assert Next(ttl, s, Look(id, tokenA, tokenB, bypassCache, asked)) == s1;
      var s2 := s1.(waiting := s1.waiting[id := w.(answer := Some(InRegistry(s.registry, w.token0, w.token1)))]);
      assert Next(ttl, s1, ReadRegistry(id)) == s2;
      assert s2.waiting - {id} == s.waiting;
    }
  }

  /** The event does not bring the address in from outside. */
  ghost predicate NotAbout(e: Event, x: Address) {
    && (e.SetPair? ==> e.address != Some(x))
    && (e.Change? ==> !Stores(e.step, x))
  }

  ghost predicate NoneAbout(es: seq<Event>, x: Address) {
    forall i :: 0 <= i < |es| ==> NotAbout(es[i], x)
  }

  /** The address is neither in the registry nor with a lookup on its way. */
  ghost predicate Gone(s: State, x: Address) {
    && (forall k :: k in s.registry ==> s.registry[k] != x)
    && (forall id :: id in s.waiting ==> s.waiting[id].answer != Some(Some(x)))
  }

  /** No lookup will ever be answered `x` from the cache, unless `x` is brought in again from outside. */
  ghost predicate NeverAnswered(ttl: int, s: State, x: Address) {
    forall es, tokenA, tokenB, now :: NoneAbout(es, x) ==>
      LookIn(RunAll(ttl, s, es).cache, tokenA, tokenB, false, now) != Hit(Some(x))
  }

  lemma GoneStep(ttl: int, s: State, e: Event, x: Address)
    requires Gone(s, x) && FreeOf(s.cache, x) && NotAbout(e, x)
    ensures Gone(Next(ttl, s, e), x) && FreeOf(Next(ttl, s, e).cache, x)
  {
    hide FreeOf, Stores, After, LookIn;
    match e
    case Arrive(id, now) =>
      if id in s.waiting && s.waiting[id].answer.Some? {
        var w := s.waiting[id];
        var step := Answered(w.token0, w.token1, w.answer.value, now);
        AnswerStores(step, x);
        FreeAfterStep(s.cache, ttl, step, x);
      }
    case Change(step) => FreeAfterStep(s.cache, ttl, step, x);
    case _ =>
  }

  lemma AnswerStores(step: Step, x: Address)
    requires step.Answered?
    ensures Stores(step, x) <==> step.address == Some(x)
  {
    var answer := Answer(Key(step.token0, step.token1), step.address, step.now);
    assert AnswersOf(step) == [answer];
    NewestAfter([], answer);
    assert [] + [answer] == [answer];
    assert Newest([answer], answer.key) == Some(answer);
  }

  lemma {:induction false} GoneForGood(ttl: int, s: State, es: seq<Event>, x: Address)
    requires Gone(s, x) && FreeOf(s.cache, x) && NoneAbout(es, x)
    ensures FreeOf(RunAll(ttl, s, es).cache, x)
    decreases |es|
  {
    hide Gone, FreeOf, Next, NotAbout;
    if es != [] {
      GoneStep(ttl, s, es[0], x);
      assert forall i :: 0 <= i < |es[1..]| ==> es[1..][i] == es[i + 1];
      GoneForGood(ttl, Next(ttl, s, es[0]), es[1..], x);
    }
  }

  ghost predicate WaitingIsSorted(s: State) {
    forall id :: id in s.waiting ==>
      SortTokens(s.waiting[id].token0, s.waiting[id].token1) == Some((s.waiting[id].token0, s.waiting[id].token1))
  }

  lemma {:induction false} SortedAlways(ttl: int, s: State, es: seq<Event>)
    requires WaitingIsSorted(s)
    ensures WaitingIsSorted(RunAll(ttl, s, es))
    decreases |es|
  {
    hide After;
    if es != [] {
      if es[0].Look? { LessIsTotal(es[0].tokenA, es[0].tokenB); }
      SortedAlways(ttl, Next(ttl, s, es[0]), es[1..]);
    }
  }

  /** An answer read before the invalidation arrives after it, and is then looked up. */
  lemma ReadBeforeAnsweredAfter(ttl: int, s: State, id: nat, x: Address)
    requires WaitingIsSorted(s) && id in s.waiting && s.waiting[id].answer == Some(Some(x))
    ensures !NeverAnswered(ttl, s, x)
  {
    var w := s.waiting[id];
    var es := [Arrive(id, 0)];
    var t := Next(ttl, s, es[0]);
    assert RunAll(ttl, s, es) == t by { assert es[1..] == []; assert RunAll(ttl, t, []) == t; }
    StoredPush(s.cache, ttl, [], Answer(Key(w.token0, w.token1), Some(x), 0));
    assert [] + [Answer(Key(w.token0, w.token1), Some(x), 0)] == [Answer(Key(w.token0, w.token1), Some(x), 0)];
    assert LookIn(t.cache, w.token0, w.token1, false, ttl - 1) == Hit(Some(x));
    assert NoneAbout(es, x);
  }

  /**
    An invalidation is final exactly when no lookup has already read the address.
    After any run, if the registry no longer holds the address, then no later lookup is
    answered with it (unless it is registered or preloaded again) if and only if none
    of the lookups waiting at the invalidation had read it.
  */
  lemma InvalidationIsFinalExactly(ttl: int, registry: map<(string, string), Address>, es: seq<Event>, x: Address)
    requires forall k :: k in RunAll(ttl, Init(registry), es).registry ==>
               RunAll(ttl, Init(registry), es).registry[k] != x
    ensures var s := RunAll(ttl, Init(registry), es);
            NeverAnswered(ttl, Next(ttl, s, Change(Invalidated(Some(x)))), x) <==>
            forall id :: id in s.waiting ==> s.waiting[id].answer != Some(Some(x))
  {
    hide RunAll, LookIn;
    var s := RunAll(ttl, Init(registry), es);
    var t := Next(ttl, s, Change(Invalidated(Some(x))));
    SortedAlways(ttl, Init(registry), es);
    assert t.waiting == s.waiting && t.registry == s.registry && FreeOf(t.cache, x);
    if id :| id in s.waiting && s.waiting[id].answer == Some(Some(x)) {
      ReadBeforeAnsweredAfter(ttl, t, id, x);
    } else {
      forall fs, tokenA, tokenB, now | NoneAbout(fs, x)
        ensures LookIn(RunAll(ttl, t, fs).cache, tokenA, tokenB, false, now) != Hit(Some(x))
      {
        GoneForGood(ttl, t, fs, x);
        FreeCacheNeverAnswers(RunAll(ttl, t, fs).cache, x, tokenA, tokenB, false, now);
      }
    }
  }
}
