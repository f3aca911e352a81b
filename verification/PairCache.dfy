/**
  The factory module's pair-address cache: entries with an expiry, lookups in
  either token order, invalidation by address, and preloading.
*/
module PairCache {
  import opened Wrappers

  type Address = string

  datatype Entry = Entry(address: Option<Address>, expiresAt: int)

  /** For the statements only: an answer of the registry or of a preload, and when it was stored. */
  datatype Answer = Answer(key: string, address: Option<Address>, at: int)

  /** A lookup is answered from the cache, has to ask the registry, or throws. */
  datatype Lookup = Hit(address: Option<Address>) | AskRegistry(token0: string, token1: string) | IdenticalTokens

  // ----- sorted token order and cache keys

  /** JavaScript's `<` on strings. */
  predicate Less(a: string, b: string) {
    if b == [] then false
    else if a == [] then true
    else a[0] < b[0] || (a[0] == b[0] && Less(a[1..], b[1..]))
  }

  lemma {:induction false} LessIsTotal(a: string, b: string)
    ensures a == b ==> !Less(a, b)
    ensures a != b ==> (Less(a, b) <==> !Less(b, a))
    decreases |a|
  {
    if a != [] && b != [] {
      LessIsTotal(a[1..], b[1..]);
      assert a == [a[0]] + a[1..] && b == [b[0]] + b[1..];
    }
  }

  /** The texts agree up to position `k`, where `a` ends or has the smaller character. */
  ghost predicate FirstDifference(a: string, b: string, k: nat) {
    && k <= |a| && k < |b| && (forall i :: 0 <= i < k ==> a[i] == b[i])
    && (k == |a| || a[k] < b[k])
  }

  /** The order is the dictionary's. */
  lemma {:induction false} LessIsLexicographic(a: string, b: string)
    ensures Less(a, b) <==> exists k: nat :: FirstDifference(a, b, k)
    decreases |a|
  {
    if a != [] && b != [] && a[0] == b[0] {
      LessIsLexicographic(a[1..], b[1..]);
      if Less(a[1..], b[1..]) {
        var k: nat :| FirstDifference(a[1..], b[1..], k);
        assert forall i :: 1 <= i <= k ==> a[i] == a[1..][i - 1] && b[i] == b[1..][i - 1];
        assert FirstDifference(a, b, k + 1);
      }
      if k: nat :| FirstDifference(a, b, k) {
        assert FirstDifference(a[1..], b[1..], k - 1);
      }
    } else if b != [] {
      assert FirstDifference(a, b, 0) <==> Less(a, b);
    }
  }

  /** Sorting puts the smaller token first and refuses identical ones. */
  lemma SortTokensExactly(a: string, b: string)
    ensures SortTokens(a, b) == None <==> a == b
    ensures Less(a, b) ==> SortTokens(a, b) == Some((a, b)) && SortTokens(b, a) == Some((a, b))
  {
    LessIsTotal(a, b);
  }

  function SortTokens(a: string, b: string): Option<(string, string)> {
    if a == b then None else if Less(a, b) then Some((a, b)) else Some((b, a))
  }

  /** The order in which a caller names the two tokens does not matter. */
  lemma SortTokensIsSymmetric(a: string, b: string)
    ensures SortTokens(a, b) == SortTokens(b, a) && PairKey(a, b) == PairKey(b, a)
  {
    LessIsTotal(a, b);
  }

  function Key(token0: string, token1: string): string {
    token0 + ":" + token1
  }

  function PairKey(tokenA: string, tokenB: string): string {
    match SortTokens(tokenA, tokenB)
    case Some((token0, token1)) => Key(token0, token1)
    case None => ""
  }

  /** Addresses contain no colon, so different pairs never share a cache entry. */
  lemma KeysAreInjective(a: string, b: string, c: string, d: string)
    requires ':' !in a && ':' !in c && Key(a, b) == Key(c, d)
    ensures a == c && b == d
  {
    var k := Key(a, b);
    assert k[|a|] == ':' && k[|c|] == ':';
    assert forall i :: 0 <= i < |a| ==> k[i] == a[i];
    assert forall i :: 0 <= i < |c| ==> k[i] == c[i];
    assert |a| == |c|;
    assert a == k[..|a|] && c == k[..|c|] && b == k[|a| + 1..] && d == k[|c| + 1..];
  }

  // ----- where a cached entry comes from

  /** The newest answer stored under a key. */
  function Newest(log: seq<Answer>, key: string): Option<Answer> {
    if log == [] then None
    else if log[|log| - 1].key == key then Some(log[|log| - 1]) else Newest(log[..|log| - 1], key)
  }

  lemma {:induction false} NewestIsLogged(log: seq<Answer>, key: string)
    ensures Newest(log, key).Some? ==> Newest(log, key).value in log && Newest(log, key).value.key == key
    ensures Newest(log, key).None? ==> forall i :: 0 <= i < |log| ==> log[i].key != key
  {
    if log != [] {
      NewestIsLogged(log[..|log| - 1], key);
    }
  }

  lemma NewestAfter(log: seq<Answer>, x: Answer)
    ensures forall key :: Newest(log + [x], key) == if x.key == key then Some(x) else Newest(log, key)
  {
    assert (log + [x])[..|log|] == log;
  }

  // ----- the cache's operations on values

  type Cache = map<string, Entry>

  /** The cache after the answers are stored in order. */
  function Stored(cache: Cache, ttl: int, answers: seq<Answer>): Cache {
    if answers == [] then cache else
    var last := answers[|answers| - 1];
    Stored(cache, ttl, answers[..|answers| - 1])[last.key := Entry(last.address, last.at + ttl)]
  }

  lemma StoredPush(cache: Cache, ttl: int, answers: seq<Answer>, x: Answer)
    ensures Stored(cache, ttl, answers + [x]) == Stored(cache, ttl, answers)[x.key := Entry(x.address, x.at + ttl)]
  {
    assert (answers + [x])[..|answers|] == answers;
  }

  lemma StoredNothing(cache: Cache, ttl: int)
    ensures Stored(cache, ttl, []) == cache
  {
  }

  /** The newest answer under a key wins, and keys without an answer keep their entry. */
  lemma {:induction false} StoredIs(cache: Cache, ttl: int, answers: seq<Answer>, key: string)
    ensures var newest := Newest(answers, key);
            && (key in Stored(cache, ttl, answers) <==> newest.Some? || key in cache)
            && (newest.Some? ==>
                  Stored(cache, ttl, answers)[key] == Entry(newest.value.address, newest.value.at + ttl))
            && (newest.None? && key in cache ==> Stored(cache, ttl, answers)[key] == cache[key])
  {
    if answers != [] {
      StoredIs(cache, ttl, answers[..|answers| - 1], key);
    }
  }

  function Without(cache: Cache, pairAddress: Option<Address>): Cache {
    if pairAddress.None? then map[]
    else map key | key in cache && cache[key].address != pairAddress :: cache[key]
  }

  function LookIn(cache: Cache, tokenA: string, tokenB: string, bypassCache: bool, now: int): Lookup {
    match SortTokens(tokenA, tokenB)
    case None => IdenticalTokens
    case Some((t0, t1)) =>
      var key := Key(t0, t1);
      if !bypassCache && key in cache && now < cache[key].expiresAt then Hit(cache[key].address) else AskRegistry(t0, t1)
  }

  class FactoryModule {
    var cache: map<string, Entry>
    const cacheTtlMs: int
    ghost var log: seq<Answer>

    /** Every entry is the newest answer stored under its key, stamped with that answer's expiry. */
    ghost predicate Valid()
      reads this
    {
      forall key :: key in cache ==>
        var newest := Newest(log, key);
        newest.Some? && cache[key] == Entry(newest.value.address, newest.value.at + cacheTtlMs)
    }

    /** `address` is the newest answer under `key`, and it was stored less than the TTL ago. */
    ghost predicate IsRecentAnswer(key: string, address: Option<Address>, now: int)
      reads this
    {
      var newest := Newest(log, key);
      newest.Some? && newest.value.address == address && now - newest.value.at < cacheTtlMs
    }

    constructor (cacheTtlMs: int)
      ensures Valid() && cache == map[] && log == [] && this.cacheTtlMs == cacheTtlMs
    {
      this.cacheTtlMs := cacheTtlMs;
      cache, log := map[], [];
    }

    /**
      The part of `getPairAddress` before the registry is asked.  A hit, found or
      null, is the newest answer for the sorted pair and less than the TTL old; a
      cached answer that fresh is always used unless the cache is bypassed.
    */
    method BeginLookup(tokenA: string, tokenB: string, bypassCache: bool, now: int) returns (r: Lookup)
      requires Valid()
      ensures r.IdenticalTokens? <==> tokenA == tokenB
      ensures r.AskRegistry? ==> SortTokens(tokenA, tokenB) == Some((r.token0, r.token1))
      ensures r.Hit? ==> IsRecentAnswer(PairKey(tokenA, tokenB), r.address, now)
      ensures r == LookIn(cache, tokenA, tokenB, bypassCache, now)
      ensures r.Hit? <==> tokenA != tokenB && !bypassCache && PairKey(tokenA, tokenB) in cache &&
                          now < cache[PairKey(tokenA, tokenB)].expiresAt
    {
      var sorted := SortTokens(tokenA, tokenB);
      if sorted.None? {
        return IdenticalTokens;
      }
      var cacheKey := Key(sorted.value.0, sorted.value.1);
      if !bypassCache && cacheKey in cache && now < cache[cacheKey].expiresAt {
        return Hit(cache[cacheKey].address);
      }
      r := AskRegistry(sorted.value.0, sorted.value.1);
    }

    /** The part of `getPairAddress` after the registry has answered. */
    method FinishLookup(token0: string, token1: string, answer: Option<Address>, now: int)
      requires Valid()
      modifies this
      ensures Valid()
      ensures cache == After(old(cache), cacheTtlMs, Answered(token0, token1, answer, now))
      ensures log == old(log) + [Answer(Key(token0, token1), answer, now)]
    {
      StoredPush(cache, cacheTtlMs, [], Answer(Key(token0, token1), answer, now));
      assert [] + [Answer(Key(token0, token1), answer, now)] == [Answer(Key(token0, token1), answer, now)];
      Put(Answer(Key(token0, token1), answer, now));
    }

    /** `cache.set` with a fresh expiry. */
    method Put(x: Answer)
      requires Valid()
      modifies this
      ensures Valid() && log == old(log) + [x]
      ensures cache == old(cache)[x.key := Entry(x.address, x.at + cacheTtlMs)]
    {
      NewestAfter(log, x);
      cache := cache[x.key := Entry(x.address, x.at + cacheTtlMs)];
      log := log + [x];
    }

    /** Drops exactly the entries that resolve to the address, or everything. */
    method InvalidateCache(pairAddress: Option<Address>)
      requires Valid()
      modifies this
      ensures Valid() && log == old(log)
      ensures cache == After(old(cache), cacheTtlMs, Invalidated(pairAddress))
    {
      if pairAddress.None? {
        cache := map[];
        return;
      }
      cache := map key | key in cache && cache[key].address != pairAddress :: cache[key];
    }

    /** Stores the pairs up to the first with identical tokens, at which the source throws. */
    method PreLoadPairs(pairs: seq<(string, string, Address)>, now: int) returns (threw: bool)
      requires Valid()
      modifies this
      ensures Valid()
      ensures threw <==> exists i :: 0 <= i < |pairs| && pairs[i].0 == pairs[i].1
      ensures cache == After(old(cache), cacheTtlMs, PreLoad(pairs, now))
      ensures log == old(log) + Preloaded(pairs, now)
    {
      hide Stored, Newest, Valid;
      ghost var stored: seq<Answer> := [];
      assert Stored(cache, cacheTtlMs, []) == cache by { StoredNothing(cache, cacheTtlMs); }
      assert pairs[0..] == pairs;
      for i := 0 to |pairs|
        invariant Valid()
        invariant forall j :: 0 <= j < i ==> pairs[j].0 != pairs[j].1
        invariant cache == Stored(old(cache), cacheTtlMs, stored) && log == old(log) + stored
        invariant Preloaded(pairs, now) == stored + Preloaded(pairs[i..], now)
      {
        var sorted := SortTokens(pairs[i].0, pairs[i].1);
        assert pairs[i..][0] == pairs[i] && pairs[i..][1..] == pairs[i + 1..];
        if sorted.None? {
          assert stored + [] == stored;
          return true;
        }
        var x := Answer(Key(sorted.value.0, sorted.value.1), Some(pairs[i].2), now);
        StoredPush(old(cache), cacheTtlMs, stored, x);
        stored := stored + [x];
        Put(x);
      }
      assert stored + [] == stored;
      threw := false;
    }
  }

  /** The answers a preload stores. */
  function Preloaded(pairs: seq<(string, string, Address)>, now: int): seq<Answer> {
    if pairs == [] || pairs[0].0 == pairs[0].1 then [] else
    var sorted := SortTokens(pairs[0].0, pairs[0].1).value;
    [Answer(Key(sorted.0, sorted.1), Some(pairs[0].2), now)] + Preloaded(pairs[1..], now)
  }

  // ----- how long an invalidation lasts

  /** What changes the cache: a registry answer arriving, an invalidation, a preload. */
  datatype Step =
    | Answered(token0: string, token1: string, address: Option<Address>, now: int)
    | Invalidated(pairAddress: Option<Address>)
    | PreLoad(pairs: seq<(string, string, Address)>, now: int)

  function After(cache: Cache, ttl: int, step: Step): Cache {
    match step
    case Answered(t0, t1, address, now) => Stored(cache, ttl, [Answer(Key(t0, t1), address, now)])
    case Invalidated(pairAddress) => Without(cache, pairAddress)
    case PreLoad(pairs, now) => Stored(cache, ttl, Preloaded(pairs, now))
  }

  function AnswersOf(step: Step): seq<Answer> {
    match step
    case Answered(t0, t1, address, now) => [Answer(Key(t0, t1), address, now)]
    case Invalidated(_) => []
    case PreLoad(pairs, now) => Preloaded(pairs, now)
  }

  /** The step leaves `x` as its newest answer for some pair. */
  ghost predicate Stores(step: Step, x: Address) {
    exists key :: Newest(AnswersOf(step), key).Some? && Newest(AnswersOf(step), key).value.address == Some(x)
  }

  ghost predicate FreeOf(cache: Cache, x: Address) {
    forall key :: key in cache ==> cache[key].address != Some(x)
  }

  ghost predicate FreeThroughout(cache: Cache, ttl: int, steps: seq<Step>, x: Address)
    decreases |steps|
  {
    FreeOf(cache, x) && (steps != [] ==> FreeThroughout(After(cache, ttl, steps[0]), ttl, steps[1..], x))
  }

  lemma FreeAfterStep(cache: Cache, ttl: int, step: Step, x: Address)
    requires FreeOf(cache, x)
    ensures FreeOf(After(cache, ttl, step), x) <==> !Stores(step, x)
  {
    hide Stored;
    if !step.Invalidated? {
      var after := After(cache, ttl, step);
      forall key | key in after || Newest(AnswersOf(step), key).Some?
        ensures key in after
        ensures after[key].address == Some(x) <==>
                Newest(AnswersOf(step), key).Some? && Newest(AnswersOf(step), key).value.address == Some(x)
      {
        StoredIs(cache, ttl, AnswersOf(step), key);
      }
    }
  }

  /**
    After an address is invalidated no entry resolves to it, and this lasts exactly
    as long as no later answer of the registry and no later preload brings it back.
  */
  lemma {:induction false} InvalidationLastsExactly(cache: Cache, ttl: int, x: Address, steps: seq<Step>)
    ensures FreeThroughout(After(cache, ttl, Invalidated(Some(x))), ttl, steps, x) <==>
            forall i :: 0 <= i < |steps| ==> !Stores(steps[i], x)
  {
    StaysFreeExactly(After(cache, ttl, Invalidated(Some(x))), ttl, x, steps);
  }

  lemma {:induction false} StaysFreeExactly(cache: Cache, ttl: int, x: Address, steps: seq<Step>)
    requires FreeOf(cache, x)
    ensures FreeThroughout(cache, ttl, steps, x) <==> forall i :: 0 <= i < |steps| ==> !Stores(steps[i], x)
    decreases |steps|
  {
    hide After, FreeOf, Stores;
    if steps != [] {
      FreeAfterStep(cache, ttl, steps[0], x);
      assert forall i :: 0 < i < |steps| ==> steps[i] == steps[1..][i - 1];
      if !Stores(steps[0], x) {
        StaysFreeExactly(After(cache, ttl, steps[0]), ttl, x, steps[1..]);
      } else {
        assert steps[1..] == [] || !FreeThroughout(After(cache, ttl, steps[0]), ttl, steps[1..], x);
      }
    }
  }

  /** While an address is absent no lookup answers it from the cache. */
  lemma FreeCacheNeverAnswers(cache: Cache, x: Address, tokenA: string, tokenB: string, bypassCache: bool, now: int)
    requires FreeOf(cache, x)
    ensures LookIn(cache, tokenA, tokenB, bypassCache, now) != Hit(Some(x))
  {
  }

  /**
    A lookup already waiting for the registry when its pair's address is invalidated
    stores the old answer afterwards, and lookups return it for the whole TTL.
  */
  lemma LookupInFlightRestoresInvalidated(cache: Cache, ttl: int, tokenA: string, tokenB: string, bypassCache: bool,
                                          asked: int, x: Address, answered: int, later: int)
    requires LookIn(cache, tokenA, tokenB, bypassCache, asked).AskRegistry?
    requires later < answered + ttl
    ensures var r := LookIn(cache, tokenA, tokenB, bypassCache, asked);
            var invalidated := After(cache, ttl, Invalidated(Some(x)));
            && FreeOf(invalidated, x)
            && LookIn(After(invalidated, ttl, Answered(r.token0, r.token1, Some(x), answered)), tokenB, tokenA, false, later)
               == Hit(Some(x))
  {
    SortTokensIsSymmetric(tokenA, tokenB);
    var r := LookIn(cache, tokenA, tokenB, bypassCache, asked);
    LessIsTotal(tokenA, tokenB);
    StoredPush(After(cache, ttl, Invalidated(Some(x))), ttl, [], Answer(Key(r.token0, r.token1), Some(x), answered));
  }

  /**
    After an invalidation a cached null is still answered exactly if it was before and
    an address was given: a pair created meanwhile stays unfound until the TTL unless
    everything is cleared.
  */
  lemma CachedNullSurvivesInvalidation(cache: Cache, ttl: int, tokenA: string, tokenB: string, now: int,
                                       pairAddress: Option<Address>)
    ensures LookIn(After(cache, ttl, Invalidated(pairAddress)), tokenA, tokenB, false, now) == Hit(None) <==>
            pairAddress.Some? && LookIn(cache, tokenA, tokenB, false, now) == Hit(None)
  {
  }

  // ----- what the operations mean for lookups

  /** An answer is found under both token orders until its TTL has passed, and touches no other pair. */
  lemma AnswerIsFound(cache: Cache, ttl: int, tokenA: string, tokenB: string, address: Option<Address>, at: int,
                      now: int, otherA: string, otherB: string)
    requires SortTokens(tokenA, tokenB).Some?
    ensures var t := SortTokens(tokenA, tokenB).value;
            var after := After(cache, ttl, Answered(t.0, t.1, address, at));
            && (LookIn(after, tokenA, tokenB, false, now) == Hit(address) ==> now < at + ttl)
            && (now < at + ttl ==> LookIn(after, tokenA, tokenB, false, now) == Hit(address)
                                   && LookIn(after, tokenB, tokenA, false, now) == Hit(address))
            && (now >= at + ttl ==> LookIn(after, tokenA, tokenB, false, now).AskRegistry?)
            && (PairKey(otherA, otherB) != PairKey(tokenA, tokenB) ==>
                  LookIn(after, otherA, otherB, false, now) == LookIn(cache, otherA, otherB, false, now))
  {
    SortTokensIsSymmetric(tokenA, tokenB);
    LessIsTotal(tokenA, tokenB);
    var x := Answer(PairKey(tokenA, tokenB), address, at);
    StoredPush(cache, ttl, [], x);
    assert [] + [x] == [x];
  }

  /** An invalidation keeps exactly the hits on other addresses; cleared or dropped pairs go to the registry. */
  lemma InvalidationExactly(cache: Cache, ttl: int, pairAddress: Option<Address>, tokenA: string, tokenB: string, now: int)
    ensures var before := LookIn(cache, tokenA, tokenB, false, now);
            var after := LookIn(After(cache, ttl, Invalidated(pairAddress)), tokenA, tokenB, false, now);
            if before.Hit? && pairAddress.Some? && before.address != pairAddress then after == before
            else !after.Hit? && (before.Hit? ==> after.AskRegistry?) && (!before.Hit? ==> after == before)
  {
  }

  /** Which of the pairs a preload stores last under a key. */
  ghost predicate LastWithKey(pairs: seq<(string, string, Address)>, i: nat) {
    && i < |pairs|
    && (forall j :: 0 <= j < |pairs| ==> pairs[j].0 != pairs[j].1)
    && (forall j :: i < j < |pairs| ==> PairKey(pairs[j].0, pairs[j].1) != PairKey(pairs[i].0, pairs[i].1))
  }

  lemma {:induction false} NewestPreloaded(pairs: seq<(string, string, Address)>, now: int, i: nat)
    requires LastWithKey(pairs, i)
    ensures Newest(Preloaded(pairs, now), PairKey(pairs[i].0, pairs[i].1)) ==
            Some(Answer(PairKey(pairs[i].0, pairs[i].1), Some(pairs[i].2), now))
    decreases |pairs|
  {
    var key := PairKey(pairs[i].0, pairs[i].1);
    var x := Answer(PairKey(pairs[0].0, pairs[0].1), Some(pairs[0].2), now);
    var rest := pairs[1..];
    assert Preloaded(pairs, now) == [x] + Preloaded(rest, now);
    if i > 0 {
      assert LastWithKey(rest, i - 1);
      NewestPreloaded(rest, now, i - 1);
      NewestOfTail(x, Preloaded(rest, now), key);
    } else {
      assert forall j :: 0 <= j < |rest| ==> rest[j] == pairs[j + 1];
      NothingPreloaded(rest, now, key);
      NewestOfTail(x, Preloaded(rest, now), key);
    }
  }

  lemma {:induction false} NewestOfTail(x: Answer, log: seq<Answer>, key: string)
    ensures Newest([x] + log, key) ==
            if Newest(log, key).Some? then Newest(log, key) else if x.key == key then Some(x) else None
  {
    if log != [] {
      assert ([x] + log)[..|log|] == [x] + log[..|log| - 1];
      NewestOfTail(x, log[..|log| - 1], key);
    } else {
      assert [x] + log == [x] && [x][..0] == [];
    }
  }

  lemma {:induction false} NothingPreloaded(pairs: seq<(string, string, Address)>, now: int, key: string)
    requires forall j :: 0 <= j < |pairs| ==> pairs[j].0 != pairs[j].1 && PairKey(pairs[j].0, pairs[j].1) != key
    ensures Newest(Preloaded(pairs, now), key) == None
    decreases |pairs|
  {
    if pairs != [] {
      NothingPreloaded(pairs[1..], now, key);
      NewestOfTail(Answer(PairKey(pairs[0].0, pairs[0].1), Some(pairs[0].2), now), Preloaded(pairs[1..], now), key);
    }
  }

  /** After a preload each pair is found under both token orders at the last address given for it, for the TTL; others are as before. */
  lemma PreloadedPairsAreFound(cache: Cache, ttl: int, pairs: seq<(string, string, Address)>, at: int, i: nat, now: int,
                               otherA: string, otherB: string)
    requires LastWithKey(pairs, i)
    ensures var after := After(cache, ttl, PreLoad(pairs, at));
            && (now < at + ttl ==> LookIn(after, pairs[i].0, pairs[i].1, false, now) == Hit(Some(pairs[i].2))
                                   && LookIn(after, pairs[i].1, pairs[i].0, false, now) == Hit(Some(pairs[i].2)))
            && ((forall j :: 0 <= j < |pairs| ==> PairKey(pairs[j].0, pairs[j].1) != PairKey(otherA, otherB)) ==>
                  LookIn(after, otherA, otherB, false, now) == LookIn(cache, otherA, otherB, false, now))
  {
    hide Newest, Stored, Less;
    SortTokensIsSymmetric(pairs[i].0, pairs[i].1);
    LessIsTotal(pairs[i].0, pairs[i].1);
    NewestPreloaded(pairs, at, i);
    StoredIs(cache, ttl, Preloaded(pairs, at), PairKey(pairs[i].0, pairs[i].1));
    if forall j :: 0 <= j < |pairs| ==> PairKey(pairs[j].0, pairs[j].1) != PairKey(otherA, otherB) {
      NothingPreloaded(pairs, at, PairKey(otherA, otherB));
      StoredIs(cache, ttl, Preloaded(pairs, at), PairKey(otherA, otherB));
    }
  }

  // ----- reserves in the caller's token order

  /** The two reserves of `getPairInfo`, read off the sorted pair. */
  function ReservesFor(tokenA: string, tokenB: string, reserve0: int, reserve1: int): Option<(int, int)> {
    match SortTokens(tokenA, tokenB)
    case None => None
    case Some((t0, t1)) => Some(if t0 == tokenA then (reserve0, reserve1) else (reserve1, reserve0))
  }

  /** The token that sorts first owns the first reserve; identical tokens have none. */
  lemma ReservesGoBySortedOrder(tokenA: string, tokenB: string, reserve0: int, reserve1: int)
    ensures Less(tokenA, tokenB) ==> ReservesFor(tokenA, tokenB, reserve0, reserve1) == Some((reserve0, reserve1))
    ensures Less(tokenB, tokenA) ==> ReservesFor(tokenA, tokenB, reserve0, reserve1) == Some((reserve1, reserve0))
    ensures tokenA == tokenB <==> ReservesFor(tokenA, tokenB, reserve0, reserve1) == None
  {
    LessIsTotal(tokenA, tokenB);
  }

  /** Swapping the tokens swaps the reserves. */
  lemma ReservesFollowTheCaller(tokenA: string, tokenB: string, reserve0: int, reserve1: int)
    requires tokenA != tokenB
    ensures var ab := ReservesFor(tokenA, tokenB, reserve0, reserve1);
            var ba := ReservesFor(tokenB, tokenA, reserve0, reserve1);
            ab.Some? && ba.Some? && ab.value == (ba.value.1, ba.value.0)
  {
    SortTokensIsSymmetric(tokenA, tokenB);
  }
}
