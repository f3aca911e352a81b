/**
  The oracle module's observation cache: two-pass pruning on every observation,
  TWAPs from the two ends of the cache, and what both mean for whole histories.
*/
module TwapOracle {
  import opened Wrappers
  import opened FloorDivision

  const MIN_TWAP_WINDOW_SECONDS := 300
  const MAX_OBSERVATIONS := 500

  datatype Observation = Observation(price0Cumulative: int, price1Cumulative: int, timestamp: int)

  datatype Twap = Twap(price0: int, price1: int, timeWindow: int, start: Observation, end: Observation)

  datatype TwapError = EndNotAfterStart | WindowTooShort

  datatype TwapResult = Ok(twap: Twap) | Err(error: TwapError)

  function ComputeTwap(start: Observation, end: Observation, enforceMinWindow: bool): TwapResult {
    var elapsed := end.timestamp - start.timestamp;
    if elapsed <= 0 then Err(EndNotAfterStart)
    else if enforceMinWindow && elapsed < MIN_TWAP_WINDOW_SECONDS then Err(WindowTooShort)
    else Ok(Twap(TruncDiv(end.price0Cumulative - start.price0Cumulative, elapsed),
                 TruncDiv(end.price1Cumulative - start.price1Cumulative, elapsed),
                 elapsed, start, end))
  }

  // ----- pruning, one observation at a time

  function Newest(s: seq<Observation>): int
    requires s != []
  {
    s[|s| - 1].timestamp
  }

  /** Pass 1, from position `i`: drop while the entry behind still covers the window. */
  function FirstKept(s: seq<Observation>, i: nat): (k: nat)
    requires i < |s|
    ensures i <= k < |s|
    ensures k + 1 < |s| ==> Newest(s) - s[k + 1].timestamp < MIN_TWAP_WINDOW_SECONDS
    ensures i < k ==> Newest(s) - s[k].timestamp >= MIN_TWAP_WINDOW_SECONDS
    decreases |s| - i
  {
    if i + 1 < |s| && Newest(s) - s[i + 1].timestamp >= MIN_TWAP_WINDOW_SECONDS then FirstKept(s, i + 1) else i
  }

  function DropCovered(s: seq<Observation>): seq<Observation>
    requires s != []
  {
    s[FirstKept(s, 0)..]
  }

  /** Pass 2: the hard cap. */
  function LastOf(s: seq<Observation>, k: nat): seq<Observation> {
    if k <= |s| then s[|s| - k..] else s
  }

  function Insert(cache: seq<Observation>, o: Observation): seq<Observation> {
    LastOf(DropCovered(cache + [o]), MAX_OBSERVATIONS)
  }

  /** The cache after observing `history`, oldest first, since the pair was last cleared. */
  function Retained(history: seq<Observation>): seq<Observation> {
    if history == [] then [] else
    var last := |history| - 1;
    Insert(Retained(history[..last]), history[last])
  }

  lemma RetainedPush(history: seq<Observation>, o: Observation)
    ensures Retained([]) == []
    ensures Retained(history + [o]) == LastOf(DropCovered(Retained(history) + [o]), MAX_OBSERVATIONS)
  {
    assert (history + [o])[..|history|] == history;
  }

  /** What `getTWAP` answers from a cache that has just received its newest observation. */
  function TwapOf(cache: seq<Observation>, enforceMinWindow: bool): Option<Twap> {
    if |cache| < 2 then None else
    var start, end := cache[0], cache[|cache| - 1];
    if end.timestamp <= start.timestamp then None
    else if enforceMinWindow && end.timestamp - start.timestamp < MIN_TWAP_WINDOW_SECONDS then None
    else match ComputeTwap(start, end, false)
         case Ok(twap) => Some(twap)
         case Err(_) => None
  }

  // ----- the module's state

  class OracleModule {
    var cache: map<string, seq<Observation>>
    ghost var history: map<string, seq<Observation>>  // since the last clear

    ghost predicate Valid()
      reads this
    {
      && cache.Keys == history.Keys
      && forall p :: p in cache ==> history[p] != [] && cache[p] == Retained(history[p])
    }

    ghost function HistoryOf(pair: string): seq<Observation>
      reads this
    {
      if pair in history then history[pair] else []
    }

    constructor ()
      ensures Valid() && history == map[]
    {
      cache, history := map[], map[];
    }

    /** `o` is what the pair contract answers. */
    method Observe(pair: string, o: Observation)
      requires Valid()
      modifies this
      ensures Valid()
      ensures history == old(history)[pair := old(HistoryOf(pair)) + [o]]
    {
      hide Retained, DropCovered, LastOf;
      var existing := if pair in cache then cache[pair] else [];
      RetainedPush(HistoryOf(pair), o);
      existing := Prune(existing + [o]);
      cache, history := cache[pair := existing], history[pair := HistoryOf(pair) + [o]];
    }

    /** Both passes over an array that has just received its newest entry. */
    static method Prune(pushed: seq<Observation>) returns (existing: seq<Observation>)
      requires pushed != []
      ensures existing == LastOf(DropCovered(pushed), MAX_OBSERVATIONS)
    {
      existing := DropFromFront(pushed);
      if |existing| > MAX_OBSERVATIONS {
        existing := existing[|existing| - MAX_OBSERVATIONS..];
      }
    }

    static method DropFromFront(pushed: seq<Observation>) returns (existing: seq<Observation>)
      requires pushed != []
      ensures existing == DropCovered(pushed)
    {
      existing := pushed;
      ghost var dropped := 0;
      var newest := existing[|existing| - 1].timestamp;
      while |existing| > 1
        invariant 0 <= dropped < |pushed| && existing == pushed[dropped..]
        invariant FirstKept(pushed, dropped) == FirstKept(pushed, 0)
      {
        if newest - existing[1].timestamp >= MIN_TWAP_WINDOW_SECONDS {
          existing := existing[1..];
          dropped := dropped + 1;
        } else {
          break;
        }
      }
    }

    method GetTWAP(pair: string, o: Observation, enforceMinWindow: bool) returns (r: Option<Twap>)
      requires Valid()
      modifies this
      ensures Valid()
      ensures history == old(history)[pair := old(HistoryOf(pair)) + [o]]
      ensures r == TwapOf(Retained(old(HistoryOf(pair)) + [o]), enforceMinWindow)
      ensures Nondecreasing(old(HistoryOf(pair)) + [o]) ==> Answers(r, old(HistoryOf(pair)) + [o], enforceMinWindow)
    {
      hide Retained, Answers, Nondecreasing;
      if Nondecreasing(HistoryOf(pair) + [o]) { TwapAnswersExactly(HistoryOf(pair) + [o], enforceMinWindow); }
      Observe(pair, o);
      var observations := cache[pair];
      if |observations| < 2 {
        return None;
      }
      var start, end := observations[0], observations[|observations| - 1];
      if end.timestamp <= start.timestamp {
        return None;
      }
      if enforceMinWindow && end.timestamp - start.timestamp < MIN_TWAP_WINDOW_SECONDS {
        return None;
      }
      r := Some(ComputeTwap(start, end, false).twap);
    }

    /** An absent or empty address clears every pair. */
    method ClearCache(pair: Option<string>)
      requires Valid()
      modifies this
      ensures Valid()
      ensures pair.Some? && pair.value != "" ==> history == old(history) - {pair.value}
      ensures pair.None? || pair.value == "" ==> history == map[]
    {
      if pair.Some? && pair.value != "" {
        cache, history := cache - {pair.value}, history - {pair.value};
      } else {
        cache, history := map[], map[];
      }
    }
  }

  // ----- the cache as a one-shot function of the whole history

  ghost predicate Nondecreasing(h: seq<Observation>) {
    forall i, j :: 0 <= i <= j < |h| ==> h[i].timestamp <= h[j].timestamp
  }

  ghost predicate StrictlyIncreasing(h: seq<Observation>) {
    forall i, j :: 0 <= i < j < |h| ==> h[i].timestamp < h[j].timestamp
  }

  /** How many trailing observations are younger than the minimum window at time `t`. */
  function Recent(h: seq<Observation>, t: int): (w: nat)
    ensures w <= |h|
    ensures forall i :: |h| - w <= i < |h| ==> h[i].timestamp > t - MIN_TWAP_WINDOW_SECONDS
    ensures w < |h| ==> h[|h| - 1 - w].timestamp <= t - MIN_TWAP_WINDOW_SECONDS
  {
    if h == [] || h[|h| - 1].timestamp <= t - MIN_TWAP_WINDOW_SECONDS then 0
    else 1 + Recent(h[..|h| - 1], t)
  }

  lemma DropCoveredKeepsTheWindow(s: seq<Observation>)
    requires s != [] && Nondecreasing(s)
    ensures DropCovered(s) == LastOf(s, Recent(s, Newest(s)) + 1)
  {
    hide Recent, FirstKept;
    var w, k := Recent(s, Newest(s)), FirstKept(s, 0);
    assert w < |s| ==> k == |s| - 1 - w;
    assert w == |s| ==> k == 0;
  }

  /** The count over a suffix is the count over the whole, cut at the suffix's length. */
  lemma RecentOfSuffix(h: seq<Observation>, k: nat, t: int)
    requires k <= |h| && Nondecreasing(h)
    ensures Recent(LastOf(h, k), t) == Min(k, Recent(h, t))
  {
    hide Recent;
    var s := LastOf(h, k);
    assert forall i :: 0 <= i < k ==> s[i] == h[|h| - k + i];
  }

  lemma OlderClockCountsMore(h: seq<Observation>, t: int, u: int)
    requires t <= u
    ensures Recent(h, u) <= Recent(h, t)
  {
    hide Recent;
  }

  /**
    Incremental pruning refines a one-shot definition.  For any history with
    nondecreasing timestamps the cache is exactly the suffix that holds the
    observations younger than the window plus one more, cut at the hard cap.
  */
  lemma {:induction false} CacheIsTheRecentSuffix(h: seq<Observation>)
    requires h != [] && Nondecreasing(h)
    ensures Retained(h) == LastOf(h, Min(MAX_OBSERVATIONS, Recent(h, Newest(h)) + 1))
  {
    hide Insert, LastOf, Recent;
    var last := |h| - 1;
    var before := h[..last];
    var k := 0;
    if last > 0 {
      CacheIsTheRecentSuffix(before);
      var w := Recent(before, Newest(before));
      k := Min(last, Min(MAX_OBSERVATIONS, w + 1));
      LastOfWhole(before, Min(MAX_OBSERVATIONS, w + 1));
      RecentOfPrefix(h);
    } else {
      LastOfWhole(before, 0);
    }
    InsertIntoSuffix(h, Retained(before), k);
  }

  lemma LastOfWhole(h: seq<Observation>, k: nat)
    ensures LastOf(h, k) == LastOf(h, Min(|h|, k))
    ensures h == [] ==> LastOf(h, k) == []
  {
  }

  lemma LastOfLastOf(h: seq<Observation>, j: nat, k: nat)
    ensures LastOf(LastOf(h, j), k) == LastOf(h, Min(j, k))
  {
  }

  /** One more observation widens the window by at most one entry. */
  lemma RecentOfPrefix(h: seq<Observation>)
    requires |h| > 1 && Nondecreasing(h)
    ensures Recent(h, Newest(h)) <= Recent(h[..|h| - 1], Newest(h[..|h| - 1])) + 1
  {
    var before := h[..|h| - 1];
    OlderClockCountsMore(before, Newest(before), Newest(h));
  }

  lemma PushedIsSuffix(h: seq<Observation>, cache: seq<Observation>, k: nat)
    requires k < |h| && Nondecreasing(h)
    requires cache == LastOf(h[..|h| - 1], k)
    ensures var pushed := cache + [h[|h| - 1]];
            pushed == LastOf(h, k + 1) && Newest(pushed) == Newest(h) && Nondecreasing(pushed)
  {
  }

  /** Inserting into a suffix that covers the old window gives the new window's suffix. */
  lemma InsertIntoSuffix(h: seq<Observation>, cache: seq<Observation>, k: nat)
    requires k < |h| && Nondecreasing(h)
    requires cache == LastOf(h[..|h| - 1], k)
    requires Recent(h, Newest(h)) <= k || k + 1 == |h| || k >= MAX_OBSERVATIONS
    ensures Insert(cache, h[|h| - 1]) == LastOf(h, Min(MAX_OBSERVATIONS, Recent(h, Newest(h)) + 1))
  {
    hide Recent, DropCovered, LastOf, Nondecreasing, Min;
    var w := Recent(h, Newest(h));
    var pushed := cache + [h[|h| - 1]];
    PushedIsSuffix(h, cache, k);
    DropCoveredKeepsTheWindow(pushed);
    RecentOfSuffix(h, k + 1, Newest(h));
    BothPasses(h, k, w);
  }

  lemma BothPasses(h: seq<Observation>, k: nat, w: nat)
    requires k < |h| && (w <= k || k + 1 == |h| || k >= MAX_OBSERVATIONS)
    ensures LastOf(LastOf(LastOf(h, k + 1), Min(k + 1, w) + 1), MAX_OBSERVATIONS) == LastOf(h, Min(MAX_OBSERVATIONS, w + 1))
  {
    hide LastOf;
    var kept := Min(k + 1, w) + 1;
    LastOfLastOf(h, k + 1, kept);
    LastOfLastOf(h, Min(k + 1, kept), MAX_OBSERVATIONS);
    LastOfWhole(h, Min(MAX_OBSERVATIONS, Min(k + 1, kept)));
    LastOfWhole(h, Min(MAX_OBSERVATIONS, w + 1));
  }

  /** The bounds and the coverage every reachable cache has. */
  lemma CacheBounds(h: seq<Observation>)
    requires h != [] && Nondecreasing(h)
    ensures var c := Retained(h);
            && 1 <= |c| <= MAX_OBSERVATIONS
            && |c| <= |h| && c == h[|h| - |c|..]
            && forall i :: 1 <= i < |c| ==> Newest(h) - c[i].timestamp < MIN_TWAP_WINDOW_SECONDS
  {
    hide Retained;
    CacheIsTheRecentSuffix(h);
  }

  /**
    Exactly when `getTWAP` answers: the history spans the minimum window, and fewer
    than the hard cap of its observations are younger than the window.
  */
  lemma TwapAvailableExactly(h: seq<Observation>)
    requires h != [] && Nondecreasing(h)
    ensures TwapOf(Retained(h), true).Some? <==>
            Newest(h) - h[0].timestamp >= MIN_TWAP_WINDOW_SECONDS && Recent(h, Newest(h)) < MAX_OBSERVATIONS
  {
    hide Retained, Recent;
    CacheIsTheRecentSuffix(h);
    var w := Recent(h, Newest(h));
    var c := Retained(h);
    assert w >= 1 && |c| == Min(|h|, Min(MAX_OBSERVATIONS, w + 1));
    assert c[0] == h[|h| - |c|] && c[|c| - 1] == h[|h| - 1];
  }

  /** The retained observation a TWAP starts from: the newest outside the window, or the oldest there is, but at most 500 back. */
  function Oldest(h: seq<Observation>): Observation
    requires h != []
  {
    h[|h| - Min(|h|, Min(500, Recent(h, Newest(h)) + 1))]
  }

  /** When there is an answer, and what it is: both prices' accumulated difference per second, truncated. */
  ghost predicate Answers(r: Option<Twap>, h: seq<Observation>, enforceMinWindow: bool)
    requires h != []
  {
    var s, e := Oldest(h), h[|h| - 1];
    var seconds := e.timestamp - s.timestamp;
    && (r.Some? <==> seconds > 0 && (enforceMinWindow ==> seconds >= 300))
    && (r.Some? ==>
          && r.value.start == s && r.value.end == e && r.value.timeWindow == seconds
          && IsTruncated(r.value.price0, e.price0Cumulative - s.price0Cumulative, seconds)
          && IsTruncated(r.value.price1, e.price1Cumulative - s.price1Cumulative, seconds))
  }

  lemma TwapAnswersExactly(h: seq<Observation>, enforceMinWindow: bool)
    requires h != [] && Nondecreasing(h)
    ensures Answers(TwapOf(Retained(h), enforceMinWindow), h, enforceMinWindow)
  {
    hide Retained, Recent, Nondecreasing, IsTruncated;
    CacheIsTheRecentSuffix(h);
    var c := Retained(h);
    assert |c| >= 1 && c[0] == Oldest(h) && c[|c| - 1] == h[|h| - 1];
    ComputeTwapExactly(c[0], c[|c| - 1], false);
  }

  /** The two refusals in order, and otherwise the truncated quotients. */
  lemma ComputeTwapExactly(start: Observation, end: Observation, enforceMinWindow: bool)
    ensures var r, seconds := ComputeTwap(start, end, enforceMinWindow), end.timestamp - start.timestamp;
            && (r == Err(EndNotAfterStart) <==> seconds <= 0)
            && (r == Err(WindowTooShort) <==> enforceMinWindow && 0 < seconds < 300)
            && (r.Ok? ==>
                  && r.twap.start == start && r.twap.end == end && r.twap.timeWindow == seconds
                  && IsTruncated(r.twap.price0, end.price0Cumulative - start.price0Cumulative, seconds)
                  && IsTruncated(r.twap.price1, end.price1Cumulative - start.price1Cumulative, seconds))
  {
    var seconds := end.timestamp - start.timestamp;
    if seconds > 0 {
      TruncDivIs(end.price0Cumulative - start.price0Cumulative, seconds);
      TruncDivIs(end.price1Cumulative - start.price1Cumulative, seconds);
    }
  }

  /** With strictly increasing integer timestamps the cap never fires and spanning the window is enough. */
  lemma StrictTimestampsKeepCoverage(h: seq<Observation>)
    requires h != [] && StrictlyIncreasing(h)
    ensures |Retained(h)| <= MIN_TWAP_WINDOW_SECONDS + 1
    ensures TwapOf(Retained(h), true).Some? <==> Newest(h) - h[0].timestamp >= MIN_TWAP_WINDOW_SECONDS
  {
    hide Retained, TwapOf, Recent;
    assert Nondecreasing(h) by { StrictIsNondecreasing(h); }
    CacheIsTheRecentSuffix(h);
    TwapAvailableExactly(h);
    TimestampsSpread(h, |h| - Recent(h, Newest(h)), |h| - 1);
  }

  lemma StrictIsNondecreasing(h: seq<Observation>)
    requires StrictlyIncreasing(h)
    ensures Nondecreasing(h)
  {
  }

  lemma {:induction false} TimestampsSpread(h: seq<Observation>, i: int, j: int)
    requires 0 <= i <= j < |h| && StrictlyIncreasing(h)
    ensures h[j].timestamp - h[i].timestamp >= j - i
    decreases j - i
  {
    if i < j {
      TimestampsSpread(h, i + 1, j);
    }
  }

  /**
    The documented guarantee "regardless of polling frequency" fails: whatever was
    observed before, a capful of observations of an unchanged pair leaves no TWAP.
  */
  lemma UnchangedPairLosesItsTwap(h: seq<Observation>, o: Observation)
    requires Nondecreasing(h + [o])
    ensures TwapOf(Retained(h + seq(MAX_OBSERVATIONS, i => o)), true) == None
  {
    var polls := seq(MAX_OBSERVATIONS, i => o);
    var all := h + polls;
    assert forall i :: 0 <= i < |h| ==> (h + [o])[i] == h[i] == all[i];
    assert (h + [o])[|h|] == o;
    assert forall i :: |h| <= i < |all| ==> all[i] == o;
    assert Nondecreasing(all);
    TwapAvailableExactly(all);
    var w := Recent(all, Newest(all));
    if w < MAX_OBSERVATIONS {
      assert all[|all| - 1 - w] == o;
    }
  }
}
