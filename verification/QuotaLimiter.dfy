/**
  The bot's sliding-window limiter: a list of recent grant times, pruned on every
  call, and the wait until the next permit.
*/
module QuotaLimiter {

  /** How many of the grants fall in the half-open window (lo, hi]. */
  function GrantsIn(g: seq<int>, lo: int, hi: int): nat {
    if g == [] then 0 else
    GrantsIn(g[..|g| - 1], lo, hi) + if lo < g[|g| - 1] <= hi then 1 else 0
  }

  /** The grants in the window of length `windowMs` that ends at `t`. */
  function InWindow(g: seq<int>, t: int, windowMs: nat): nat {
    GrantsIn(g, t - windowMs, t)
  }

  ghost predicate Sorted(g: seq<int>) {
    forall i, j :: 0 <= i <= j < |g| ==> g[i] <= g[j]
  }

  /** Any max + 1 consecutive grants span at least the window. */
  ghost predicate Spaced(g: seq<int>, max: nat, windowMs: nat) {
    forall i :: 0 <= i && i + max < |g| ==> g[i + max] - g[i] >= windowMs
  }

  lemma {:induction false} GrantsBetween(g: seq<int>, lo: int, hi: int, a: nat, b: nat)
    requires a <= b <= |g|
    requires forall i :: 0 <= i < |g| ==> (i < a ==> g[i] <= lo) && (a <= i < b ==> lo < g[i] <= hi) && (b <= i ==> hi < g[i])
    ensures GrantsIn(g, lo, hi) == b - a
  {
    if g != [] {
      var last := |g| - 1;
      if b == |g| && a < b {
        GrantsBetween(g[..last], lo, hi, a, last);
      } else {
        GrantsBetween(g[..last], lo, hi, if a <= last then a else last, if b <= last then b else last);
      }
    }
  }

  lemma {:induction false} SplitAt(g: seq<int>, t: int) returns (k: nat)
    requires Sorted(g)
    ensures k <= |g| && forall i :: 0 <= i < |g| ==> (i < k <==> g[i] <= t)
  {
    if g == [] || g[|g| - 1] <= t {
      k := |g|;
    } else {
      k := SplitAt(g[..|g| - 1], t);
    }
  }

  /** Spacing bounds every window, not only those that end at a call. */
  lemma SpacedBoundsEveryWindow(g: seq<int>, max: nat, windowMs: nat, t: int)
    requires Sorted(g) && Spaced(g, max, windowMs)
    ensures InWindow(g, t, windowMs) <= max
  {
    var a := SplitAt(g, t - windowMs);
    var b := SplitAt(g, t);
    assert b < |g| ==> t < g[b];
    assert a < |g| ==> t - windowMs < g[a];
    assert a + max < |g| ==> g[a + max] - g[a] >= windowMs && (a + max < b <==> g[a + max] <= t);
    GrantsBetween(g, t - windowMs, t, a, b);
  }

  /** When the window is full, it stays full until its oldest grant leaves, and no longer. */
  lemma FullUntilOldestLeaves(g: seq<int>, first: nat, now: int, windowMs: nat, t: int)
    requires Sorted(g) && first < |g| && now <= t
    requires forall i :: 0 <= i < |g| ==> g[i] <= now && (first <= i <==> now - windowMs < g[i])
    ensures t < g[first] + windowMs ==> InWindow(g, t, windowMs) == |g| - first
    ensures t >= g[first] + windowMs ==> InWindow(g, t, windowMs) < |g| - first
  {
    var k := SplitAt(g, t - windowMs);
    assert first > 0 ==> g[first - 1] <= t - windowMs;
    assert first < k <==> g[first] <= t - windowMs;
    GrantsBetween(g, t - windowMs, t, k, |g|);
  }

  class QuotaLimiter {
    var attempts: seq<int>      // recent grant times, oldest first
    const maxPerWindow: nat
    const windowMs: nat
    ghost var grants: seq<int>  // every grant ever made
    ghost var clock: int        // the time of the last call

    ghost predicate Valid()
      reads this
    {
      && Sorted(grants) && (forall i :: 0 <= i < |grants| ==> grants[i] <= clock)
      && Spaced(grants, maxPerWindow, windowMs)
      && |attempts| <= maxPerWindow && |attempts| <= |grants| && attempts == grants[|grants| - |attempts|..]
      && (forall i :: 0 <= i < |grants| - |attempts| ==> grants[i] <= clock - windowMs)
    }

    /** Would a permit be granted at `t` if nothing else were granted before? */
    ghost predicate Available(t: int)
      reads this
    {
      InWindow(grants, t, windowMs) < maxPerWindow
    }

    constructor (maxPerWindow: nat, windowMs: nat, ghost now: int)
      ensures Valid() && grants == [] && clock == now
      ensures this.maxPerWindow == maxPerWindow && this.windowMs == windowMs
    {
      this.maxPerWindow, this.windowMs := maxPerWindow, windowMs;
      attempts, grants, clock := [], [], now;
    }

    method Prune(now: int)
      requires Valid() && clock <= now
      modifies this
      ensures Valid() && grants == old(grants) && clock == now
      ensures forall i :: 0 <= i < |attempts| ==> attempts[i] > now - windowMs
      ensures |attempts| == InWindow(grants, now, windowMs)
    {
      hide GrantsIn, Spaced;
      var cutoff := now - windowMs;
      ghost var n := |grants|;
      while |attempts| > 0 && attempts[0] <= cutoff
        invariant |attempts| <= old(|attempts|)
        invariant attempts == grants[n - |attempts|..]
        invariant forall i :: 0 <= i < n - |attempts| ==> grants[i] <= cutoff
        decreases |attempts|
        modifies this`attempts
      {
        attempts := attempts[1..];
      }
      clock := now;
      GrantsBetween(grants, cutoff, now, n - |attempts|, n);
    }

    /** A permit is granted exactly when the window ending now has room. */
    method TryAcquire(now: int) returns (granted: bool)
      requires Valid() && clock <= now
      modifies this
      ensures Valid() && clock == now
      ensures granted <==> old(Available(now))
      ensures granted <==>
              var n := |old(grants)| - maxPerWindow;
              maxPerWindow > 0 && (n < 0 || old(grants)[n] <= now - windowMs)
      ensures grants == if granted then old(grants) + [now] else old(grants)
    {
      hide GrantsIn;
      Prune(now);
      if |attempts| >= maxPerWindow {
        granted := false;
      } else {
        attempts, grants := attempts + [now], grants + [now];
        granted := true;
      }
    }

    /** However the calls fall, no window of any position ever holds more than the maximum. */
    lemma QuotaHolds(t: int)
      requires Valid()
      ensures InWindow(grants, t, windowMs) <= maxPerWindow
    {
      SpacedBoundsEveryWindow(grants, maxPerWindow, windowMs, t);
    }

    /**
      The wait is exact: until it has passed every attempt would be refused, and at
      its end one would be granted, if nothing else acquires a permit meanwhile.
    */
    method WaitMsUntilNext(now: int) returns (waitMs: int)
      requires Valid() && clock <= now && maxPerWindow >= 1
      modifies this
      ensures Valid() && clock == now && grants == old(grants)
      ensures waitMs >= 0 && Available(now + waitMs)
      ensures forall t :: now <= t < now + waitMs ==> !Available(t)
    {
      Prune(now);
      if |attempts| < maxPerWindow {
        return 0;
      }
      waitMs := if attempts[0] + windowMs - now >= 0 then attempts[0] + windowMs - now else 0;
      ghost var first := |grants| - |attempts|;
      forall t | now <= t <= now + waitMs ensures Available(t) <==> t == now + waitMs {
        FullUntilOldestLeaves(grants, first, now, windowMs, t);
      }
    }
  }
}
