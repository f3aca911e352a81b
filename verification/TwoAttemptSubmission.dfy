/**
  The two-attempt protocol shared by the RWA and Blend modules: one resubmission,
  and only the first attempt is checked against the chain.
*/
module TwoAttemptSubmission {
  import opened Wrappers
  import opened Ledger
  import opened TransactionLifecycle

  function SubmitIdempotent(c: Chain, ops: seq<Operation>, env: Environment): (run: Run)
    ensures |run.seen| == |run.seqReads| >= 1
  {
    var s := SubmitTransaction(c, ops, env(0));
    var first := Sighting(s.report, None, NotAsked);
    if s.report.Success? then Run(Confirmed, s.chain, [s.atRead], [], [first])
    else if s.report.TxHash().None? then Run(TransactionError, s.chain, [s.atRead], [], [first])
    else
      var now := AdvanceAll(s.chain, env(0).reconciling);
      AdvanceKeepsLength(s.chain, env(0).reconciling);
      var status := GetTransactionStatus(now, s.report.tx, env(0).statusFails);
      var looked := first.(status := Some(status));
      if !ShouldRetrySubmission(status, SHIPPED_POLICY) then
        Run(if status == SUCCESS then Recovered else TransactionError, now, [s.atRead], [], [looked])
      else
        var again := SubmitTransaction(now, ops, env(1));
        Run(if again.report.Success? then Confirmed else TransactionError, again.chain,
            [s.atRead, again.atRead], [now], [looked, Sighting(again.report, None, NotAsked)])
  }

  /**
    At most two submissions; the second only after an honest NOT_FOUND, never after
    SUCCESS, FAILED or ERROR; at most one effect whenever the second read still
    finds nothing landed, and exactly one on a normal return.
  */
  lemma AtMostTwoSubmissions(c: Chain, ops: seq<Operation>, env: Environment)
    requires Fresh(c)
    ensures var run := SubmitIdempotent(c, ops, env);
            && 1 <= |run.seqReads| <= 2
            && (|run.seqReads| == 2 <==> |run.refuted| == 1)
            && (|run.seqReads| == 2 <==> run.seen[0].status == Some(NOT_FOUND))
            && (|run.seqReads| == 2 ==> run.refuted[0].applied == [])
            && (RefutationsAreFinal(run.refuted) ==> NothingLandedAtReads(run.seqReads))
            && (NothingLandedAtReads(run.seqReads) ==>
                  && AtMostOnce(run.chain, ops)
                  && (run.ending.Confirmed? || run.ending.Recovered? ==> Forever(run.chain, [ops])))
  {
    hide SubmitTransaction, AdvanceAll, Live;
    var run := SubmitIdempotent(c, ops, env);
    var s := SubmitTransaction(c, ops, env(0));
    LifecycleStep(c, ops, env(0));
    var now := AdvanceAll(s.chain, env(0).reconciling);
    AdvanceMany(s.chain, ops, env(0).reconciling);
    assert s.chain.applied == [] ==> s.chain.applied + [ops] == [ops];
    assert s.atRead == run.seqReads[0];
    if |run.seqReads| == 2 {
      LifecycleStep(now, ops, env(1));
      assert |now.txs| == 1;
      assert run.seqReads[1] == SubmitTransaction(now, ops, env(1)).atRead;
    }
    AtMostOnceExactly(run.chain, ops);
    if run.chain.applied != [] && Quiet(run.chain) { QuietIsForever(run.chain, ops); }
  }

  /**
    Exactly what decides a run: a first failure with a hash is looked up, whether it
    counts as retryable or not; only NOT_FOUND is followed by a second attempt; and
    the last attempt's report or status is the ending.
  */
  lemma RunIsDecidedBySightings(c: Chain, ops: seq<Operation>, env: Environment)
    ensures var run := SubmitIdempotent(c, ops, env);
            && (run.seen[0].status.Some? <==> run.seen[0].report.Unconfirmed?)
            && |run.seen| == (if run.seen[0].status == Some(NOT_FOUND) then 2 else 1)
            && (|run.seen| == 2 ==> run.seen[1].status == None)
            && (forall k :: 0 <= k < |run.seen| ==> run.seen[k].check == NotAsked)
            && (run.ending.Confirmed? <==> Last(run.seen).report.Success?)
            && (run.ending.Recovered? <==> Last(run.seen).status == Some(SUCCESS))
            && (run.ending.TransactionError? <==> !Last(run.seen).report.Success? && Last(run.seen).status != Some(SUCCESS))
  {
    hide SubmitTransaction, AdvanceAll;
  }

  /** The status is read off the chain after the first attempt, and the second attempt starts from there. */
  lemma AnswersAreReadOffTheChain(c: Chain, ops: seq<Operation>, env: Environment)
    ensures var run := SubmitIdempotent(c, ops, env);
            var first := SubmitTransaction(c, ops, env(0));
            var now := AdvanceAll(first.chain, env(0).reconciling);
            && run.seen[0].report == first.report
            && (run.seen[0].status.Some? ==>
                  && |c.txs| < |now.txs|
                  && run.seen[0].status == Some(GetTransactionStatus(now, |c.txs|, env(0).statusFails)))
            && (|run.seen| == 1 ==> run.chain == if run.seen[0].status.Some? then now else first.chain)
            && (|run.seen| == 2 ==>
                  run.seen[1].report == SubmitTransaction(now, ops, env(1)).report &&
                  run.chain == SubmitTransaction(now, ops, env(1)).chain)
  {
    LifecycleReports(c, ops, env(0));
    hide SubmitTransaction, AdvanceAll;
    AdvanceKeepsLength(SubmitTransaction(c, ops, env(0)).chain, env(0).reconciling);
  }

  lemma ReadsAgree(c: Chain, ops: seq<Operation>, env: Environment, other: Environment, n: nat)
    requires SameUpToRead(env, other, n) && n < |SubmitIdempotent(c, ops, env).seqReads|
    ensures var run, twin := SubmitIdempotent(c, ops, env), SubmitIdempotent(c, ops, other);
            n < |twin.seqReads| && twin.seqReads[..n + 1] == run.seqReads[..n + 1]
  {
    hide AdvanceAll, GetTransactionStatus;
    ReadIsAfterTheWait(c, ops, env(0));
    ReadIsAfterTheWait(c, ops, other(0));
    if n == 1 {
      var now := AdvanceAll(SubmitTransaction(c, ops, env(0)).chain, env(0).reconciling);
      assert other(0) == env(0);
      ReadIsAfterTheWait(now, ops, env(1));
      ReadIsAfterTheWait(now, ops, other(1));
    }
  }

  lemma ReadIsAfterTheWait(c: Chain, ops: seq<Operation>, a: Attempt)
    ensures SubmitTransaction(c, ops, a).atRead == AdvanceAll(c, a.wait)
  {
  }

  lemma DirtyReadDoubles(c: Chain, ops: seq<Operation>, env: Environment, n: nat)
    requires n < |SubmitIdempotent(c, ops, env).seqReads|
    ensures var read := SubmitIdempotent(c, ops, env).seqReads[n];
            var twin := SubmitIdempotent(c, ops, Replace(env, n, ConfirmedInstead(env(n), |read.txs|)));
            |twin.seqReads| == n + 1 && twin.chain.applied == read.applied + [ops]
  {
    hide SubmitTransaction, AdvanceAll, ConfirmedInstead, GetTransactionStatus;
    var from := if n == 0 then c else AdvanceAll(SubmitTransaction(c, ops, env(0)).chain, env(0).reconciling);
    ReadIsAfterTheWait(from, ops, env(n));
    ConfirmedLifecycle(from, ops, env(n));
  }

  /**
    A run finds nothing landed at any of its reads if and only if no environment that
    agrees with it up to one of those reads, and ends with that attempt, can take
    effect twice.
  */
  lemma CleanReadsAreExactlyWhatIsNeeded(c: Chain, ops: seq<Operation>, env: Environment)
    requires Fresh(c)
    ensures NothingLandedAtReads(SubmitIdempotent(c, ops, env).seqReads) <==>
            forall n: nat, other: Environment ::
              && n < |SubmitIdempotent(c, ops, env).seqReads| && SameUpToRead(env, other, n)
              && |SubmitIdempotent(c, ops, other).seqReads| == n + 1 ==>
              AtMostOnce(SubmitIdempotent(c, ops, other).chain, ops)
  {
    hide SubmitIdempotent, AtMostOnce;
    var run := SubmitIdempotent(c, ops, env);
    if NothingLandedAtReads(run.seqReads) {
      forall n: nat, other: Environment | n < |run.seqReads| && SameUpToRead(env, other, n)
                                          && |SubmitIdempotent(c, ops, other).seqReads| == n + 1
        ensures AtMostOnce(SubmitIdempotent(c, ops, other).chain, ops)
      {
        ReadsAgree(c, ops, env, other, n);
        var twin := SubmitIdempotent(c, ops, other);
        assert forall k :: 0 <= k <= n ==> twin.seqReads[k] == twin.seqReads[..n + 1][k] == run.seqReads[..n + 1][k];
        AtMostTwoSubmissions(c, ops, other);
      }
    } else {
      var n: nat :| n < |run.seqReads| && run.seqReads[n].applied != [];
      var other := Replace(env, n, ConfirmedInstead(env(n), |run.seqReads[n].txs|));
      DirtyReadDoubles(c, ops, env, n);
      assert SameUpToRead(env, other, n);
      TwiceIsNotOnce(SubmitIdempotent(c, ops, other).chain, ops);
    }
  }

  /** A conclusive last sighting leaves a dead chain without an effect. */
  lemma ConclusiveErrorMeansNoEffect(c: Chain, ops: seq<Operation>, env: Environment)
    requires Fresh(c)
    requires var run := SubmitIdempotent(c, ops, env);
             run.ending.TransactionError? && RefutationsAreFinal(run.refuted) && Conclusive(Last(run.seen))
    ensures Forever(SubmitIdempotent(c, ops, env).chain, [])
  {
    hide SubmitTransaction, AdvanceAll, Consistent, Quiet, DeadUpTo;
    var run := SubmitIdempotent(c, ops, env);
    var s := SubmitTransaction(c, ops, env(0));
    assert Consistent(c, ops) && DeadUpTo(c, |c.txs|) by { FreshIsDead(c, ops); }
    LifecycleStep(c, ops, env(0));
    AdvanceMany(s.chain, ops, env(0).reconciling);
    var now := AdvanceAll(s.chain, env(0).reconciling);
    if |run.seqReads| == 2 {
      assert run.refuted[0] == now;
      OnlyTheNewest(now, ops, |c.txs|);
      DeadExactlyWhenSpent(now, ops);
      LifecycleStep(now, ops, env(1));
      OnlyTheNewest(run.chain, ops, |now.txs|);
    } else {
      OnlyTheNewest(run.chain, ops, |c.txs|);
    }
    QuietIsForever(run.chain, ops);
  }

  lemma FreshIsDead(c: Chain, ops: seq<Operation>)
    requires Fresh(c)
    ensures Consistent(c, ops) && DeadUpTo(c, |c.txs|)
  {
  }

  /** The last attempt, sent and applied unseen, behind the same sightings. */
  function Twin(c: Chain, ops: seq<Operation>, env: Environment): Environment {
    var run := SubmitIdempotent(c, ops, env);
    var n := |run.seqReads| - 1;
    Replace(env, n, LandedInstead(env(n), |run.seqReads[n].txs|))
  }

  lemma LandedTwin(c: Chain, ops: seq<Operation>, env: Environment)
    requires var run := SubmitIdempotent(c, ops, env);
             run.ending.TransactionError? && !Conclusive(Last(run.seen))
    ensures var run := SubmitIdempotent(c, ops, env);
            var twin := SubmitIdempotent(c, ops, Twin(c, ops, env));
            && twin.seen == run.seen && twin.refuted == run.refuted
            && !Forever(twin.chain, [])
  {
    hide SubmitTransaction, AdvanceAll, LandedInstead;
    var run := SubmitIdempotent(c, ops, env);
    var n := |run.seqReads| - 1;
    var s := SubmitTransaction(c, ops, env(0));
    var from := if n == 0 then c else AdvanceAll(s.chain, env(0).reconciling);
    var last := SubmitTransaction(from, ops, env(n));
    LandedFields(env(n), |last.atRead.txs|);
    LandedLifecycle(from, ops, env(n));
    DeliveredCanLand(last.atRead, ops);
    var twin := SubmitIdempotent(c, ops, Twin(c, ops, env));
    CanLandIsNotForever(twin.chain, last.atRead, ops);
  }

  lemma CanLandIsNotForever(c: Chain, read: Chain, ops: seq<Operation>)
    ensures c.applied == read.applied + [ops] || c == Deliver(read, read.accountSeq + 1, ops) ==> !Forever(c, [])
  {
    assert AdvanceAll(c, []) == c;
    DeliveredCanLand(read, ops);
  }

  /** In every ledger behaviour that shows the SDK the same, nothing took or will take effect. */
  ghost predicate ErrorIsTruthful(c: Chain, ops: seq<Operation>, env: Environment) {
    forall other: Environment ::
      var twin := SubmitIdempotent(c, ops, other);
      twin.seen == SubmitIdempotent(c, ops, env).seen && RefutationsAreFinal(twin.refuted) ==> Forever(twin.chain, [])
  }

  /**
    The thrown TransactionError means no effect exactly when the last attempt was
    never sent or its status was FAILED.  It means nothing after a failure without a
    hash from a send, retryable or not, after a status ERROR, and after a second
    attempt that was sent at all.
  */
  lemma TransactionErrorIsTruthfulExactly(c: Chain, ops: seq<Operation>, env: Environment)
    requires Fresh(c)
    requires var run := SubmitIdempotent(c, ops, env);
             run.ending.TransactionError? && RefutationsAreFinal(run.refuted)
    ensures var run := SubmitIdempotent(c, ops, env);
            ErrorIsTruthful(c, ops, env) <==> Last(run.seen).report.NotSent? || Last(run.seen).status == Some(FAILED)
  {
    RunIsDecidedBySightings(c, ops, env);
    hide SubmitIdempotent;
    var run := SubmitIdempotent(c, ops, env);
    if Conclusive(Last(run.seen)) {
      forall other: Environment |
        var twin := SubmitIdempotent(c, ops, other);
        twin.seen == run.seen && RefutationsAreFinal(twin.refuted)
        ensures Forever(SubmitIdempotent(c, ops, other).chain, [])
      {
        SameSightingsSameEnding(c, ops, env, other);
        ConclusiveErrorMeansNoEffect(c, ops, other);
      }
    } else {
      LandedTwin(c, ops, env);
    }
  }

  lemma SameSightingsSameEnding(c: Chain, ops: seq<Operation>, env: Environment, other: Environment)
    requires SubmitIdempotent(c, ops, env).seen == SubmitIdempotent(c, ops, other).seen
    ensures SubmitIdempotent(c, ops, env).ending == SubmitIdempotent(c, ops, other).ending
  {
    RunIsDecidedBySightings(c, ops, env);
    RunIsDecidedBySightings(c, ops, other);
  }

  // ----- a failing run

  const START := Chain(7, [], [])
  const DEPOSIT := [Invoke("deposit_collateral")]

  function LandsOnTheRetry(k: nat): Attempt {
    Attempt([], Builds, [], Accepted, if k == 0 then [] else [Close(1, true)], true, true, [], false, false)
  }

  /** The second attempt's failure is never checked, so its error can hide an effect. */
  lemma RetryErrorHidesAnEffect()
    ensures var run := SubmitIdempotent(START, DEPOSIT, LandsOnTheRetry);
            run.ending == TransactionError && run.chain.applied == [DEPOSIT]
  {
    var c0 := Deliver(START, 8, DEPOSIT);
    assert SubmitTransaction(START, DEPOSIT, LandsOnTheRetry(0)) == Lifecycle(c0, Unconfirmed(0, true), START);
    OneEvent(Deliver(c0, 8, DEPOSIT), Close(1, true));
  }
}
