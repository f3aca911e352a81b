/**
  At-most-once submission of order-mutating transactions: the limit-order module's
  `submitWithIdempotentResubmission` and `classifyFailedSubmission`.
*/
module OrderSubmission {
  import opened Wrappers
  import opened Ledger
  import opened TransactionLifecycle

  const MAX_IDEMPOTENT_RESUBMISSIONS := 2

  datatype Verdict = Landed | NotLanded | FailedOnChain | Indeterminate

  /** A verdict, with what was looked up to reach it. */
  datatype Classified = Classified(verdict: Verdict, status: Option<TxStatus>, check: Check)

  /** The contract-level check: truthful about the chain whenever it answers. */
  function LandedCheck(c: Chain, a: Attempt): Check {
    if a.landedThrows then CheckFailed else Answered(c.applied != [])
  }

  function ByCheck(check: Check, status: Option<TxStatus>): Classified {
    Classified(if check == Answered(true) then Landed else if check == Answered(false) then NotLanded else Indeterminate,
               status, check)
  }

  function ClassifyFailedSubmission(c: Chain, txHash: Option<nat>, a: Attempt, onError: ErrorPolicy): Classified
    requires txHash.Some? ==> txHash.value < |c.txs|
  {
    if txHash.Some? then
      var status := GetTransactionStatus(c, txHash.value, a.statusFails);
      if !ShouldRetrySubmission(status, onError) then
        Classified(if status == SUCCESS then Landed else FailedOnChain, Some(status), NotAsked)
      else if status == NOT_FOUND then Classified(NotLanded, Some(status), NotAsked)
      else ByCheck(LandedCheck(c, a), Some(status))
    else ByCheck(LandedCheck(c, a), None)
  }

  /** One turn of the retry loop: either the run ends or the attempt is ruled not landed. */
  datatype Turn =
    | Ends(ending: Ending, chain: Chain, atRead: Chain, sighting: Sighting)
    | RuledNotLanded(chain: Chain, atRead: Chain, sighting: Sighting)

  function OneAttempt(c: Chain, ops: seq<Operation>, a: Attempt, onError: ErrorPolicy): Turn {
    var s := SubmitTransaction(c, ops, a);
    var unresolved := Sighting(s.report, None, NotAsked);
    if s.report.Success? then Ends(Confirmed, s.chain, s.atRead, unresolved)
    else if s.report.TxHash().None? && !s.report.retryable then Ends(TransactionError, s.chain, s.atRead, unresolved)
    else
      var now := AdvanceAll(s.chain, a.reconciling);
      AdvanceKeepsLength(s.chain, a.reconciling);
      var outcome := ClassifyFailedSubmission(now, s.report.TxHash(), a, onError);
      var sighting := Sighting(s.report, outcome.status, outcome.check);
      match outcome.verdict
      case Landed => Ends(Recovered, now, s.atRead, sighting)
      case Indeterminate => Ends(Unknown, now, s.atRead, sighting)
      case FailedOnChain => Ends(TransactionError, now, s.atRead, sighting)
      case NotLanded => RuledNotLanded(now, s.atRead, sighting)
  }

  function After(turn: Turn, rest: Run): Run {
    rest.(seqReads := [turn.atRead] + rest.seqReads, refuted := [turn.chain] + rest.refuted,
          seen := [turn.sighting] + rest.seen)
  }

  /** The limit-order protocol from attempt number `attempt` on. */
  function Resubmission(c: Chain, ops: seq<Operation>, env: Environment, onError: ErrorPolicy, attempt: nat): (run: Run)
    requires attempt <= MAX_IDEMPOTENT_RESUBMISSIONS
    ensures |run.seen| == |run.seqReads| >= 1
    decreases MAX_IDEMPOTENT_RESUBMISSIONS - attempt
  {
    var turn := OneAttempt(c, ops, env(attempt), onError);
    if turn.Ends? then Run(turn.ending, turn.chain, [turn.atRead], [], [turn.sighting])
    else if attempt == MAX_IDEMPOTENT_RESUBMISSIONS then
      Run(TransactionError, turn.chain, [turn.atRead], [turn.chain], [turn.sighting])
    else After(turn, Resubmission(turn.chain, ops, env, onError, attempt + 1))
  }

  /** `rest` with what happened before it put in front. */
  function Preceded(seqReads: seq<Chain>, refuted: seq<Chain>, seen: seq<Sighting>, rest: Run): Run {
    rest.(seqReads := seqReads + rest.seqReads, refuted := refuted + rest.refuted, seen := seen + rest.seen)
  }

  lemma PrecededByOneMore(seqReads: seq<Chain>, refuted: seq<Chain>, seen: seq<Sighting>, turn: Turn, rest: Run)
    ensures Preceded(seqReads, refuted, seen, After(turn, rest))
         == Preceded(seqReads + [turn.atRead], refuted + [turn.chain], seen + [turn.sighting], rest)
  {
    assert seqReads + ([turn.atRead] + rest.seqReads) == seqReads + [turn.atRead] + rest.seqReads;
    assert refuted + ([turn.chain] + rest.refuted) == refuted + [turn.chain] + rest.refuted;
    assert seen + ([turn.sighting] + rest.seen) == seen + [turn.sighting] + rest.seen;
  }

  /** The retry loop as the module runs it. */
  method SubmitWithIdempotentResubmission(c0: Chain, ops: seq<Operation>, env: Environment) returns (run: Run)
    ensures run == Resubmission(c0, ops, env, SHIPPED_POLICY, 0)
    ensures 1 <= |run.seqReads| <= 3
    ensures run.seen != [] && Decided(run, SHIPPED_POLICY, 3)
  {
    hide OneAttempt, Decided;
    var c, seqReads, refuted, seen := c0, [], [], [];
    ghost var whole := Resubmission(c0, ops, env, SHIPPED_POLICY, 0);
    RunIsDecidedBySightings(c0, ops, env, SHIPPED_POLICY, 0);
    assert whole == Preceded([], [], [], whole);
    for attempt := 0 to MAX_IDEMPOTENT_RESUBMISSIONS + 1
      invariant |seqReads| == attempt
      invariant attempt <= MAX_IDEMPOTENT_RESUBMISSIONS ==>
                  whole == Preceded(seqReads, refuted, seen, Resubmission(c, ops, env, SHIPPED_POLICY, attempt))
      invariant attempt > MAX_IDEMPOTENT_RESUBMISSIONS ==> whole == Run(TransactionError, c, seqReads, refuted, seen)
    {
      var turn := OneAttempt(c, ops, env(attempt), SHIPPED_POLICY);
      if turn.Ends? {
        assert refuted + [] == refuted;
        run := Run(turn.ending, turn.chain, seqReads + [turn.atRead], refuted, seen + [turn.sighting]);
        return;
      }
      if attempt < MAX_IDEMPOTENT_RESUBMISSIONS {
        PrecededByOneMore(seqReads, refuted, seen, turn, Resubmission(turn.chain, ops, env, SHIPPED_POLICY, attempt + 1));
      }
      c, seqReads, refuted, seen := turn.chain, seqReads + [turn.atRead], refuted + [turn.chain], seen + [turn.sighting];
    }
    run := Run(TransactionError, c, seqReads, refuted, seen);
  }

  // ----- one turn

  ghost predicate TurnFacts(c: Chain, ops: seq<Operation>, t: Turn) {
    && Consistent(t.chain, ops) && Consistent(t.atRead, ops) && |t.atRead.txs| == |c.txs|
    && (t.atRead.applied == c.applied || (t.atRead.applied == c.applied + [ops] && !Quiet(c)))
    && (t.atRead.applied == [] ==> t.chain.applied == [] || (t.chain.applied == [ops] && Quiet(t.chain)))
    && (t.Ends? && (t.ending.Confirmed? || t.ending.Recovered?) ==> t.chain.applied != [])
  }

  /** What a turn's verdict proves when no earlier transaction can matter any more. */
  ghost predicate VerdictFacts(t: Turn) {
    && (t.RuledNotLanded? ==> t.chain.applied == [])
    && (t.Ends? && t.ending.TransactionError? && Conclusive(t.sighting) ==> t.chain.applied == [] && Quiet(t.chain))
  }

  lemma TurnStep(c: Chain, ops: seq<Operation>, a: Attempt, onError: ErrorPolicy)
    requires Consistent(c, ops)
    ensures TurnFacts(c, ops, OneAttempt(c, ops, a, onError))
    ensures DeadUpTo(c, |c.txs|) ==> VerdictFacts(OneAttempt(c, ops, a, onError))
  {
    hide SubmitTransaction, AdvanceAll, Consistent, Quiet, DeadUpTo;
    var s := SubmitTransaction(c, ops, a);
    LifecycleStep(c, ops, a);
    AdvanceMany(s.chain, ops, a.reconciling);
    assert s.chain.applied == [] ==> s.chain.applied + [ops] == [ops];
    if DeadUpTo(c, |c.txs|) { VerdictStep(c, ops, a, onError); }
  }

  lemma VerdictStep(c: Chain, ops: seq<Operation>, a: Attempt, onError: ErrorPolicy)
    requires Consistent(c, ops) && DeadUpTo(c, |c.txs|)
    ensures VerdictFacts(OneAttempt(c, ops, a, onError))
  {
    hide SubmitTransaction, AdvanceAll, Consistent, Quiet, DeadUpTo;
    var s := SubmitTransaction(c, ops, a);
    LifecycleStep(c, ops, a);
    AdvanceMany(s.chain, ops, a.reconciling);
    OnlyTheNewest(OneAttempt(c, ops, a, onError).chain, ops, |c.txs|);
  }

  // ----- at most once

  /**
    At most once, whatever the ledger and the RPC do.  The one thing asked of the
    environment is that an attempt ruled not landed has still not landed when the
    next attempt reads the account sequence; from that read on the shared sequence
    number protects the funds, even against attempts that land late.
  */
  lemma {:induction false} ResubmissionTakesEffectAtMostOnce(
      c: Chain, ops: seq<Operation>, env: Environment, onError: ErrorPolicy, attempt: nat)
    requires attempt <= MAX_IDEMPOTENT_RESUBMISSIONS && Consistent(c, ops)
    requires NothingLandedAtReads(Resubmission(c, ops, env, onError, attempt).seqReads)
    ensures var run := Resubmission(c, ops, env, onError, attempt);
            && 1 <= |run.seqReads| <= MAX_IDEMPOTENT_RESUBMISSIONS + 1 - attempt
            && AtMostOnce(run.chain, ops)
            && (run.ending.Confirmed? || run.ending.Recovered? ==> Forever(run.chain, [ops]))
    decreases MAX_IDEMPOTENT_RESUBMISSIONS - attempt
  {
    hide OneAttempt, Consistent, Quiet, AdvanceAll, VerdictFacts, DeadUpTo, Forever, AtMostOnce;
    var run := Resubmission(c, ops, env, onError, attempt);
    var t := OneAttempt(c, ops, env(attempt), onError);
    TurnStep(c, ops, env(attempt), onError);
    assert t.atRead == run.seqReads[0];
    if t.RuledNotLanded? && attempt < MAX_IDEMPOTENT_RESUBMISSIONS {
      var rest := Resubmission(t.chain, ops, env, onError, attempt + 1);
      assert forall k :: 0 <= k < |rest.seqReads| ==> rest.seqReads[k] == run.seqReads[k + 1];
      ResubmissionTakesEffectAtMostOnce(t.chain, ops, env, onError, attempt + 1);
    } else {
      AtMostOnceExactly(t.chain, ops);
      if t.chain.applied != [] { QuietIsForever(t.chain, ops); }
    }
  }

  lemma {:induction false} ReadsAgree(c: Chain, ops: seq<Operation>, env: Environment, other: Environment,
                                      onError: ErrorPolicy, attempt: nat, n: nat)
    requires attempt <= n <= MAX_IDEMPOTENT_RESUBMISSIONS && SameUpToRead(env, other, n)
    requires n - attempt < |Resubmission(c, ops, env, onError, attempt).seqReads|
    ensures var run, twin := Resubmission(c, ops, env, onError, attempt), Resubmission(c, ops, other, onError, attempt);
            n - attempt < |twin.seqReads| && twin.seqReads[..n - attempt + 1] == run.seqReads[..n - attempt + 1]
    decreases n - attempt
  {
    hide OneAttempt, AdvanceAll;
    if attempt < n {
      var t := OneAttempt(c, ops, env(attempt), onError);
      ReadsAgree(t.chain, ops, env, other, onError, attempt + 1, n);
    } else {
      ReadIsAfterTheWait(c, ops, env(n), onError);
      ReadIsAfterTheWait(c, ops, other(n), onError);
    }
  }

  lemma ReadIsAfterTheWait(c: Chain, ops: seq<Operation>, a: Attempt, onError: ErrorPolicy)
    ensures OneAttempt(c, ops, a, onError).atRead == AdvanceAll(c, a.wait)
  {
  }

  /** Sending on a read that found the operation landed can take effect again. */
  lemma {:induction false} DirtyReadDoubles(c: Chain, ops: seq<Operation>, env: Environment, onError: ErrorPolicy,
                                            attempt: nat, n: nat)
    requires attempt <= n <= MAX_IDEMPOTENT_RESUBMISSIONS
    requires n - attempt < |Resubmission(c, ops, env, onError, attempt).seqReads|
    ensures var read := Resubmission(c, ops, env, onError, attempt).seqReads[n - attempt];
            var other := Replace(env, n, ConfirmedInstead(env(n), |read.txs|));
            var twin := Resubmission(c, ops, other, onError, attempt);
            |twin.seqReads| == n - attempt + 1 && twin.chain.applied == read.applied + [ops]
    decreases n - attempt
  {
    hide OneAttempt, AdvanceAll, ConfirmedInstead;
    if attempt < n {
      var t := OneAttempt(c, ops, env(attempt), onError);
      DirtyReadDoubles(t.chain, ops, env, onError, attempt + 1, n);
    } else {
      ReadIsAfterTheWait(c, ops, env(n), onError);
      ConfirmedTurn(c, ops, env(n), onError);
    }
  }

  lemma ConfirmedTurn(c: Chain, ops: seq<Operation>, a: Attempt, onError: ErrorPolicy)
    ensures var read := AdvanceAll(c, a.wait);
            var t := OneAttempt(c, ops, ConfirmedInstead(a, |read.txs|), onError);
            t.Ends? && t.atRead == read && t.chain.applied == read.applied + [ops]
  {
    ConfirmedLifecycle(c, ops, a);
  }

  /**
    That condition is exactly what is needed.  A run finds nothing landed at any of
    its reads if and only if no environment that agrees with it up to one of those
    reads, and ends with that attempt, can take effect twice.
  */
  lemma CleanReadsAreExactlyWhatIsNeeded(c: Chain, ops: seq<Operation>, env: Environment, onError: ErrorPolicy)
    requires Fresh(c)
    ensures NothingLandedAtReads(Resubmission(c, ops, env, onError, 0).seqReads) <==>
            forall n: nat, other: Environment ::
              && n < |Resubmission(c, ops, env, onError, 0).seqReads| && SameUpToRead(env, other, n)
              && |Resubmission(c, ops, other, onError, 0).seqReads| == n + 1 ==>
              AtMostOnce(Resubmission(c, ops, other, onError, 0).chain, ops)
  {
    hide OneAttempt, Quiet, AdvanceAll, AtMostOnce, Resubmission;
    var run := Resubmission(c, ops, env, onError, 0);
    assert |run.seqReads| <= 3 by { AtMostThree(c, ops, env, onError, 0); }
    if NothingLandedAtReads(run.seqReads) {
      forall n: nat, other: Environment | n < |run.seqReads| && SameUpToRead(env, other, n)
                                          && |Resubmission(c, ops, other, onError, 0).seqReads| == n + 1
        ensures AtMostOnce(Resubmission(c, ops, other, onError, 0).chain, ops)
      {
        ReadsAgree(c, ops, env, other, onError, 0, n);
        var twin := Resubmission(c, ops, other, onError, 0);
        assert forall k :: 0 <= k <= n ==> twin.seqReads[k] == twin.seqReads[..n + 1][k] == run.seqReads[..n + 1][k];
        ResubmissionTakesEffectAtMostOnce(c, ops, other, onError, 0);
      }
    } else {
      var n: nat :| n < |run.seqReads| && run.seqReads[n].applied != [];
      var other := Replace(env, n, ConfirmedInstead(env(n), |run.seqReads[n].txs|));
      DirtyReadDoubles(c, ops, env, onError, 0, n);
      assert SameUpToRead(env, other, n);
      TwiceIsNotOnce(Resubmission(c, ops, other, onError, 0).chain, ops);
    }
  }

  lemma {:induction false} AtMostThree(c: Chain, ops: seq<Operation>, env: Environment, onError: ErrorPolicy, attempt: nat)
    requires attempt <= MAX_IDEMPOTENT_RESUBMISSIONS
    ensures |Resubmission(c, ops, env, onError, attempt).seqReads| <= MAX_IDEMPOTENT_RESUBMISSIONS + 1 - attempt
    decreases MAX_IDEMPOTENT_RESUBMISSIONS - attempt
  {
    hide OneAttempt;
    if attempt < MAX_IDEMPOTENT_RESUBMISSIONS {
      AtMostThree(OneAttempt(c, ops, env(attempt), onError).chain, ops, env, onError, attempt + 1);
    }
  }

  // ----- what decides a run

  /** After which failures the status of a hash, and the contract, are asked. */
  predicate LookedUp(x: Sighting, onError: ErrorPolicy) {
    && (x.status.Some? <==> x.report.Unconfirmed?)
    && (x.check == NotAsked <==>
          match x.report
          case Success(_) => true
          case Unconfirmed(_, _) => !(x.status == Some(ERROR) && onError.Retry?)
          case NotSent(retryable) => !retryable
          case SendFailed(retryable) => !retryable)
  }

  /** The lookups say that the attempt did not land. */
  predicate Refuted(x: Sighting) {
    x.status == Some(NOT_FOUND) || x.check == Answered(false)
  }

  /** How a run ends can be read off the last thing it saw. */
  function EndOf(x: Sighting): Ending {
    if x.report.Success? then Confirmed
    else if x.status == Some(SUCCESS) || x.check == Answered(true) then Recovered
    else if x.check == CheckFailed then Unknown
    else TransactionError
  }

  /** A run is what its sightings make of it: every failure is resolved, and the run goes on after exactly the refuted ones. */
  ghost predicate Decided(run: Run, onError: ErrorPolicy, attempts: nat)
    requires run.seen != []
  {
    && |run.seen| <= attempts
    && (forall k :: 0 <= k < |run.seen| ==> LookedUp(run.seen[k], onError))
    && (forall k :: 0 <= k < |run.seen| - 1 ==> Refuted(run.seen[k]))
    && (Refuted(Last(run.seen)) ==> |run.seen| == attempts)
    && run.ending == EndOf(Last(run.seen))
  }

  lemma TurnIsDecided(c: Chain, ops: seq<Operation>, a: Attempt, onError: ErrorPolicy)
    ensures var t := OneAttempt(c, ops, a, onError);
            && LookedUp(t.sighting, onError)
            && (t.RuledNotLanded? <==> Refuted(t.sighting))
            && EndOf(t.sighting) == if t.Ends? then t.ending else TransactionError
  {
    hide SubmitTransaction, AdvanceAll;
  }

  /**
    A retryable failure without a hash is put to the contract, a hash is put to the
    network, and a run is given up early only on an established or unresolvable
    outcome: never while attempts remain and the last one is refuted.
  */
  lemma {:induction false} RunIsDecidedBySightings(
      c: Chain, ops: seq<Operation>, env: Environment, onError: ErrorPolicy, attempt: nat)
    requires attempt <= MAX_IDEMPOTENT_RESUBMISSIONS
    ensures Decided(Resubmission(c, ops, env, onError, attempt), onError, 3 - attempt)
    decreases MAX_IDEMPOTENT_RESUBMISSIONS - attempt
  {
    hide OneAttempt, EndOf, LookedUp, Refuted;
    var t := OneAttempt(c, ops, env(attempt), onError);
    TurnIsDecided(c, ops, env(attempt), onError);
    if t.RuledNotLanded? && attempt < MAX_IDEMPOTENT_RESUBMISSIONS {
      var rest := Resubmission(t.chain, ops, env, onError, attempt + 1);
      RunIsDecidedBySightings(t.chain, ops, env, onError, attempt + 1);
      assert forall k :: 0 < k < |rest.seen| + 1 ==> After(t, rest).seen[k] == rest.seen[k - 1];
    }
  }

  /** What is looked up is read off the chain as the turn leaves it. */
  lemma AnswersAreReadOffTheChain(c: Chain, ops: seq<Operation>, a: Attempt, onError: ErrorPolicy)
    ensures var t := OneAttempt(c, ops, a, onError);
            var x := t.sighting;
            && x.report == SubmitTransaction(c, ops, a).report && t.atRead == SubmitTransaction(c, ops, a).atRead
            && t.chain == (if x.status.Some? || x.check != NotAsked
                           then AdvanceAll(SubmitTransaction(c, ops, a).chain, a.reconciling)
                           else SubmitTransaction(c, ops, a).chain)
            && (x.status.Some? ==> |c.txs| < |t.chain.txs| && (x.status == Some(ERROR) <==> a.statusFails))
            && (x.status.Some? && !a.statusFails ==>
                  && (x.status == Some(SUCCESS) <==> t.chain.txs[|c.txs|].fate.Applied?)
                  && (x.status == Some(FAILED) <==> t.chain.txs[|c.txs|].fate.Reverted?))
            && (x.check != NotAsked ==> x.check == if a.landedThrows then CheckFailed else Answered(t.chain.applied != []))
  {
    LifecycleReports(c, ops, a);
    hide SubmitTransaction, AdvanceAll;
    var s := SubmitTransaction(c, ops, a);
    AdvanceKeepsLength(s.chain, a.reconciling);
  }

  // ----- what a TRANSACTION_ERROR means

  /**
    When negative verdicts are authoritative no read ever finds the operation
    landed, so the theorem above applies; and a TRANSACTION_ERROR whose last
    sighting is conclusive means that nothing took or will take effect.
  */
  lemma {:induction false} ConclusiveErrorMeansNoEffect(
      c: Chain, ops: seq<Operation>, env: Environment, onError: ErrorPolicy, attempt: nat)
    requires attempt <= MAX_IDEMPOTENT_RESUBMISSIONS
    requires Consistent(c, ops) && c.applied == [] && DeadUpTo(c, |c.txs|)
    requires RefutationsAreFinal(Resubmission(c, ops, env, onError, attempt).refuted)
    ensures var run := Resubmission(c, ops, env, onError, attempt);
            && NothingLandedAtReads(run.seqReads)
            && (run.ending.TransactionError? && Conclusive(Last(run.seen)) ==> Forever(run.chain, []))
    decreases MAX_IDEMPOTENT_RESUBMISSIONS - attempt
  {
    hide OneAttempt, Consistent, Quiet, AdvanceAll, Conclusive, Forever;
    DeadExactlyWhenSpent(c, ops);
    var run := Resubmission(c, ops, env, onError, attempt);
    var t := OneAttempt(c, ops, env(attempt), onError);
    TurnStep(c, ops, env(attempt), onError);
    if t.Ends? {
      QuietIsForever(t.chain, ops);
    } else {
      assert run.refuted[0] == t.chain;
      DeadExactlyWhenSpent(t.chain, ops);
      if attempt < MAX_IDEMPOTENT_RESUBMISSIONS {
        var rest := Resubmission(t.chain, ops, env, onError, attempt + 1);
        assert forall k :: 0 <= k < |rest.refuted| ==> rest.refuted[k] == run.refuted[k + 1];
        ConclusiveErrorMeansNoEffect(t.chain, ops, env, onError, attempt + 1);
      } else {
        QuietIsForever(t.chain, ops);
      }
    }
  }

  /** Behind an inconclusive last attempt the transaction may have landed without a trace. */
  lemma LandedTurn(c: Chain, ops: seq<Operation>, a: Attempt, onError: ErrorPolicy)
    requires var t := OneAttempt(c, ops, a, onError);
             t.Ends? && t.ending.TransactionError? && !Conclusive(t.sighting)
    ensures var t := OneAttempt(c, ops, a, onError);
            var twin := OneAttempt(c, ops, LandedInstead(a, |t.atRead.txs|), onError);
            && twin.Ends? && twin.ending == t.ending && twin.atRead == t.atRead && twin.sighting == t.sighting
            && twin.chain.applied == t.atRead.applied + [ops]
  {
    hide SubmitTransaction, AdvanceAll, LandedInstead;
    var read := SubmitTransaction(c, ops, a).atRead;
    LandedFields(a, |read.txs|);
    LandedLifecycle(c, ops, a);
    DeliveredCanLand(read, ops);
  }

  lemma {:induction false} LandedTwin(c: Chain, ops: seq<Operation>, env: Environment, onError: ErrorPolicy, attempt: nat)
    requires attempt <= MAX_IDEMPOTENT_RESUBMISSIONS
    requires var run := Resubmission(c, ops, env, onError, attempt);
             run.ending.TransactionError? && !Conclusive(Last(run.seen))
    ensures var run := Resubmission(c, ops, env, onError, attempt);
            var n, read := attempt + |run.seqReads| - 1, run.seqReads[|run.seqReads| - 1];
            var twin := Resubmission(c, ops, Replace(env, n, LandedInstead(env(n), |read.txs|)), onError, attempt);
            && twin.seen == run.seen && twin.seqReads == run.seqReads && twin.refuted == run.refuted
            && twin.chain.applied == read.applied + [ops]
    decreases MAX_IDEMPOTENT_RESUBMISSIONS - attempt
  {
    hide OneAttempt, Conclusive, LandedInstead;
    var t := OneAttempt(c, ops, env(attempt), onError);
    if t.Ends? {
      LandedTurn(c, ops, env(attempt), onError);
    } else {
      RulingIsConclusive(c, ops, env(attempt), onError);
      assert attempt < MAX_IDEMPOTENT_RESUBMISSIONS;
      LandedTwin(t.chain, ops, env, onError, attempt + 1);
    }
  }

  lemma RulingIsConclusive(c: Chain, ops: seq<Operation>, a: Attempt, onError: ErrorPolicy)
    ensures var t := OneAttempt(c, ops, a, onError); t.RuledNotLanded? ==> Conclusive(t.sighting)
  {
    hide SubmitTransaction, AdvanceAll;
  }

  /** In every ledger behaviour that shows the SDK the same, nothing took or will take effect. */
  ghost predicate ErrorIsTruthful(c: Chain, ops: seq<Operation>, env: Environment, onError: ErrorPolicy) {
    forall other: Environment ::
      var twin := Resubmission(c, ops, other, onError, 0);
      twin.seen == Resubmission(c, ops, env, onError, 0).seen && RefutationsAreFinal(twin.refuted) ==> Forever(twin.chain, [])
  }

  /**
    A TRANSACTION_ERROR means no effect exactly when the last sighting is conclusive:
    the attempt was never sent, its status was FAILED or NOT_FOUND, or the contract
    check denied it.  It means nothing after a status ERROR or a send that failed
    without a hash.
  */
  lemma TransactionErrorIsTruthfulExactly(c: Chain, ops: seq<Operation>, env: Environment, onError: ErrorPolicy)
    requires Fresh(c)
    requires var run := Resubmission(c, ops, env, onError, 0);
             run.ending.TransactionError? && RefutationsAreFinal(run.refuted)
    ensures ErrorIsTruthful(c, ops, env, onError) <==> Conclusive(Last(Resubmission(c, ops, env, onError, 0).seen))
  {
    hide Resubmission, Conclusive, RefutationsAreFinal;
    var run := Resubmission(c, ops, env, onError, 0);
    if Conclusive(Last(run.seen)) {
      forall other: Environment |
        var twin := Resubmission(c, ops, other, onError, 0);
        twin.seen == run.seen && RefutationsAreFinal(twin.refuted)
        ensures Forever(Resubmission(c, ops, other, onError, 0).chain, [])
      {
        RunIsDecidedBySightings(c, ops, env, onError, 0);
        RunIsDecidedBySightings(c, ops, other, onError, 0);
        ConclusiveErrorMeansNoEffect(c, ops, other, onError, 0);
      }
    } else {
      var n, read := |run.seqReads| - 1, run.seqReads[|run.seqReads| - 1];
      LandedTwin(c, ops, env, onError, 0);
      var twin := Resubmission(c, ops, Replace(env, n, LandedInstead(env(n), |read.txs|)), onError, 0);
      assert AdvanceAll(twin.chain, []) == twin.chain;
    }
  }

  /** Everything together, from a fresh submission under the policy in force. */
  lemma LimitOrderSubmission(c: Chain, ops: seq<Operation>, env: Environment)
    requires Fresh(c)
    requires RefutationsAreFinal(Resubmission(c, ops, env, SHIPPED_POLICY, 0).refuted)
    ensures var run := Resubmission(c, ops, env, SHIPPED_POLICY, 0);
            && 1 <= |run.seqReads| <= 3
            && AtMostOnce(run.chain, ops)
            && (run.ending.Confirmed? || run.ending.Recovered? ==> Forever(run.chain, [ops]))
            && (run.ending.TransactionError? ==>
                  (ErrorIsTruthful(c, ops, env, SHIPPED_POLICY) <==> Conclusive(Last(run.seen))))
  {
    hide Resubmission, Conclusive, ErrorIsTruthful;
    ConclusiveErrorMeansNoEffect(c, ops, env, SHIPPED_POLICY, 0);
    ResubmissionTakesEffectAtMostOnce(c, ops, env, SHIPPED_POLICY, 0);
    if Resubmission(c, ops, env, SHIPPED_POLICY, 0).ending.TransactionError? {
      TransactionErrorIsTruthfulExactly(c, ops, env, SHIPPED_POLICY);
    }
  }

  // ----- failing runs

  const START := Chain(7, [], [])
  const REPLACE := [CancelOrder("old"), CreateOrder("new")]

  /** An attempt that is sent, whose confirmation is lost, with ledger events around it. */
  function Lost(wait: seq<Event>, polling: seq<Event>, statusFails: bool): Attempt {
    Attempt(wait, Builds, [], Accepted, polling, true, true, [], statusFails, false)
  }

  /**
    The status query answers ERROR for a transaction that did land: the policy in
    force ends the run with TRANSACTION_ERROR although both operations took effect.
    Falling through to the contract-level check, as the comment in the source
    describes and the `Retry` policy would do, recovers the same run.
  */
  lemma StatusErrorHidesALandedOrder()
    ensures var env := (k: nat) => Lost([], [Close(0, true)], true);
            var shipped := Resubmission(START, REPLACE, env, SHIPPED_POLICY, 0);
            var intended := Resubmission(START, REPLACE, env, Retry, 0);
            && shipped.ending == TransactionError && shipped.chain.applied == [REPLACE]
            && Last(shipped.seen).status == Some(ERROR)
            && intended.ending == Recovered && intended.chain == shipped.chain
  {
  }

  /**
    A send whose first try was applied while its reply was lost, and whose second
    try is answered ERROR, is reported as refused: TRANSACTION_ERROR with an effect.
  */
  lemma RefusedResendHidesALandedOrder()
    ensures var env := (k: nat) => Attempt([], Builds, [], Refused(true), [Close(0, true)], false, false, [], false, false);
            var run := Resubmission(START, REPLACE, env, SHIPPED_POLICY, 0);
            run.ending == TransactionError && run.chain.applied == [REPLACE]
  {
  }

  function LandsInThePause(k: nat): Attempt {
    if k == 0 then Lost([], [], false) else Lost([Close(0, true)], [Close(1, true)], false)
  }

  /** A late landing in the retry pause, after NOT_FOUND and before the next read, doubles the effect. */
  lemma LandingInTheRetryPauseDoublesTheEffect()
    ensures Resubmission(START, REPLACE, LandsInThePause, SHIPPED_POLICY, 0).chain.applied == [REPLACE, REPLACE]
  {
  }

  function LandsUnderAnOldHash(k: nat): Attempt {
    Lost([], if k == 0 then [] else if k == 1 then [Close(0, true)] else [Close(2, true)], false)
  }

  /**
    Only the newest hash is looked up: when the first transaction lands while the
    second is polled, the second is honestly and finally NOT_FOUND, and the third
    attempt applies the operations again.
  */
  lemma LandingUnderAnOldHashDoublesTheEffect()
    ensures var run := Resubmission(START, REPLACE, LandsUnderAnOldHash, SHIPPED_POLICY, 0);
            run.chain.applied == [REPLACE, REPLACE] && |run.refuted| == 2 && Quiet(run.refuted[1])
  {
    var none := Sighting(Unconfirmed(0, true), Some(NOT_FOUND), NotAsked);
    var c0 := Deliver(START, 8, REPLACE);
    assert OneAttempt(START, REPLACE, LandsUnderAnOldHash(0), SHIPPED_POLICY) == RuledNotLanded(c0, START, none);
    var c1 := Deliver(c0, 8, REPLACE);
    OneEvent(c1, Close(0, true));
    var c2 := Advance(c1, Close(0, true));
    assert OneAttempt(c0, REPLACE, LandsUnderAnOldHash(1), SHIPPED_POLICY)
        == RuledNotLanded(c2, c0, none.(report := Unconfirmed(1, true)));
    var c3 := Deliver(c2, 9, REPLACE);
    OneEvent(c3, Close(2, true));
    var c4 := Advance(c3, Close(2, true));
    assert c4.applied == [REPLACE, REPLACE];
    assert OneAttempt(c2, REPLACE, LandsUnderAnOldHash(2), SHIPPED_POLICY).chain == c4;
  }
}
