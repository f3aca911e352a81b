/**
  The client's transaction lifecycle and the retry decision, seen against the
  ledger: what one submission may do, and what the SDK gets to see of it.

  The environment is a script: for each attempt it says what the ledger does in
  each gap between two steps of the SDK and which of the SDK's calls fail.  RPC
  answers that do arrive are honest, so they are read off the chain.
*/
module TransactionLifecycle {
  import opened Wrappers
  import opened Ledger

  // ----- src/utils/idempotent-resubmission.ts

  datatype TxStatus = SUCCESS | FAILED | NOT_FOUND | ERROR

  datatype ErrorPolicy = Block | Retry

  /** The callers modelled here pass no options, so the policy in force is `Block`. */
  const SHIPPED_POLICY := Block

  function ShouldRetrySubmission(status: TxStatus, onError: ErrorPolicy): bool {
    match status
    case SUCCESS => false
    case FAILED => false
    case NOT_FOUND => true
    case ERROR => onError.Retry?
  }

  function GetTransactionStatus(c: Chain, tx: nat, queryFails: bool): TxStatus
    requires tx < |c.txs|
  {
    if queryFails then ERROR else
    match c.txs[tx].fate
    case Applied => SUCCESS
    case Reverted => FAILED
    case InFlight => NOT_FOUND
    case Expired => NOT_FOUND
  }

  // ----- src/client.ts: one transaction lifecycle

  datatype Build = Builds | BuildFails(retryable: bool)

  /**
    How sendTransaction, which is retried and moved between endpoints with the same
    signed transaction, ends.  `Refused` is the network's ERROR answer to the last
    try and `Threw` a lost reply; in both cases an earlier try may have `reached`
    the network.
  */
  datatype Send = Accepted | Refused(reached: bool) | Threw(reached: bool, retryable: bool)

  /** Everything the environment decides about one attempt, in the order it is decided. */
  datatype Attempt = Attempt(
    wait: seq<Event>,           // retry pause and queueing, before the sequence number is read
    build: Build,
    signing: seq<Event>,        // between reading the number and sending
    send: Send,
    polling: seq<Event>,        // between sending and the client's report
    confirmationLost: bool,
    pollRetryable: bool,
    reconciling: seq<Event>,    // between the report and the status query
    statusFails: bool,
    landedThrows: bool)

  type Environment = nat -> Attempt

  /** The client's result: only `Success` and `Unconfirmed` carry a transaction hash. */
  datatype Report =
    | Success(tx: nat)
    | NotSent(retryable: bool)                 // failed before sendTransaction
    | SendFailed(retryable: bool)
    | Unconfirmed(tx: nat, retryable: bool)
  {
    function TxHash(): Option<nat> {
      if Success? || Unconfirmed? then Some(tx) else None
    }
  }

  /** `atRead` is the chain as it stood when the account sequence was read. */
  datatype Lifecycle = Lifecycle(chain: Chain, report: Report, atRead: Chain)

  function Deliver(c: Chain, seqNum: nat, ops: seq<Operation>): Chain {
    c.(txs := c.txs + [Tx(seqNum, ops, InFlight)])
  }

  predicate Reaches(send: Send) {
    send.Accepted? || send.reached
  }

  function SubmitTransaction(c: Chain, ops: seq<Operation>, a: Attempt): (r: Lifecycle)
    ensures r.report.TxHash().Some? ==> r.report.tx < |r.chain.txs|
  {
    var read := AdvanceAll(c, a.wait);
    if a.build.BuildFails? then Lifecycle(read, NotSent(a.build.retryable), read) else
    var signed := AdvanceAll(read, a.signing);
    var sent := if Reaches(a.send) then Deliver(signed, read.accountSeq + 1, ops) else signed;
    var polled := AdvanceAll(sent, a.polling);
    AdvanceKeepsLength(sent, a.polling);
    var tx := |signed.txs|;
    match a.send
    case Refused(_) => Lifecycle(polled, SendFailed(false), read)
    case Threw(_, retryable) => Lifecycle(polled, SendFailed(retryable), read)
    case Accepted =>
      if !a.confirmationLost && polled.txs[tx].fate.Applied? then Lifecycle(polled, Success(tx), read)
      else Lifecycle(polled, Unconfirmed(tx, a.pollRetryable), read)
  }

  lemma {:induction false} AdvanceKeepsLength(c: Chain, es: seq<Event>)
    ensures |AdvanceAll(c, es).txs| == |c.txs|
    decreases |es|
  {
    if es != [] {
      AdvanceKeepsLength(Advance(c, es[0]), es[1..]);
    }
  }

  // ----- what the SDK sees of an attempt

  /** The contract-level check "did this already happen?". */
  datatype Check = NotAsked | Answered(landed: bool) | CheckFailed

  /** One attempt as the SDK sees it: the client's report, the status it looked up, the check it asked for. */
  datatype Sighting = Sighting(report: Report, status: Option<TxStatus>, check: Check)

  /** Does the sighting rule out that the attempt's transaction took or will take effect? */
  predicate Conclusive(x: Sighting) {
    x.report.NotSent? || x.status == Some(FAILED) || x.status == Some(NOT_FOUND) || x.check == Answered(false)
  }

  function Last(seen: seq<Sighting>): Sighting
    requires seen != []
  {
    seen[|seen| - 1]
  }

  /** `Unknown` is an error thrown by the contract-level check and passed on to the caller. */
  datatype Ending = Confirmed | Recovered | TransactionError | Unknown

  /**
    A finished run: how it ended, the chain it left, the chains at which it read the
    account sequence, those at which it ruled an attempt not landed, and what it saw.
  */
  datatype Run = Run(ending: Ending, chain: Chain, seqReads: seq<Chain>, refuted: seq<Chain>, seen: seq<Sighting>)

  // ----- what the lifecycle guarantees

  ghost predicate Fresh(c: Chain) { c.txs == [] && c.applied == [] }

  ghost predicate NothingLandedAtReads(seqReads: seq<Chain>) {
    forall k :: 0 <= k < |seqReads| ==> seqReads[k].applied == []
  }

  /** A negative verdict (NOT_FOUND or a negative contract check) is authoritative: nothing can land after it. */
  ghost predicate RefutationsAreFinal(refuted: seq<Chain>) {
    forall k :: 0 <= k < |refuted| ==> Quiet(refuted[k])
  }

  lemma DeliverStep(c: Chain, seqNum: nat, ops: seq<Operation>)
    requires Consistent(c, ops) && seqNum <= c.accountSeq + 1
    ensures Consistent(Deliver(c, seqNum, ops), ops)
    ensures forall n: nat :: DeadUpTo(c, n) ==> DeadUpTo(Deliver(c, seqNum, ops), n)
  {
    var d := Deliver(c, seqNum, ops);
    if d.applied != [] {
      var i :| 0 <= i < |c.txs| && c.txs[i].fate.Applied?;
      assert d.txs[i] == c.txs[i];
    }
    forall n: nat | DeadUpTo(c, n) ensures DeadUpTo(d, n) {
      forall i: nat | i < n ensures !d.txs[i].fate.Applied? && !Live(d, i) {
        assert d.txs[i] == c.txs[i] && !Live(c, i);
      }
    }
  }

  lemma {:induction false} SequenceGrows(c: Chain, es: seq<Event>)
    ensures c.accountSeq <= AdvanceAll(c, es).accountSeq
    decreases |es|
  {
    if es != [] {
      SequenceGrows(Advance(c, es[0]), es[1..]);
    }
  }

  lemma {:induction false} OneEffectKillsTheNumber(c: Chain, ops: seq<Operation>, es: seq<Event>)
    requires Consistent(c, ops)
    requires AdvanceAll(c, es).applied != c.applied
    ensures c.accountSeq < AdvanceAll(c, es).accountSeq
    decreases |es|
  {
    if es != [] {
      AdvanceStep(c, ops, es[0]);
      SequenceGrows(Advance(c, es[0]), es[1..]);
      if Advance(c, es[0]).applied == c.applied {
        OneEffectKillsTheNumber(Advance(c, es[0]), ops, es[1..]);
      }
    }
  }

  /** From the sequence read to the end of polling, when the transaction reached the network. */
  lemma SentAfterRead(read: Chain, ops: seq<Operation>, signing: seq<Event>, polling: seq<Event>)
    requires Consistent(read, ops)
    ensures var end := AdvanceAll(Deliver(AdvanceAll(read, signing), read.accountSeq + 1, ops), polling);
            && Consistent(end, ops)
            && |end.txs| == |read.txs| + 1
            && (read.applied == [] ==> end.applied == [] || (end.applied == [ops] && Quiet(end)))
            && (forall n: nat :: DeadUpTo(read, n) ==> DeadUpTo(end, n))
  {
    hide AdvanceAll;
    var signed := AdvanceAll(read, signing);
    AdvanceMany(read, ops, signing);
    SequenceGrows(read, signing);
    var sent := Deliver(signed, read.accountSeq + 1, ops);
    DeliverStep(signed, read.accountSeq + 1, ops);
    AdvanceMany(sent, ops, polling);
    assert read.applied == [] ==> read.applied + [ops] == [ops];
    if signed.applied != read.applied {
      // the number that was read has been consumed, so the new transaction is dead on arrival
      OneEffectKillsTheNumber(read, ops, signing);
      forall i: nat | i < |sent.txs| ensures !Live(sent, i) {
        if i < |signed.txs| { assert !Live(signed, i); }
      }
      assert Quiet(sent);
    }
  }

  /** What one lifecycle may have done to the chain, given what it reported. */
  ghost predicate LifecycleFacts(c: Chain, ops: seq<Operation>, s: Lifecycle) {
    && Consistent(s.chain, ops) && Consistent(s.atRead, ops)
    && |s.atRead.txs| == |c.txs|
    && (s.atRead.applied == c.applied || (s.atRead.applied == c.applied + [ops] && !Quiet(c)))
    && (s.atRead.applied == [] ==> s.chain.applied == [] || (s.chain.applied == [ops] && Quiet(s.chain)))
    && (s.report.Success? ==> s.chain.applied != [])
    && |c.txs| <= |s.chain.txs| <= |c.txs| + 1
    && (forall n: nat :: DeadUpTo(c, n) ==> DeadUpTo(s.chain, n))
    && (s.report.NotSent? ==> |s.chain.txs| == |c.txs|)
    && (s.report.Unconfirmed? ==> s.report.tx == |c.txs| && |s.chain.txs| == |c.txs| + 1)
  }

  lemma LifecycleStep(c: Chain, ops: seq<Operation>, a: Attempt)
    requires Consistent(c, ops)
    ensures LifecycleFacts(c, ops, SubmitTransaction(c, ops, a))
  {
    hide AdvanceAll, Live;
    var read := AdvanceAll(c, a.wait);
    AdvanceMany(c, ops, a.wait);
    assert read.applied == [] ==> read.applied + [ops] == [ops];
    if a.build.Builds? {
      var signed := AdvanceAll(read, a.signing);
      AdvanceMany(read, ops, a.signing);
      if Reaches(a.send) {
        SentAfterRead(read, ops, a.signing, a.polling);
      } else {
        AdvanceMany(signed, ops, a.polling);
      }
    }
  }

  /**
    Exactly what is reported, and exactly what is sent: a transaction with the number
    after the one read, if and only if the build succeeds and some send gets through.
  */
  lemma LifecycleReports(c: Chain, ops: seq<Operation>, a: Attempt)
    ensures var s := SubmitTransaction(c, ops, a);
            var n := |c.txs|;
            && s.atRead == AdvanceAll(c, a.wait)
            && (|s.chain.txs| == n + 1 <==> a.build.Builds? && (a.send.Accepted? || a.send.reached))
            && (|s.chain.txs| == n + 1 ==> s.chain.txs[n].seqNum == s.atRead.accountSeq + 1 && s.chain.txs[n].ops == ops)
            && (|s.chain.txs| == n + 1 || |s.chain.txs| == n)
            && (s.report.Success? <==> a.build.Builds? && a.send.Accepted? && !a.confirmationLost && s.chain.txs[n].fate.Applied?)
            && (s.report.Unconfirmed? <==> a.build.Builds? && a.send.Accepted? && !s.report.Success?)
            && (s.report.TxHash().Some? ==> s.report.TxHash() == Some(n))
            && (s.report.Unconfirmed? ==> s.report.retryable == a.pollRetryable)
            && (s.report.NotSent? <==> a.build.BuildFails?)
            && (s.report.NotSent? ==> s.report.retryable == a.build.retryable)
            && (s.report.SendFailed? ==> s.report.retryable == (a.send.Threw? && a.send.retryable))
  {
    var read := AdvanceAll(c, a.wait);
    AdvanceKeepsLength(c, a.wait);
    if a.build.Builds? {
      var signed := AdvanceAll(read, a.signing);
      AdvanceKeepsLength(read, a.signing);
      hide AdvanceAll;
      if Reaches(a.send) {
        var sent := Deliver(signed, read.accountSeq + 1, ops);
        AdvanceKeepsLength(sent, a.polling);
        AdvanceKeepsContents(sent, a.polling, |c.txs|);
      } else {
        AdvanceKeepsLength(signed, a.polling);
      }
    }
  }

  lemma {:induction false} AdvanceKeepsContents(c: Chain, es: seq<Event>, i: nat)
    requires i < |c.txs|
    ensures var d := AdvanceAll(c, es);
            i < |d.txs| && d.txs[i].seqNum == c.txs[i].seqNum && d.txs[i].ops == c.txs[i].ops
    decreases |es|
  {
    if es != [] {
      AdvanceKeepsContents(Advance(c, es[0]), es[1..], i);
    }
  }

  /** A status that is answered tells the transaction's fate on the chain. */
  lemma StatusTellsTheFate(c: Chain, tx: nat, queryFails: bool)
    requires tx < |c.txs|
    ensures var status, fate := GetTransactionStatus(c, tx, queryFails), c.txs[tx].fate;
            && (status == ERROR <==> queryFails)
            && (!queryFails ==> (status == SUCCESS <==> fate.Applied?) && (status == FAILED <==> fate.Reverted?))
  {
  }

  /** If all earlier transactions are dead, only the newest one can have landed or still land. */
  lemma OnlyTheNewest(c: Chain, ops: seq<Operation>, n: nat)
    requires Consistent(c, ops) && DeadUpTo(c, n) && |c.txs| <= n + 1
    ensures c.applied != [] ==> |c.txs| == n + 1 && c.txs[n].fate.Applied?
    ensures (|c.txs| == n + 1 ==> !c.txs[n].fate.InFlight?) ==> Quiet(c)
  {
  }

  lemma DeadExactlyWhenSpent(c: Chain, ops: seq<Operation>)
    requires Consistent(c, ops)
    ensures DeadUpTo(c, |c.txs|) <==> c.applied == [] && Quiet(c)
  {
  }

  // ----- other behaviours of the ledger behind the same sightings

  /** The same attempt, except that its transaction reaches the network at once and is applied unseen. */
  function LandedInstead(a: Attempt, tx: nat): Attempt {
    a.(signing := [],
       send := if a.send.Accepted? then Accepted else a.send.(reached := true),
       polling := if a.send.Accepted? then [] else [Close(tx, true)],
       reconciling := [Close(tx, true)])
  }

  lemma LandedFields(a: Attempt, tx: nat)
    ensures var b := LandedInstead(a, tx);
            b.reconciling == [Close(tx, true)] && b.statusFails == a.statusFails && b.landedThrows == a.landedThrows
  {
  }

  /** An attempt that behaves like `a` up to its sequence read and is then sent, applied and confirmed. */
  function ConfirmedInstead(a: Attempt, tx: nat): Attempt {
    Attempt(a.wait, Builds, [], Accepted, [Close(tx, true)], false, false, [], false, false)
  }

  /** The two environments agree on everything up to the sequence read of attempt `n`. */
  ghost predicate SameUpToRead(env: Environment, other: Environment, n: nat) {
    (forall k: nat :: k < n ==> other(k) == env(k)) && other(n).wait == env(n).wait
  }

  function Replace(env: Environment, n: nat, a: Attempt): Environment {
    (k: nat) => if k == n then a else env(k)
  }

  lemma OneEvent(c: Chain, e: Event)
    ensures AdvanceAll(c, [e]) == Advance(c, e) && AdvanceAll(c, []) == c
  {
    assert [e][1..] == [];
  }

  /** A transaction numbered from the current sequence can be applied at once. */
  lemma DeliveredCanLand(read: Chain, ops: seq<Operation>)
    ensures var c := Deliver(read, read.accountSeq + 1, ops);
            AdvanceAll(c, [Close(|read.txs|, true)]).applied == read.applied + [ops]
    ensures var c := Deliver(read, read.accountSeq + 1, ops);
            var d := AdvanceAll(c, [Close(|read.txs|, true)]);
            |d.txs| == |read.txs| + 1 && d.txs[|read.txs|].fate.Applied?
  {
    OneEvent(Deliver(read, read.accountSeq + 1, ops), Close(|read.txs|, true));
  }

  /** The lifecycle behind `LandedInstead` reports the same from the same read. */
  lemma LandedLifecycle(c: Chain, ops: seq<Operation>, a: Attempt)
    requires var r := SubmitTransaction(c, ops, a).report; r.SendFailed? || r.Unconfirmed?
    ensures var s := SubmitTransaction(c, ops, a);
            var tx := |s.atRead.txs|;
            var twin := SubmitTransaction(c, ops, LandedInstead(a, tx));
            && twin.atRead == s.atRead && twin.report == s.report
            && (s.report.SendFailed? ==> twin.chain.applied == s.atRead.applied + [ops])
            && (s.report.Unconfirmed? ==> s.report.tx == tx && twin.chain == Deliver(s.atRead, s.atRead.accountSeq + 1, ops))
  {
    var read := AdvanceAll(c, a.wait);
    var sent := Deliver(read, read.accountSeq + 1, ops);
    AdvanceKeepsLength(read, a.signing);
    DeliveredCanLand(read, ops);
    assert AdvanceAll(read, []) == read && AdvanceAll(sent, []) == sent;
    hide AdvanceAll;
  }

  /** The lifecycle behind `ConfirmedInstead` succeeds from the same read. */
  lemma ConfirmedLifecycle(c: Chain, ops: seq<Operation>, a: Attempt)
    ensures var read := AdvanceAll(c, a.wait);
            var s := SubmitTransaction(c, ops, ConfirmedInstead(a, |read.txs|));
            s.report.Success? && s.atRead == read && s.chain.applied == read.applied + [ops]
  {
    var read := AdvanceAll(c, a.wait);
    assert AdvanceAll(read, []) == read;
    DeliveredCanLand(read, ops);
  }

  lemma TwiceIsNotOnce(c: Chain, ops: seq<Operation>)
    requires |c.applied| >= 2
    ensures !AtMostOnce(c, ops)
  {
    assert AdvanceAll(c, []) == c;
  }
}
