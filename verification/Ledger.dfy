/**
  The part of a Stellar ledger that one SDK submission can influence or observe.

  A transaction carries the sequence number its sender read plus one, and the
  ledger closes it only while that number is exactly one above the account's
  current number.  Closing, applied or reverted, consumes the number.  Everything
  the SDK cannot see or schedule (other submitters on the same account, ledger
  closes, time bounds running out) is an `Event`; an event that is not enabled
  changes nothing, so every sequence of events is a possible environment.
*/
module Ledger {
  datatype Operation = CancelOrder(order: string) | CreateOrder(order: string) | Invoke(name: string)

  datatype Fate = InFlight | Applied | Reverted | Expired

  datatype Tx = Tx(seqNum: nat, ops: seq<Operation>, fate: Fate)

  /** `applied` lists the operation lists that took effect, one entry per applied transaction. */
  datatype Chain = Chain(accountSeq: nat, txs: seq<Tx>, applied: seq<seq<Operation>>)

  datatype Event =
    | ForeignTx                        // another transaction of the account closes
    | Close(index: nat, ok: bool)      // one of ours closes: applied or reverted
    | Expire(index: nat)               // one of ours runs past its time bounds

  predicate Live(c: Chain, i: nat) {
    i < |c.txs| && c.txs[i].fate.InFlight? && c.accountSeq < c.txs[i].seqNum
  }

  /** No transaction sent so far can still be applied. */
  ghost predicate Quiet(c: Chain) {
    forall i: nat :: i < |c.txs| ==> !Live(c, i)
  }

  function Advance(c: Chain, e: Event): Chain {
    match e
    case ForeignTx => c.(accountSeq := c.accountSeq + 1)
    case Close(i, ok) =>
      if i < |c.txs| && c.txs[i].fate.InFlight? && c.txs[i].seqNum == c.accountSeq + 1 then
        var tx := c.txs[i];
        Chain(c.accountSeq + 1,
              c.txs[i := tx.(fate := if ok then Applied else Reverted)],
              if ok then c.applied + [tx.ops] else c.applied)
      else c
    case Expire(i) =>
      if i < |c.txs| && c.txs[i].fate.InFlight? then c.(txs := c.txs[i := c.txs[i].(fate := Expired)]) else c
  }

  function AdvanceAll(c: Chain, es: seq<Event>): Chain
    decreases |es|
  {
    if es == [] then c else AdvanceAll(Advance(c, es[0]), es[1..])
  }

  /**
    What holds of a chain on which every transaction carries `ops` and was
    numbered from a sequence number that had really been read.
  */
  ghost predicate Consistent(c: Chain, ops: seq<Operation>) {
    && (forall i :: 0 <= i < |c.txs| ==> c.txs[i].seqNum <= c.accountSeq + 1 && c.txs[i].ops == ops)
    && (forall i :: 0 <= i < |c.txs| ==> c.txs[i].fate.Applied? ==> c.applied != [])
    && (c.applied != [] ==> exists i :: 0 <= i < |c.txs| && c.txs[i].fate.Applied?)
    && (forall k :: 0 <= k < |c.applied| ==> c.applied[k] == ops)
  }

  /** The first `n` transactions neither took effect nor ever can. */
  ghost predicate DeadUpTo(c: Chain, n: nat) {
    n <= |c.txs| && forall i: nat :: i < n ==> !c.txs[i].fate.Applied? && !Live(c, i)
  }

  /** From here on, whatever the environment does, exactly `effects` is the effect list. */
  ghost predicate Forever(c: Chain, effects: seq<seq<Operation>>) {
    forall es :: AdvanceAll(c, es).applied == effects
  }

  /** From here on, whatever the environment does, `ops` takes effect at most once, and as a whole. */
  ghost predicate AtMostOnce(c: Chain, ops: seq<Operation>) {
    forall es :: AdvanceAll(c, es).applied == [] || AdvanceAll(c, es).applied == [ops]
  }

  /** A close, applied or reverted, and a foreign transaction each consume one number; running out of time consumes none. */
  lemma AdvanceExactly(c: Chain, i: nat, ok: bool)
    requires i < |c.txs| && c.txs[i].fate.InFlight?
    ensures var d := Advance(c, Close(i, ok));
            if c.txs[i].seqNum == c.accountSeq + 1 then
              && d.accountSeq == c.accountSeq + 1 && d.txs == c.txs[i := Tx(c.txs[i].seqNum, c.txs[i].ops, if ok then Applied else Reverted)]
              && d.applied == c.applied + if ok then [c.txs[i].ops] else []
            else d == c
    ensures Advance(c, ForeignTx) == Chain(c.accountSeq + 1, c.txs, c.applied)
    ensures Advance(c, Expire(i)) == Chain(c.accountSeq, c.txs[i := Tx(c.txs[i].seqNum, c.txs[i].ops, Expired)], c.applied)
  {
  }

  lemma AdvanceStep(c: Chain, ops: seq<Operation>, e: Event)
    requires Consistent(c, ops)
    ensures var d := Advance(c, e);
            && Consistent(d, ops)
            && |d.txs| == |c.txs|
            && (d.applied == c.applied || (d.applied == c.applied + [ops] && !Quiet(c) && Quiet(d)))
            && (Quiet(c) ==> Quiet(d))
            && (forall i :: 0 <= i < |c.txs| && !c.txs[i].fate.InFlight? ==> d.txs[i] == c.txs[i])
            && (forall n: nat :: DeadUpTo(c, n) ==> DeadUpTo(d, n))
  {
    var d := Advance(c, e);
    if d.applied != c.applied {
      assert e.Close? && Live(c, e.index);
      assert d.txs[e.index].fate.Applied?;
    } else if c.applied != [] {
      var i :| 0 <= i < |c.txs| && c.txs[i].fate.Applied?;
      assert d.txs[i] == c.txs[i];
    }
    forall i: nat | i < |c.txs| && Live(d, i) ensures Live(c, i) {}
  }

  /**
    Sequence numbers shield a submission: from any consistent chain the whole
    future adds at most one effect, and none at all once the chain is quiet.
  */
  lemma {:induction false} AdvanceMany(c: Chain, ops: seq<Operation>, es: seq<Event>)
    requires Consistent(c, ops)
    ensures var d := AdvanceAll(c, es);
            && Consistent(d, ops)
            && |d.txs| == |c.txs|
            && (d.applied == c.applied || (d.applied == c.applied + [ops] && !Quiet(c) && Quiet(d)))
            && (Quiet(c) ==> Quiet(d))
            && (forall i :: 0 <= i < |c.txs| && !c.txs[i].fate.InFlight? ==> d.txs[i] == c.txs[i])
            && (forall n: nat :: DeadUpTo(c, n) ==> DeadUpTo(d, n))
    decreases |es|
  {
    if es != [] {
      AdvanceStep(c, ops, es[0]);
      AdvanceMany(Advance(c, es[0]), ops, es[1..]);
    }
  }

  /** The exact condition under which no future can apply `ops` twice. */
  lemma AtMostOnceExactly(c: Chain, ops: seq<Operation>)
    requires Consistent(c, ops)
    ensures AtMostOnce(c, ops) <==> c.applied == [] || (|c.applied| == 1 && Quiet(c))
  {
    if c.applied == [] || (|c.applied| == 1 && Quiet(c)) {
      forall es ensures AdvanceAll(c, es).applied == [] || AdvanceAll(c, es).applied == [ops] {
        AdvanceMany(c, ops, es);
        assert c.applied == [] ==> c.applied + [ops] == [ops];
        assert |c.applied| == 1 ==> c.applied == [c.applied[0]] == [ops];
      }
    } else {
      assert AdvanceAll(c, []) == c;
      if |c.applied| == 1 {
        var i: nat :| i < |c.txs| && Live(c, i);
        var e := Close(i, true);
        assert AdvanceAll(c, [e]) == AdvanceAll(Advance(c, e), []) == Advance(c, e);
        assert |AdvanceAll(c, [e]).applied| == 2;
      }
    }
  }

  /** Exactly the quiet chains never change their effects again. */
  lemma QuietIsForever(c: Chain, ops: seq<Operation>)
    requires Consistent(c, ops)
    ensures Forever(c, c.applied) <==> Quiet(c)
  {
    if Quiet(c) {
      forall es ensures AdvanceAll(c, es).applied == c.applied {
        AdvanceMany(c, ops, es);
      }
    } else {
      var i: nat :| i < |c.txs| && Live(c, i);
      var e := Close(i, true);
      assert AdvanceAll(c, [e]) == AdvanceAll(Advance(c, e), []) == Advance(c, e);
      assert |AdvanceAll(c, [e]).applied| == |c.applied| + 1;
    }
  }
}
