# Verified models of the CoralSwap SDK's stateful cores

The CoralSwap SDK is mostly plumbing around Soroban RPC calls, but several small
parts of it carry real obligations: a transaction that moves escrowed funds must
not take effect twice, an oracle must keep enough history, an event watcher must
not drop or repeat events, an alert must fire when it should.  This project models
those parts in Dafny and proves what they guarantee, for every environment and
every run.  The ledger, the clock, the RPC and the callers are inputs.

Where the code does not do what its own comments say, the model follows the code,
a lemma exhibits the failing run, and another states exactly when the promise holds.

## Modules

| file | contents |
|---|---|
| `Ledger.dfy` | account sequence numbers, transactions in flight, and why one number can take effect once |
| `TransactionLifecycle.dfy` | one submission against the ledger, the retry decision, and what the SDK gets to see |
| `OrderSubmission.dfy` | limit-order resubmission with up to three attempts |
| `TwoAttemptSubmission.dfy` | the RWA/Blend protocol with one unchecked resubmission |
| `SubmissionQueue.dfy` | the client's promise-chain queue and the bot's FIFO lock, under arbitrary interleavings |
| `TwapOracle.dfy`, `TwapBounds.dfy` | the observation cache with its two pruning passes; what a TWAP means |
| `PriceAlerts.dfy`, `OverlappingPriceChecks.dfy` | threshold alerts with hysteresis; overlapping passes and deletions |
| `AlertRules.dfy` | alert rules with asynchronous evaluation |
| `ImpermanentLoss.dfy`, `IntegerSqrt.dfy` | the loss formula and the Newton square root |
| `QuotaLimiter.dfy` | the bot's sliding-window limiter |
| `PoolShares.dfy` | liquidity quotes, position claims, conservation of reserves |
| `FeeRevenue.dfy` | fee aggregation and sorting |
| `PoolWatcher.dfy`, `OverlappingPolls.dfy` | event polling; polls in flight together |
| `PairCache.dfy`, `InFlightLookups.dfy` | the pair-address cache; lookups waiting for the registry |
| `PositionPages.dfy` | cursor paging |
| `FloorDivision.dfy`, `Wrappers.dfy` | arithmetic facts, `Option` and distinctness |

`dafny verify dfyconfig.toml` checks everything.

## Assumptions about the environment

- Submission.  An RPC answer that arrives is honest, so it is read off the ledger
  model; which answers fail to arrive is the environment's choice.  The
  contract-level check `landed()` is truthful whenever it answers.  "NOT_FOUND is
  authoritative" (src/modules/limit-orders.ts:1085), together with a negative
  contract check being so, is the predicate `RefutationsAreFinal`; each theorem that
  needs it names it.  Nothing is assumed about failed sends: a refused or lost one
  may have reached the network.
- Oracle.  Timestamps in one pair's history do not decrease.
- Quota.  The clock does not run backwards and at least one permit per window is
  configured before a wait is asked for (`readConfig` in
  examples/serialized-submission-bot.ts:331-351 falls back to 4 otherwise; with a
  maximum of zero the source computes a wait of NaN).
- Pool watching.  The RPC answers with the first page of the visible events that pass
  the request's filter, from the start ledger on, in ledger order, and ledgers are
  numbered from 1.  Which events are visible, and what the current ledger is said to
  be, is the environment's choice.
- Liquidity.  What is proved of deposits followed by claims takes the pair to mint
  exactly the quoted `estimatedLPTokens`.  Minting happens on chain and is not part
  of this model.

## Findings

- A TRANSACTION_ERROR of a limit-order submission says that nothing took or will
  take effect exactly when the last attempt was never sent, its status was FAILED or
  NOT_FOUND, or the contract check denied it (`TransactionErrorIsTruthfulExactly`).
  Otherwise a ledger behaviour that shows the SDK the same answers has applied the
  operations.  Two ways to get there:
  - A status query that answers ERROR.  The comment at
    src/modules/limit-orders.ts:1086-1089 expects `shouldRetrySubmission` to allow a
    retry on ERROR and the contract-level check to decide; the helper's default
    policy is `block` (src/utils/idempotent-resubmission.ts:95-122), so that code is
    never reached (`StatusErrorHidesALandedOrder`).  The comment at src/rwa.ts:262-263
    has the same misunderstanding; there the effect is that ERROR never resubmits.
  - A send that is retried or moved to another endpoint (src/client.ts:75-127,
    src/utils/retry.ts:166-212) after its first try was applied.  The network answers
    the second ERROR, the client reports a failure without a hash
    (src/client.ts:591-607), and src/modules/limit-orders.ts:1043 throws although the
    comment above it says such a transaction never reached the network
    (`RefusedResendHidesALandedOrder`).
- For RWA and Blend the error is truthful only if the last attempt was never sent or
  its status was FAILED: any failure without a hash is thrown at once
  (src/rwa.ts:277-281), and the second attempt's failure is not looked up at all.
- NOT_FOUND only has to hold until the next sequence read.  From then on the shared
  sequence number prevents a double effect by itself.  In between, during the retry
  pause, a late landing doubles the effect; so does one under an earlier attempt's
  hash, because only the newest hash is looked up.  Reads that find nothing landed are
  exactly what is needed (`CleanReadsAreExactlyWhatIsNeeded`).
- The bot's lock is wedged for good by a callback that throws before it returns a
  promise; the client's queue cannot be wedged.
- Polling a pair whose on-chain timestamp does not move 500 times always destroys
  its TWAP, against the guarantee documented at src/modules/oracle.ts:18-23.
- A threshold alert misses every crossing that follows two or more observations on
  the far side, including its first one.
- Two overlapping `evaluateAll` calls can fire a once-only rule twice, and a rule
  cleaned up while its metric is fetched comes back, possibly as rule 51.  Any other
  change made to a rule meanwhile (a pause, an update, an archiving) is silently
  undone by the write-back.
- The quote floors token B and LP tokens separately.  When the LP tokens are floored
  less, in proportion, minting the quoted number lowers earlier holders' token-B
  claims; `Dilutes` is the exact condition on the inputs.
- A `watchPool` poll loses events exactly when a swap, mint or burn follows in the
  ledger at which its loop ends (a full page, a throwing callback or a late RPC cut it
  there), or when it is the first to see anything and events lie before its look-back
  window in what earlier polls had requested in vain.  Polls in flight together deliver
  events twice exactly when their pages have one in common.
- Two overlapping `checkThresholdPriceAlerts` calls make an alert forget a price it was
  shown, and an alert deleted while its price is fetched comes back.
- The client's queue keeps callers on different sequence numbers exactly as long as
  every lifecycle settles only once its transaction is final: after a lost confirmation
  the next caller, waiting or still to come, can read the same number.
- A pair lookup that is waiting for the registry while its address is invalidated
  stores the old address again, exactly if it had read it before.  Invalidating by a new pair's address does not drop
  the cached null from before its creation, though src/modules/factory.ts:248-249
  recommends an invalidation at that point; only clearing everything does.

## Model

| member | source | states |
|---|---|---|
| `OrderSubmission.SubmitWithIdempotentResubmission` | src/modules/limit-orders.ts:1023-1066 | The retry loop computes the protocol the theorems are about, in at most three submissions, and is decided by its sightings: a hash is looked up, a retryable failure without one is put to the contract, the loop goes on after exactly the refuted attempts while any are left, and the last sighting gives the ending. |
| `OrderSubmission.RunIsDecidedBySightings` | src/modules/limit-orders.ts:1026-1094 | The same for every error policy and from every attempt on; so a run is given up early only on an established or unresolvable outcome. |
| `OrderSubmission.AnswersAreReadOffTheChain` | src/modules/limit-orders.ts:1072-1094 | What a turn looks up is true of the chain the turn leaves, and looking up is all that happens after the client's report. |
| `OrderSubmission.ResubmissionTakesEffectAtMostOnce` | src/modules/limit-orders.ts:1007-1066 | Whatever the ledger and RPC do, now and later, the operations take effect at most once and as a whole, provided an attempt ruled not landed has still not landed at the next sequence read; a normal return means exactly one effect. |
| `OrderSubmission.CleanReadsAreExactlyWhatIsNeeded` | src/modules/limit-orders.ts:1023-1062 | A run finds nothing landed at any sequence read if and only if no environment that agrees with it up to one of those reads, and ends with that attempt, can take effect twice. |
| `OrderSubmission.ConclusiveErrorMeansNoEffect` | src/modules/limit-orders.ts:1023-1094 | With authoritative negative verdicts no read ever finds the operation landed, and a TRANSACTION_ERROR whose last sighting is conclusive (never sent, FAILED, NOT_FOUND, or denied by the contract check) means no effect now or later. |
| `OrderSubmission.TransactionErrorIsTruthfulExactly` | src/modules/limit-orders.ts:1041-1062 | A TRANSACTION_ERROR means no effect in every ledger behaviour that shows the SDK the same reports, statuses and checks, if and only if the last sighting is conclusive. |
| `OrderSubmission.LimitOrderSubmission` | src/modules/limit-orders.ts:956-978 | All of it together for a composed cancel-and-replace or any other operation list, under the policy in force: at most three submissions, all or nothing, at most once, exactly once on a normal return, and TRANSACTION_ERROR truthful exactly when the last sighting is conclusive. |
| `OrderSubmission.StatusErrorHidesALandedOrder` | src/modules/limit-orders.ts:1077-1093 | A run in which the shipped policy throws TRANSACTION_ERROR although both operations took effect, and the policy the comment describes would have recovered it. |
| `OrderSubmission.RefusedResendHidesALandedOrder` | src/modules/limit-orders.ts:1041-1048 | A run in which the send was applied, its retry was answered ERROR, and the hash-less failure is thrown as TRANSACTION_ERROR. |
| `OrderSubmission.LandingInTheRetryPauseDoublesTheEffect` | src/modules/limit-orders.ts:1050-1061 | A landing between the NOT_FOUND verdict and the next sequence read applies the operations twice. |
| `OrderSubmission.LandingUnderAnOldHashDoublesTheEffect` | src/modules/limit-orders.ts:1077-1085 | Even a final NOT_FOUND for the newest hash does not exclude a landing under an earlier one. |
| `TwoAttemptSubmission.AtMostTwoSubmissions` | src/rwa.ts:265-307 | At most two submissions, the second exactly after an honest NOT_FOUND; at most one effect ever if the second read finds nothing landed, which an authoritative NOT_FOUND guarantees, and then exactly one on a normal return. src/modules/blend.ts:55-107 has the same shape. |
| `TwoAttemptSubmission.RunIsDecidedBySightings` | src/rwa.ts:271-306 | A first failure is looked up exactly if it has a hash, retryable or not; a second attempt follows exactly NOT_FOUND; the ending is what the last report or status says. |
| `TwoAttemptSubmission.AnswersAreReadOffTheChain` | src/rwa.ts:283-298 | The status is that of the first transaction on the chain it left, and the second attempt starts from there. |
| `TwoAttemptSubmission.CleanReadsAreExactlyWhatIsNeeded` | src/rwa.ts:265-307 | A run finds nothing landed at its sequence reads if and only if no environment that agrees with it up to one of them, and ends with that attempt, can take effect twice. |
| `TwoAttemptSubmission.TransactionErrorIsTruthfulExactly` | src/rwa.ts:277-304 | A TransactionError means no effect in every ledger behaviour with the same sightings, if and only if the last attempt was never sent or its status was FAILED. |
| `TwoAttemptSubmission.RetryErrorHidesAnEffect` | src/rwa.ts:296-303 | The second attempt's failure is thrown unchecked, so the error can hide an effect. |
| `TransactionLifecycle.LifecycleStep` | src/client.ts:514-633 | One lifecycle, whether its send is accepted, refused or lost, adds at most one transaction numbered from the sequence it read; if nothing had landed at that read, at most one effect exists when it ends; a reported success is an effect; a failure before sending adds nothing. |
| `TransactionLifecycle.LifecycleReports` | src/client.ts:514-633 | Exactly when a transaction is sent, with the number after the one read and the given operations, and exactly which result is reported when; confirmed means accepted, applied and seen. |
| `SubmissionQueue.LifecyclesAreSerialised` | src/client.ts:494-511 | In every interleaving lifecycles start in call order, at most one is active, and each starts only after all earlier ones settled and were released. |
| `SubmissionQueue.WaitingCallCanStartExactly` | examples/serialized-submission-bot.ts:58-78 | A waiting call can still be started if and only if the chain is not wedged, and only the bot's lock is ever wedged, exactly when the last started callback threw before returning a promise; a rejection never wedges it. |
| `SubmissionQueue.UndisturbedLifecycle` | src/client.ts:498-511 | An undisturbed lifecycle on an idle chain uses and consumes exactly the account's next number and lets the next call start. |
| `SubmissionQueue.SequenceNumbersStrictlyIncrease` | src/client.ts:498-511 | If every transaction is final before its lifecycle settles, the numbers used strictly increase in call order and, without foreign transactions, are still current when sent. |
| `SubmissionQueue.NumbersAreUniqueExactly` | src/client.ts:498-511 | Every state of a run is safe (callers keep using increasing numbers as long as later lifecycles settle finally) if and only if each lifecycle of the run settled only once its transaction could no longer wait for its number. |
| `SubmissionQueue.UnfinishedTransactionSharesItsNumber` | src/client.ts:498-511 | After any early settlement the next caller, already waiting or not, reads the same number. |
| `TwapOracle.OracleModule.Observe` | src/modules/oracle.ts:107-153 | After any run each pair's cache is what the two pruning passes keep of that pair's history since its last clear; other pairs are untouched. |
| `TwapOracle.OracleModule.GetTWAP` | src/modules/oracle.ts:225-270 | Observes first; with nondecreasing timestamps it answers, enforced or not, exactly if the retained window is longer than zero (and at least 300 s when enforced), with its two ends and the truncated quotients of both accumulated differences by its length. |
| `TwapOracle.ComputeTwapExactly` | src/modules/oracle.ts:171-210 | The two refusals exactly when they are due, and otherwise the truncated quotients. |
| `TwapOracle.OracleModule.ClearCache` | src/modules/oracle.ts:389-395 | Forgets one pair's history, or all when the address is absent or empty. |
| `TwapOracle.CacheIsTheRecentSuffix` | src/modules/oracle.ts:121-150 | For every history with nondecreasing timestamps the incrementally pruned cache equals a one-shot definition: the suffix of observations younger than 300 s plus one more, cut at 500. |
| `TwapOracle.CacheBounds` | src/modules/oracle.ts:11-35 | The cache is a nonempty suffix ending at the newest observation, of at most 500 entries, and all but its first lie within 300 s of the newest. |
| `TwapOracle.TwapAvailableExactly` | src/modules/oracle.ts:225-250 | A TWAP is available if and only if the history spans 300 s and fewer than 500 observations are younger than 300 s. |
| `TwapOracle.StrictTimestampsKeepCoverage` | src/modules/oracle.ts:15-23 | With strictly increasing timestamps at most 301 entries are kept, and spanning 300 s is enough. |
| `TwapOracle.UnchangedPairLosesItsTwap` | src/modules/oracle.ts:18-33 | Whatever was observed before, 500 observations of an unchanged pair leave no TWAP. |
| `TwapBounds.TwapLiesBetweenPricesInForce` | src/modules/oracle.ts:171-210 | Over any run with honest accumulators the TWAP uses the newest and one older reading, spans at least 300 s when enforced, and lies between any bounds on the prices in force in that window. |
| `TwapBounds.SpikeMovesTwapLittle` | src/modules/oracle.ts:6-11 | Of two runs observed at the same times, one with distorted prices, both or neither get an enforced TWAP; with prices capped at `cap` and distorted in d seconds of the window the two answers differ by at most d * cap / 300 + 1, in both prices and both directions. |
| `PriceAlerts.FiresExactly` | src/modules/alerts.ts:1224-1284 | For every price stream the hysteresis machine fires on exactly the target-side prices that come first, or follow a strictly-other-side price that was second or itself preceded by a target-side price. |
| `PriceAlerts.FiringsAreSeparated` | src/modules/alerts.ts:974-976 | Between two triggerings the machine always sees a price strictly on the other side. |
| `PriceAlerts.CrossingIsMissedExactly` | src/modules/alerts.ts:1037-1043 | A crossing goes unreported if and only if the two observations before it were both on the other side. |
| `PriceAlerts.FirstCrossingMissed` | src/modules/alerts.ts:1068-1081 | A concrete alert that never reports its first crossing. |
| `PriceAlerts.PassFollowsHistories` | src/modules/alerts.ts:1044-1105 | One pass over any set of alerts, with any fetches failing, keeps every alert's fields equal to the memory of the prices it saw, and reports exactly by the firing condition. |
| `PriceAlerts.AlertModule.CheckThresholdPriceAlerts` | src/modules/alerts.ts:1044-1105 | The loop performs exactly that pass and returns exactly the alerts it reports, once each and in insertion order. |
| `PriceAlerts.ReportedInOrder` | src/modules/alerts.ts:1047-1069 | The reported ids are those of the reporting alerts, one each, in the order visited. |
| `PriceAlerts.AlertModule.CreateThresholdPriceAlert` | src/modules/alerts.ts:985-1023 | Rejects a non-positive target without change; otherwise adds an alert that has seen no price. |
| `OverlappingPriceChecks.AlertsStayFaithfulExactly` | src/modules/alerts.ts:1047-1115 | Every state of a run is safe (with separate checks and deletions from then on each alert remembers exactly the prices fetched for it, and deleted alerts stay deleted) if and only if no check of an alert began, and no alert was deleted, while a check of it was in flight. |
| `AlertRules.RulesKeepTheirPromises` | src/modules/alerts.ts:209-230 | If no evaluation starts while one of the same rule is in flight, a once-only rule fires only if it never fired, and successive firings of an interval rule are at least the cooldown in force apart, whatever is paused, updated, archived, cleaned up or created meanwhile. |
| `AlertRules.PromisesAreKeptExactly` | src/modules/alerts.ts:209-230 | Every state of a run of a new module is safe (no continuation with separate evaluations breaks a promise) if and only if each evaluation started when none of the same rule was in flight, or each of the two had read the rule as already fired no earlier than the other's second. |
| `AlertRules.RuleLimitHoldsExactly` | src/modules/alerts.ts:131-236 | There are never more than 50 rules if and only if no evaluation finishes for a rule that is gone while the set is full. |
| `AlertRules.ChangeDuringEvaluationIsUndone` | src/modules/alerts.ts:217-227 | Whatever else has happened, a pause, update, acknowledgement, resolution or archiving of a rule with an evaluation in flight makes no difference once that evaluation finishes. |
| `AlertRules.EvaluateAll` | src/modules/alerts.ts:206-230 | An undisturbed pass fires exactly the due rules whose value meets their condition, records them, and leaves every other field of every rule as it was; it is a run of the steps the theorems are about. |
| `AlertRules.FiresFromTheThresholdOn` | src/modules/alerts.ts:277-284 | A due rule fires at its threshold, not one unit short of it, and with a value at every value further on its condition's side. |
| `AlertRules.DueExactly` | src/modules/alerts.ts:213-217 | A paused, archived, resolved or disabled rule is never due; a once-only rule is while it has not fired, an interval rule before its first firing and again from exactly its cooldown after the last, any other always. |
| `AlertRules.FiredInOrder` | src/modules/alerts.ts:212-229 | The fired ids are those of the firing rules, one each, in iteration order. |
| `AlertRules.SilentRulesStaySilent` | src/modules/alerts.ts:176-184 | A rule paused, archived or resolved with no evaluation of it in flight does not fire again, whatever else happens, before it is updated or resumed. |
| `AlertRules.CreateExactly` | src/modules/alerts.ts:131-150 | A rule is created only below 50 rules and with a positive threshold, active, never fired, by default at intervals of 900 s; otherwise nothing changes. |
| `AlertRules.StatusChangesExactly` | src/modules/alerts.ts:158-184 | Acknowledging needs a fired rule; each status change touches only that rule's status. |
| `AlertRules.OverlapFiresTwice` | src/modules/alerts.ts:217-227 | Two overlapping evaluations fire any due once-only rule twice. |
| `AlertRules.OverlapExceedsTheLimit` | src/modules/alerts.ts:132-134 | From any full rule set, archiving, cleaning up and replacing a rule during its evaluation leaves 51 rules. |
| `IntegerSqrt.Sqrt` | src/modules/liquidity.ts:530-540 | Newton's loop terminates with the floor square root of every natural number (the same loop as src/modules/alerts.ts:914-924). |
| `ImpermanentLoss.ComputeImpermanentLossBps` | src/modules/alerts.ts:859-871 | The formula with the Newton root equals the one with the reference root. |
| `ImpermanentLoss.LossRangeAndZero` | src/modules/alerts.ts:859-871 | The loss lies in 0..10000, is 0 exactly at an unchanged price (or a rejected ratio), and the clamp is reached only there. |
| `ImpermanentLoss.LossIsNeverUnderstated` | src/modules/alerts.ts:862-869 | The fraction reported as left is at most the exact one, compared by squares. |
| `ImpermanentLoss.LossIsExactUpToRounding` | src/modules/alerts.ts:862-870 | The reported loss itself, from both sides: what it leaves is at most the exact fraction, and one basis point and one unit of the root more would exceed it. |
| `ImpermanentLoss.LossGrowsAwayFromOne` | src/modules/alerts.ts:859-871 | On either side of an unchanged price, moving further away never lowers the loss by more than 1 bps. |
| `ImpermanentLoss.LossIsNotExactlyMonotone` | src/modules/alerts.ts:862-869 | A ratio at which the loss does drop by 1 bps. |
| `QuotaLimiter.QuotaLimiter.TryAcquire` | examples/serialized-submission-bot.ts:107-112 | A permit is granted if and only if the window ending now holds fewer grants than the maximum, which is when the maximum-th last grant, if any, is at least the window old. |
| `QuotaLimiter.QuotaLimiter.QuotaHolds` | examples/serialized-submission-bot.ts:80-95 | After any calls, no window of any position holds more than the maximum. |
| `QuotaLimiter.QuotaLimiter.WaitMsUntilNext` | examples/serialized-submission-bot.ts:115-119 | The wait is exact: every earlier attempt would be refused and one at its end granted, if nothing else acquires. |
| `PoolShares.FirstProviderEstimate` | src/modules/liquidity.ts:199-210 | The first provider's estimate is exactly the desired amount less the locked minimum. |
| `PoolShares.UnsuppliedPoolEstimate` | src/modules/liquidity.ts:216-222 | An empty reserve A is the only refusal; with reserves and no supply the estimate is the floored geometric mean of the two amounts less 1000. |
| `PoolShares.QuoteBounds` | src/modules/liquidity.ts:216-226 | The quoted token B and LP amounts are the largest whole amounts in proportion, and within one unit of each other's proportion. |
| `PoolShares.AddThenClaimNeverGains` | src/modules/liquidity.ts:216-226 | Depositing a quote and claiming the quoted LP tokens never returns more of either token than was deposited, and loses at most one unit plus one LP token's worth. |
| `PoolShares.DepositAndEarlierHolders` | src/modules/liquidity.ts:216-226 | About the quote arithmetic, if the pair mints the quoted LP tokens: no earlier holder of any balance loses token A, and none loses token B if and only if (a * reserveB % reserveA) * supply <= (a * supply % reserveA) * reserveB. |
| `PoolShares.DepositCanDiluteTokenB` | src/modules/liquidity.ts:216-222 | A pool and a quote for which that condition fails. |
| `PoolShares.ClaimsConserveTheReserve` | src/modules/positions.ts:86-89 | Floored claims of holders with at most the supply never exceed the reserve; with exactly the supply the dust is less than one unit per holder. |
| `FeeRevenue.GetFeeRevenue` | src/modules/fees.ts:240-282 | The total equals the sum of the history and of the per-token list; the history is the counted swaps in order; each token of the history is listed once with what it earned, largest first and ties by token. |
| `FeeRevenue.HistoryIs` | src/modules/fees.ts:244-268 | The history has one row for each swap up to the last ledger with a fee of at least one stroop, in event order, with the swap's own ledger, token and rate and its fee rounded down. |
| `FeeRevenue.FlooringLoss` | src/modules/fees.ts:244-256 | The total falls short of the exact fee by at most 9999/10000 stroop per in-window swap. |
| `PoolWatcher.Watcher.DoPoll` | src/modules/factory.ts:337-396 | One poll delivers exactly the swaps, mints and burns its loop reaches: visible, from the ledger after the highest seen one (or 100 before the current one) up to the current ledger, among the first 200 asked for, and before any whose callback throws; the mark covers what was reached and no more. |
| `PoolWatcher.FirstPollLooksBack` | src/modules/factory.ts:343-345 | A new watcher's undisturbed first poll delivers exactly the events of the last 100 ledgers, if they are at most 200. |
| `PoolWatcher.NothingTwiceNothingLate` | src/modules/factory.ts:345-381 | However polls fail, pages cut or callbacks throw, deliveries are in order and without repetition, and an event once passed over is never delivered. |
| `PoolWatcher.EveryEventExactlyOnce` | src/modules/factory.ts:311-371 | Over any polls the callback gets only swap, mint and burn events from the first requested to the highest seen ledger, in order and without repetition; it gets all of them if and only if at every poll no such event follows in the ledger at which the loop ended, and the first poll to see anything left none before its start. |
| `PoolWatcher.RestOfLedgerIsLost` | src/modules/factory.ts:345-371 | Whatever of a ledger comes after the end of a poll's loop is never delivered by any later polls. |
| `OverlappingPolls.UndisturbedPoll` | src/modules/factory.ts:337-396 | A poll that begins and ends undisturbed is one poll of the sequential model. |
| `OverlappingPolls.UnsubscribedIsSilent` | src/modules/factory.ts:364-405 | After the unsubscription nothing is delivered, not even from polls in flight. |
| `OverlappingPolls.NoRepetitionExactly` | src/modules/factory.ts:337-402 | Every state of a run of overlapping polls is safe (no continuation with separate polls delivers an event twice) if and only if each poll began when its page had no swap, mint or burn in common with the page of a poll in flight. |
| `OverlappingPolls.OverlappingPollsDeliverTwice` | src/modules/factory.ts:398-400 | If the timer fires while a poll waits, an event both can see is delivered twice once both are answered in full. |
| `PoolWatcher.CutLedgerIsLost` | src/modules/factory.ts:341-371 | The swap, mint or burn event at which a page cuts a ledger is never delivered by any later polls. |
| `PoolWatcher.ThrowLosesItsLedger` | src/modules/factory.ts:391-395 | An event of the same ledger after one whose callback throws is never delivered by any later polls. |
| `PairCache.FactoryModule.BeginLookup` | src/modules/factory.ts:123-137 | A hit, found or null, is the newest stored answer for the sorted pair and less than the TTL old; a cached entry that has not expired is used unless bypassed; identical tokens throw. |
| `PairCache.FactoryModule.FinishLookup` | src/modules/factory.ts:139-145 | The registry's answer becomes the newest one for its key, with a fresh expiry. |
| `PairCache.FactoryModule.InvalidateCache` | src/modules/factory.ts:261-273 | Performs the invalidation step the run theorems are about, and keeps every remaining entry the newest answer for its pair. |
| `PairCache.InvalidationLastsExactly` | src/modules/factory.ts:138-144 | After an address is invalidated no entry resolves to it, and this lasts through any later answers, preloads and invalidations exactly as long as none of them leaves that address as its newest answer for some pair. |
| `PairCache.LookupInFlightRestoresInvalidated` | src/modules/factory.ts:138-144 | A lookup waiting for the registry during the invalidation stores the address again, and lookups in either token order answer it for the whole TTL. |
| `PairCache.CachedNullSurvivesInvalidation` | src/modules/factory.ts:261-273 | After an invalidation a cached null is still answered if and only if it was before and an address was given. |
| `InFlightLookups.InvalidationIsFinalExactly` | src/modules/factory.ts:123-145 | After any run of lookups, registry changes, invalidations and preloads, once the registry no longer holds an address and it is invalidated, no later lookup is answered with it from the cache (unless it is registered or preloaded again) if and only if no waiting lookup had read it. |
| `InFlightLookups.UndisturbedLookup` | src/modules/factory.ts:123-145 | An undisturbed lookup that misses stores what the registry holds for the sorted pair; one that hits or fails changes nothing. |
| `PairCache.FactoryModule.PreLoadPairs` | src/modules/factory.ts:284-292 | Stores the pairs in order, the last one winning under each key, up to the first with identical tokens, where it throws. |
| `PairCache.AnswerIsFound` | src/modules/factory.ts:123-145 | A stored answer is found under both token orders for exactly the TTL, and touches no other pair. |
| `PairCache.PreloadedPairsAreFound` | src/modules/factory.ts:284-292 | After a preload each pair is found under both token orders at the last address given for it; other pairs are as before. |
| `PairCache.InvalidationExactly` | src/modules/factory.ts:261-273 | An invalidation by address keeps exactly the hits on other addresses; a full one keeps none. |
| `PairCache.SortTokensIsSymmetric` | src/utils/addresses.ts:162-165 | Lookups do not depend on the order of the two tokens. |
| `PairCache.SortTokensExactly` | src/utils/addresses.ts:162-165 | The smaller token comes first; exactly identical tokens are refused. |
| `PairCache.LessIsLexicographic` | src/utils/addresses.ts:164 | The order of the tokens is the dictionary's. |
| `PairCache.KeysAreInjective` | src/modules/factory.ts:128-129 | Different pairs of colon-free addresses never share a cache key. |
| `PairCache.ReservesFollowTheCaller` | src/modules/factory.ts:188-191 | Swapping the tokens swaps the reserves. |
| `PairCache.ReservesGoBySortedOrder` | src/modules/factory.ts:188-191 | The token that sorts first owns the first reserve. |
| `PositionPages.CursorRoundTrip` | src/modules/positions.ts:172-181 | A cursor written for a position reads back as that position. |
| `PositionPages.PagesCoverTheList` | src/modules/positions.ts:172-199 | Following the cursors from the start ends; the pages joined are the whole list in order; every page but the last is full and truncated. |
| `PositionPages.PageIs` | src/modules/positions.ts:172-199 | A page holds the limit's number of items from the cursor on, as far as there are any, and is truncated, with a cursor for the next item, exactly when that item exists. |
| `PositionPages.PageSizeIs` | src/modules/positions.ts:133-179 | A limit is rounded down and at least 1; without one the page is the whole list. |
| `PositionPages.StartIndexExactly` | src/modules/positions.ts:172 | Blanks, sign, digits and any trailing text give the leading number; no cursor, an empty one, a negative number and text without a leading number give the start. |
| `PositionPages.GetPositions` | src/modules/positions.ts:126-199 | A malformed read fails the call, an unreachable pair is skipped, empty positions are kept only on request, and the page is cut from what remains. |
| `PositionPages.KeptIs` | src/modules/positions.ts:158-170 | What is kept are the positions of the successful reads, empty ones only on request, one each and in order. |

## Left out

- XDR and ScVal encoding, contract clients, RPC servers, signers and simulation: they appear only as failing or succeeding steps.
- Wall-clock reads, random ids, timers and logging: times are parameters, generated ids are new.
- `executeWithFallback`, connection pool, rate limiter and polling intervals: a lifecycle's steps fail or succeed as the environment says; of a retried send only whether some try reached the network and how the last one ended is kept.
- PoolShares.DepositAndEarlierHolders: the pair contract's minting rule, because it is not part of the SDK.
- The pre-flight status guard and simulation of `buildCancelOperation`, and the parsing of order states: single checks before the protocol starts.
- Bounds on how long a transaction stays valid: `Expire` may happen at any time, so no theorem relies on the 30 s timeout.
- The client's promises and the bot's lock are a step system rather than a class, because their behaviour lies in the interleaving of callers.
- PoolWatcher.EveryEventExactlyOnce: speaks of polls that do not overlap; of overlapping polls only repetition is characterised, because a late response may also deliver what another poll had lost.
- `lastTriggeredAt`, `currentValue`, `lastEvaluatedAt` and the alert lists and summaries: recorded or counted, never decided on.
- FeeRevenue.GetFeeRevenue: a token stands for its rank under `localeCompare`; display amounts, decimals and timestamps, which are floating point or clock reads, are not modelled.
- Floating-point shares of the pool, spot prices and price deviation in basis points.
- Governance, DCA, staking, portfolio, monitoring, order book and the remaining modules.
