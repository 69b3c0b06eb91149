# Milestone escrow and SDK: a verified model

The escrow contract holds a funder's tokens and pays them to a recipient milestone by milestone.
Money can leave it by six routes: lump-sum approval, linear vesting claims, a late-delivery penalty,
a split by the single arbitrator, a split by a committee quorum, and a timeout refund. All six share
one book of three numbers, `deposited`, `released` and `refunded`, which is guarded only by local checks.
This project models every entrypoint that changes state and proves what those local checks add up to.
It also covers the SDK's off-chain mirror of vesting and its read cache.

## How it is built

* **Specification** (`escrow/Storage`, `EscrowMath`, `Payments`, `Schedules`, `Committee`, `Lifecycle`).
  Each entrypoint is a function from a world (the contract's address, its storage, the token ledger) to
  the next world or an error. Machine integers are modelled explicitly: i128, u64 and u32 are bounded
  types, checked arithmetic returns an error, saturating arithmetic saturates. `Lifecycle.Step` and
  `Lifecycle.Run` form the state machine; besides invocations a run contains arbitrary token activity
  by others.
* **Implementation** (`escrow/Contract`). `EscrowContract` has one field per storage key and one method per
  source function, with the source's loops and its order of writes, including writes that come before
  a later check fails. Every method is proved against its specification function. `Invoke` is a
  transaction as the Soroban host performs it: a failed one is rolled back.
* **Laws and theorems.** `EscrowMath`, `Tally`, `PaymentLaws` and `EntryLaws` give the arithmetic and the payments.
  `Invariants` and `Preservation` state the invariant and prove that all 18 calls keep it. From it `Terms`,
  `Requests`, `Progress`, `Timeouts` and `Disputes` derive when each call succeeds and what it does, and
  `Refusals` which error it answers otherwise. `Runs`,
  `VestingRuns`, `Lifetime`, `Draining`, `Solvency`, `Guards` and again `Disputes`, `Terms` and `Timeouts` prove
  what holds over every run. `BlockedExample` and `StreamExample` follow concrete ones.
* **SDK** (`sdk/`). `SdkStream` is pure; `LruCache` is a class over the insertion-ordered map of ECMA-262
  section 24.1, proved against a value specification, and `CacheRuns` proves what holds over sequences
  of operations.

## What the host and the token are assumed to do

* A transaction that returns an error or traps leaves no trace.
* Ledger time does not run backwards. `require_auth` is membership in a set of authorising addresses,
  which never contains the contract's own address.
* The token is an honest ledger with the SEP-41 operations `transfer`, `transfer_from`, `balance` and
  `allowance`. It traps on missing funds or allowance and when a balance would leave i128; nobody else spends
  the contract's tokens. What the asset answers to `decimals` is a parameter of `initialize`.

## Findings

* **A fully slashed lump sum can never be approved.** With a penalty of 10 000 bps the payout becomes 0,
  and the zero amount is refused (`contracts/escrow/src/fees.rs:34`). By `Progress.ApprovalSucceedsExactly` a
  signed, unpaused approval of an unapproved milestone is blocked in a reachable state if and only if it is a
  lump sum that was slashed this way, whose fee product overflows, or whose payees have no room for it on the
  token. `BlockedExample.BlockedApproval` is a concrete reachable case. Such an escrow never completes by
  approvals (`Progress.WorthlessBlocksCompletion`), and if nothing else is open the timeout refund is refused
  as well, so that only a settlement ends it (`Timeouts.OnlySettlementEnds`,
  `BlockedExample.OnlySettlementHelps`).
* **What the contract pays to itself stays behind.** Nothing forbids the contract's own address as treasury
  or recipient. Such a fee or net is booked as released but never leaves. `Solvency.SurplusExact` states the
  amount for every call: the tokens held follow the book to the unit if and only if it is zero. In
  `StreamExample.FeeStaysBehind` a tenth of a payout is left over.
* **The timeout refund keeps a reserve nobody can collect.** It returns only the unapproved payouts,
  although its comment speaks of the remaining locked tokens (`contracts/escrow/src/lib.rs:245`). What was
  approved but not yet streamed stays locked, because claims are refused once Cancelled. The refund empties
  the escrow if and only if there is no such amount, and otherwise the amount is still locked after any later
  run (`Timeouts.ReserveIsStuck`); `StreamExample.StuckReserve` is a concrete case.
* **A settlement pays out approved streams too.** It splits the whole locked balance. Afterwards the book
  agrees with the milestone records if and only if there was nothing to split (`Disputes.SettlementBacked`):
  `StreamExample.SplitAway` is a case where it does not, `BlockedExample.EmptySettlement` one where it does.
  Either way it is never touched again (`Lifetime.ClosedForever`).
* With a protocol fee, approval pays the recipient the payout less the fee, where the repository's own
  README speaks of the whole payout.

## Model

| member | source | states |
|---|---|---|
| EscrowMath.ApplyBpsExact | contracts/escrow/src/math.rs:18-29 | the result is the exact floor share, bracketed by the product, and the only failure for sane inputs is i128 overflow of the product |
| EscrowMath.ApplyBpsRefused | contracts/escrow/src/math.rs:19-24 | which error inputs outside the domain are told |
| EscrowMath.ShareSplits | contracts/escrow/src/math.rs:18-29 | taking a share of two parts loses at most one unit against taking it once |
| EscrowMath.SplitExact | contracts/escrow/src/math.rs:39-48 | a split is refused exactly when the weights miss 10 000 or the product overflows; otherwise both legs are non-negative and rebuild the amount |
| EscrowMath.VestedMonotone | contracts/escrow/src/math.rs:77-94 | the floored interpolant never decreases over time |
| EscrowMath.VestedBracket | contracts/escrow/src/math.rs:84-93 | the interpolant is 0 up to the start, everything from the end on, and in between the largest whole amount not above the elapsed fraction |
| EscrowMath.VestedAmountExact | contracts/escrow/src/math.rs:77-94 | the machine function equals that interpolant, and which inputs make it fail with which error |
| EscrowMath.FloorDivExact | contracts/escrow/src/math.rs:67-72 | refused exactly for a negative numerator or a denominator that is not positive, otherwise the largest quotient not above the fraction |
| Storage.SaturationHarmless | contracts/escrow/src/storage.rs:151-155 | saturation in `locked` neither hides an overdraft nor alters a non-negative balance |
| Storage.TransferExact | contracts/escrow/src/token.rs:52-58 | a transfer succeeds exactly with funds and room, moves the amount between the two parties and touches nobody else |
| Storage.TransferFromExact | contracts/escrow/src/token.rs:23-34 | spending an allowance also needs it, and uses up that one and no other by the amount moved |
| PaymentLaws.CreditsExact | contracts/escrow/src/token.rs:60-86 | on a consistent book each credit succeeds exactly when it stays within the locked balance, and lowers that by the amount |
| PaymentLaws.ReleaseExact | contracts/escrow/src/fees.rs:45-53 | one payment leg: when it succeeds, what it books and what it moves; a zero leg does nothing |
| PaymentLaws.RefundExact | contracts/escrow/src/token.rs:78-86 | the same for a refund to the funder |
| PaymentLaws.DisbursementExact | contracts/escrow/src/fees.rs:33-40 | fee and net are the exact floor and the rest, refused exactly for non-positive or overflowing amounts |
| PaymentLaws.PayLegsExact | contracts/escrow/src/fees.rs:45-53 | two legs succeed together exactly when their sum is covered and both payees have room |
| PaymentLaws.PayWithFeeExact | contracts/escrow/src/fees.rs:43-55 | a disbursement succeeds exactly when payable, books the gross and moves fee and net |
| PaymentLaws.LegsRefused | contracts/escrow/src/token.rs:52-86 | a leg the ledger cannot move traps, one it can move but the book does not cover is a bad amount |
| PaymentLaws.PayWithFeeRefused | contracts/escrow/src/fees.rs:33-55 | which error a refused disbursement is told, and on an empty book which of its legs decides |
| Tallies.SumUpdate | contracts/escrow/src/vesting.rs:72-86 | rewriting one record changes every sum over the list by exactly that record's difference |
| Tallies.SumOrderIrrelevant | contracts/escrow/src/vesting.rs:72-86 | sums over two duplicate-free lists of the same ids agree |
| Tallies.SumLaws | contracts/escrow/src/vesting.rs:72-86 | what is not yet streamed is owed or open, and no total is negative |
| Tallies.AllApproved | contracts/escrow/src/lib.rs:507-512 | the approved count reaches the length of the list exactly when every listed milestone is approved |
| EntryLaws.DepositExact | contracts/escrow/src/token.rs:9-50 | when the deposit succeeds, the store it leaves with its lock, every account's new balance and every allowance: only the one from funder to contract is spent, by the total |
| EntryLaws.ClaimBounds | contracts/escrow/src/vesting.rs:41-52 | a claim never exceeds what the record still has to give |
| EntryLaws.ObligationExact | contracts/escrow/src/vesting.rs:72-86 | on sane records the checked loop returns the sum of what is owed, and fails only when that sum leaves i128 |
| EntryLaws.ReorderKeepsObligation | contracts/escrow/src/milestone.rs:126-156 | reordering leaves the outcome of the obligation loop unchanged, overflow included |
| EntryLaws.PaySplitExact | contracts/escrow/src/lib.rs:422-438 | when a split of the whole balance is payable and what it books and moves |
| EntryLaws.PaySplitRefused | contracts/escrow/src/lib.rs:415-432 | otherwise: weights, overflow and room, in this order; the book always covers it |
| EntryLaws.SplitBook | contracts/escrow/src/lib.rs:422-432 | after the split the book balances to zero with the deposit untouched |
| Reordering.ReorderExact | contracts/escrow/src/milestone.rs:126-156 | succeeds exactly for a listed id and a position in range; a permutation with the id in place and the others in unchanged order |
| Reordering.ReorderBack | contracts/escrow/src/milestone.rs:126-156 | moving the id back to its old index restores the list |
| Reordering.ReorderKeepsSums | contracts/escrow/src/milestone.rs:126-156 | every sum over the list is unchanged by reordering |
| Preservation.PlanShape | contracts/escrow/src/lib.rs:76-116 | an accepted schedule is numbered 1..n with fresh records of positive payout |
| Preservation.PlanTotals | contracts/escrow/src/lib.rs:76-116 | its total is the sum of the payouts, and nothing is streamed or approved |
| Preservation.InitializeKeeps | contracts/escrow/src/lib.rs:55-152 | initialisation establishes the invariant |
| Preservation.DepositKeeps | contracts/escrow/src/token.rs:9-50 | the deposit keeps the invariant |
| Preservation.ScreenedMembers | contracts/escrow/src/multisig.rs:39-50 | the scan accepts a committee exactly when it is duplicate-free and contains neither party |
| Preservation.ConfigurationKeeps | contracts/escrow/src/multisig.rs:20-58 | switches, rates, proposals, evidence and committee changes keep the invariant |
| Preservation.ProofKeeps | contracts/escrow/src/lib.rs:161-198 | submitting a proof keeps it |
| Preservation.ApproveKeeps | contracts/escrow/src/lib.rs:480-522 | approval keeps it |
| Preservation.StreamKeeps | contracts/escrow/src/vesting.rs:11-64 | a vesting claim keeps it |
| Preservation.SlashKeeps | contracts/escrow/src/penalty.rs:27-70 | a penalty keeps it |
| Preservation.MarkingKeepsSums | contracts/escrow/src/lib.rs:524-534 | marking open milestones disputed changes no amount and no approval |
| Preservation.RaiseKeeps | contracts/escrow/src/lib.rs:207-234 | raising a dispute keeps it |
| Preservation.SettleKeeps | contracts/escrow/src/lib.rs:408-449 | either settlement keeps it |
| Preservation.TimeoutKeeps | contracts/escrow/src/lib.rs:451-478 | the timeout refund keeps it |
| Preservation.AcceptKeeps | contracts/escrow/src/milestone.rs:81-124 | accepting an amendment keeps the invariant, whenever it was proposed |
| Preservation.ExecKeeps | contracts/escrow/src/lib.rs:53-405 | every successful call of every entrypoint keeps the invariant |
| Effects.ChangeOf | contracts/escrow/src/lib.rs:155-369 | the closed form of what each call changes in a funded escrow, and that it changes nothing else |
| Runs.RunKeeps | contracts/escrow/src/lib.rs:53-405 | the invariant holds after any legal run |
| Runs.ReachableInv | contracts/escrow/src/lib.rs:53-405 | every reachable world satisfies the invariant |
| Runs.MasterAccounting | contracts/escrow/src/lib.rs:480-522 | while the escrow is live the book equals the milestone records: released is the sum streamed, deposit less refunds the sum of payouts, and the contract holds at least the locked balance |
| Runs.RecordConsistency | contracts/escrow/src/lib.rs:489-512 | approved count, Released, unapproved, Active, Disputed and Completed mean what they say in every reachable state |
| Runs.FundingTerms | contracts/escrow/src/milestone.rs:100-124 | before funding the price is the sum of positive payouts under any amendments; afterwards the deposit is that price; a stored proposal has exactly one signature |
| Runs.FundedRun | contracts/escrow/src/penalty.rs:51-69 | after funding no run changes a party, rate, total or vesting term, and a payout changes only with the one penalty, by exactly its floored share |
| VestingRuns.StreamNeverAhead | contracts/escrow/src/vesting.rs:37-62 | over any run an approved stream stays within its schedule and never goes back |
| VestingRuns.ClaimCatchesUp | contracts/escrow/src/vesting.rs:37-62 | after a claim the streamed amount is exactly what had vested |
| VestingRuns.ClaimTimingIrrelevant | contracts/escrow/src/vesting.rs:37-62 | two runs with any earlier claims that claim at the same time end with the same streamed total |
| Lifetime.StepProgresses | contracts/escrow/src/lib.rs:161-251 | a natural-number measure never grows and strictly drops with every progress call |
| Lifetime.BoundedLifetime | contracts/escrow/src/lib.rs:161-251 | over any run, progress made plus progress left never exceeds what was left at the start |
| Lifetime.AtMostOneDisputePerMilestone | contracts/escrow/src/lib.rs:207-234 | disputes raised never outnumber the milestones unapproved at the start |
| Lifetime.ClosedForever | contracts/escrow/src/vesting.rs:17-23 | after a settlement or cancellation no run changes the book, the state or any amount |
| Lifetime.EndingsAreFinal | contracts/escrow/src/lib.rs:507-512 | Completed and Cancelled are absorbing |
| Disputes.DistinctLaws | contracts/escrow/src/access.rs:97-112 | the distinct signers are the listed ones, each once |
| Disputes.DistinctInOrder | contracts/escrow/src/access.rs:97-112 | they appear in order of first mention |
| Disputes.RequireQuorumExact | contracts/escrow/src/access.rs:93-118 | accepted exactly when the threshold is positive, enough distinct signers are listed and the first that many authorised |
| Disputes.ScreenedSigners | contracts/escrow/src/multisig.rs:85-94 | signers pass exactly when they are distinct committee members |
| Disputes.QuorumExact | contracts/escrow/src/multisig.rs:61-125 | the quorum route succeeds exactly on an open dispute with a quorum and a payable split |
| Disputes.ResolveExact | contracts/escrow/src/lib.rs:408-449 | the arbitrator route succeeds exactly on an open dispute, signed, with a payable split |
| Disputes.SettlementRoutesAgree | contracts/escrow/src/multisig.rs:97-114 | both routes reach the identical world, and with each signed one is open exactly when the other is |
| Disputes.SettlementPaysEverything | contracts/escrow/src/lib.rs:422-438 | two non-negative legs exhaust the locked balance to the unit |
| Disputes.SettlementBacked | contracts/escrow/src/lib.rs:422-432 | in a reachable state the book still agrees with the records after a settlement if and only if nothing was locked |
| Disputes.QuorumSoundness | contracts/escrow/src/multisig.rs:61-125 | on every reachable state a quorum settlement is backed by `threshold` distinct authorised members, none of them a party |
| Disputes.DocketStep | contracts/escrow/src/dispute.rs:24-54 | the docket changes only by one appended entry of an authorised party in an open dispute |
| Disputes.DocketOverRuns | contracts/escrow/src/dispute.rs:9-55 | append-only over runs, at most 32 entries, distinct non-zero hashes, submitted by the parties |
| Solvency.SurplusExact | contracts/escrow/src/fees.rs:43-55 | every successful call changes the tokens held by the change of the locked balance plus exactly what it pays to the contract itself, read off the state before it |
| Solvency.OutsidersRetainNothing | contracts/escrow/src/fees.rs:22-25 | that is nothing whenever neither recipient nor treasury is the contract |
| Solvency.SurplusOverRuns | contracts/escrow/src/token.rs:52-86 | over any run the surplus grows by exactly what was sent in or paid by the contract to itself, and never shrinks |
| Solvency.StepAccounts | contracts/escrow/src/fees.rs:33-55 | one step: what a record lost is what the ledger shows was slashed, taken as fee and paid net |
| Solvency.LifetimePartition | contracts/escrow/src/fees.rs:33-55 | over any run the payout is slash, fees, nets and the unstreamed rest, and k disbursements cost the treasury at most k-1 units of fee |
| Progress.ApprovalSucceedsExactly | contracts/escrow/src/lib.rs:480-522 | in every reachable state, for all amounts and payees: approval succeeds if and only if unpaused, signed, unapproved and either streaming or a lump sum not slashed at the full scale whose fee product fits and whose payees have room; the book never blocks it; the exact new store and transfers |
| Progress.ApprovalNeverBlocked | contracts/escrow/src/token.rs:60-68 | a corollary: for a signed, unpaused approval of a positive payout up to a ten-thousandth of i128 nothing but room on the token can be missing |
| Progress.ClaimSucceedsExactly | contracts/escrow/src/vesting.rs:11-64 | the same for a vesting claim, which pays exactly what has vested beyond what was streamed |
| Progress.PenaltySucceedsExactly | contracts/escrow/src/penalty.rs:27-70 | the same for a late penalty, which returns exactly the floored share |
| Timeouts.RefundExactly | contracts/escrow/src/lib.rs:451-478 | in every reachable state the timeout refund succeeds exactly when unpaused, signed, Active and past the lock with something open and room for it; it pays exactly the unapproved payouts and leaves exactly what is owed, and its subtraction never fails |
| Timeouts.ReserveIsStuck | contracts/escrow/src/lib.rs:466-475 | the refund empties the book if and only if nothing was owed, and what it leaves is still locked after any later run |
| Timeouts.OnlySettlementEnds | contracts/escrow/src/lib.rs:468-471 | with a worthless lump sum and nothing open, neither approvals nor the timeout ever end the escrow |
| Progress.WorthlessBlocksCompletion | contracts/escrow/src/fees.rs:34 | a lump sum worth nothing is refused for ever, and only a settlement can complete the escrow |
| Draining.DrainsOnAnyRun | contracts/escrow/src/vesting.rs:11-64 | after completion by approvals, any run that claims each unfinished stream once after its own end pays every milestone up, drains the escrow to zero and releases every positive milestone |
| Draining.DrainedExactly | contracts/escrow/src/vesting.rs:11-64 | a run leaves nothing locked if and only if it claims each unfinished stream after its end |
| Draining.CompletedEscrowDrains | contracts/escrow/src/vesting.rs:11-64 | such claims succeed: one for each milestone in a row, signed and with room, empties the escrow |
| BlockedExample.BlockedApproval | contracts/escrow/src/penalty.rs:56-69 | a concrete reachable escrow whose signed approval fails after a full penalty |
| BlockedExample.OnlySettlementHelps | contracts/escrow/src/lib.rs:468-471 | no run ends that escrow but by a settlement |
| BlockedExample.EmptySettlement | contracts/escrow/src/lib.rs:422-438 | a reachable dispute over nothing, whose settlement leaves book and records in agreement |
| StreamExample.StuckReserve | contracts/escrow/src/lib.rs:466-475 | a reachable escrow whose timeout refund leaves ten units locked after any later run |
| StreamExample.SplitAway | contracts/escrow/src/lib.rs:422-438 | a reachable dispute whose settlement splits an approved stream away and leaves book and records apart |
| StreamExample.FeeStaysBehind | contracts/escrow/src/fees.rs:45-49 | a reachable escrow with itself as treasury whose approval leaves a surplus of one unit |
| Guards.PausedFreezes | contracts/escrow/src/lib.rs:251-274 | while paused only the admin's unpausing succeeds, and it changes only the switch |
| Guards.PausedOverRuns | contracts/escrow/src/lib.rs:251-274 | until the admin signs again no run changes anything a paused escrow has stored |
| Guards.NothingUnsigned | contracts/escrow/src/access.rs:32-52 | every successful call carries the signatures of those whose business it is |
| Guards.OutsidersChangeNothing | contracts/escrow/src/access.rs:32-72 | without the signature of a party, the arbitrator or a committee member no run changes anything stored |
| Terms.PlanExact | contracts/escrow/src/lib.rs:76-116 | the loop accepts exactly the schedules numbered 1..n with positive payouts and a sum within i128, and keeps their terms with nothing started |
| Terms.InitializeExact | contracts/escrow/src/lib.rs:55-152 | initialisation succeeds exactly once, signed, with distinct roles, a plausible asset and a sound schedule, and stores those terms |
| Terms.RatesExact | contracts/escrow/src/fees.rs:11-29 | who can set penalty and fee, within which bounds and only before funding, and that nothing else changes |
| Terms.CommitteeExact | contracts/escrow/src/multisig.rs:20-58 | a committee is installed exactly with both signatures, before any dispute, when it is a duplicate-free set of outsiders with a threshold it can meet |
| Terms.ProposalTakesEffect | contracts/escrow/src/milestone.rs:22-124 | what is accepted is what was proposed, whatever happened between: text, position, and payout with the total only if still unfunded; every other stored value stays |
| Requests.AcceptanceExact | contracts/escrow/src/milestone.rs:81-124 | in every reachable state acceptance succeeds exactly when unpaused, signed by both, with a proposal pending for an unapproved milestone and, while unfunded, a total within i128: the checks on listing, position and sign never fail |
| Requests.ProposalExact | contracts/escrow/src/milestone.rs:22-77 | when a proposal is taken in a reachable state, that an earlier one never blocks it, and what is stored |
| Requests.ProofExact | contracts/escrow/src/lib.rs:161-198 | when a proof is taken in a reachable state and what it changes: its checks reduce to the milestone being Pending |
| Requests.RaiseExact | contracts/escrow/src/lib.rs:207-234 | when a dispute can be raised in a reachable state: the marking loop never fails and touches all but Released milestones |
| Requests.EvidenceExact | contracts/escrow/src/dispute.rs:9-55 | when evidence is taken in a reachable state: a dispute in progress is always unresolved |
| Requests.SwitchExact | contracts/escrow/src/lib.rs:253-274 | the switch is the funder's in both directions and moves nothing else |
| Terms.ProofIsPermanent | contracts/escrow/src/lib.rs:161-198 | a submitted proof is never removed or replaced by any later run |
| Refusals.UninitialisedRefused | contracts/escrow/src/storage.rs:191-196 | before initialisation every other call answers `NotInit` |
| Refusals.ScheduleRefused | contracts/escrow/src/lib.rs:76-94 | the first milestone where a schedule stops being sound decides the error: number, then amount, then total |
| Refusals.InitializeRefused | contracts/escrow/src/lib.rs:63-74 | which error a refused initialisation answers, in the order signature, repetition, roles, asset, schedule |
| Refusals.DepositRefused | contracts/escrow/src/token.rs:9-39 | in every reachable state, which error a refused deposit answers; never `AlreadyPaid` and never `NoDeposit` |
| Refusals.RatesRefused | contracts/escrow/src/penalty.rs:10-23 | the same for setting penalty and fee |
| Refusals.ProofRefused | contracts/escrow/src/lib.rs:161-180 | the same for a proof, told apart by the state of escrow and milestone |
| Refusals.RaiseRefused | contracts/escrow/src/lib.rs:207-215 | the same for raising a dispute |
| Refusals.EvidenceRefused | contracts/escrow/src/dispute.rs:14-45 | the same for evidence: strangers before signatures, then state, zero hash, full docket, repetition |
| Refusals.SwitchRefused | contracts/escrow/src/lib.rs:253-274 | the same for the switch |
| Refusals.ApprovalRefused | contracts/escrow/src/lib.rs:480-505 | the same for an approval: `ZeroAmountAllocated` exactly for a lump sum slashed to nothing, `FeeOverflow` and a trap for the payment, never the book |
| Refusals.ClaimRefused | contracts/escrow/src/vesting.rs:11-54 | the same for a claim: `MilestoneAlreadyCompleted` exactly when everything was streamed, `VestingIncomplete` exactly when unapproved or when nothing has vested beyond what was streamed, and which errors overflow, room and a settled book give |
| Refusals.PenaltyRefused | contracts/escrow/src/penalty.rs:27-63 | the same for a late penalty |
| Refusals.RefundRefused | contracts/escrow/src/lib.rs:451-474 | the same for the timeout refund: `NoDeposit` exactly when nothing is open |
| Refusals.ResolveRefused | contracts/escrow/src/lib.rs:408-432 | the same for the arbitrator's settlement; an open dispute is never found resolved |
| Refusals.QuorumSettlementRefused | contracts/escrow/src/multisig.rs:61-108 | the same for the quorum's settlement: the first signer who is a stranger or a repetition decides |
| Refusals.CommitteeRefused | contracts/escrow/src/multisig.rs:20-50 | the same for a committee: the first member who is a party or a repetition decides |
| Refusals.ProposalRefused | contracts/escrow/src/milestone.rs:22-62 | the same for a proposal; never `AmendmentPending` |
| Refusals.AcceptanceRefused | contracts/escrow/src/milestone.rs:81-118 | the same for an acceptance |
| Contract.EscrowContract.constructor | contracts/escrow/src/storage.rs:170-172 | a deployed contract stores nothing |
| Contract.EscrowContract.TransferTo | contracts/escrow/src/token.rs:52-58 | fails with the specified error or moves exactly the amount on the ledger (law: `PaymentLaws.TransferToExact`), writing nothing else |
| Contract.EscrowContract.CreditReleased | contracts/escrow/src/token.rs:60-68 | refuses any credit beyond the locked balance and otherwise lowers it by the amount (law: `PaymentLaws.CreditsExact`), writing only the book |
| Contract.EscrowContract.CreditRefunded | contracts/escrow/src/token.rs:78-86 | the same on the refund side, where the guard precedes the addition |
| Contract.EscrowContract.DepositFunds | contracts/escrow/src/token.rs:9-50 | agrees in result, error and final state with the function of law `EntryLaws.DepositExact` |
| Contract.EscrowContract.ConfigureProtocolFee | contracts/escrow/src/fees.rs:11-29 | agrees in result, error and final state with the function of law `Terms.RatesExact` |
| Contract.EscrowContract.PayWithFee | contracts/escrow/src/fees.rs:43-55 | agrees with the function of law `PaymentLaws.PayWithFeeExact`, though the fee is already paid when the net can still fail; the book gains exactly the gross and the answer is the gross less the floored fee |
| Contract.EscrowContract.StreamMilestonePayout | contracts/escrow/src/vesting.rs:11-64 | agrees in result, error and final state with the function of law `Progress.ClaimSucceedsExactly`; the positive answer is what the book gained |
| Contract.EscrowContract.UnstreamedObligation | contracts/escrow/src/vesting.rs:72-86 | the loop computes the specified checked sum, errors included |
| Contract.EscrowContract.SetLatePenaltyBps | contracts/escrow/src/penalty.rs:10-23 | agrees in result, error and final state with the function of law `Terms.RatesExact`; answers the rate |
| Contract.EscrowContract.ApplyLatePenalty | contracts/escrow/src/penalty.rs:27-70 | agrees in result, error and final state with the function of law `Progress.PenaltySucceedsExactly` |
| Contract.EscrowContract.RequestMilestoneAmendment | contracts/escrow/src/milestone.rs:22-77 | agrees in result, error and final state with the function of law `Requests.ProposalExact` |
| Contract.EscrowContract.ApproveAmendment | contracts/escrow/src/milestone.rs:81-98 | agrees in result, error and final state with the function of law `Requests.AcceptanceExact`; the answer is the pending proposal with both signatures, and nothing stays pending |
| Contract.EscrowContract.ApplyAmendment | contracts/escrow/src/milestone.rs:100-124 | agrees with the specified rewrite although total and record are already written when reordering fails |
| Contract.EscrowContract.ReorderMilestone | contracts/escrow/src/milestone.rs:126-156 | the two loops compute the specified list |
| Contract.EscrowContract.MemberIndex | contracts/escrow/src/multisig.rs:10-17 | finds a member's index, and fails only for a stranger |
| Contract.EscrowContract.ConfigureArbitrators | contracts/escrow/src/multisig.rs:20-58 | agrees in result, error and final state with the function of law `Terms.CommitteeExact` |
| Contract.EscrowContract.UniqueMembers | contracts/escrow/src/multisig.rs:39-50 | the nested scan accepts or refuses as specified, with the first offence's error |
| Contract.EscrowContract.SettleWithQuorum | contracts/escrow/src/multisig.rs:61-125 | agrees in result, error and final state with the function of law `Disputes.QuorumExact` |
| Contract.EscrowContract.UniqueSigners | contracts/escrow/src/multisig.rs:85-94 | the nested scan accepts or refuses as specified, with the first offence's error |
| Contract.EscrowContract.PaySplit | contracts/escrow/src/lib.rs:422-438 | agrees with the function of law `EntryLaws.PaySplitExact`, though the first leg is already paid when the second can still fail |
| Contract.EscrowContract.RequireQuorum | contracts/escrow/src/access.rs:93-118 | the scan with its early exit decides as specified |
| Contract.EscrowContract.AppendDisputeEvidence | contracts/escrow/src/dispute.rs:9-55 | agrees in result, error and final state with the function of law `Requests.EvidenceExact`; answers the new size |
| Contract.EscrowContract.Initialize | contracts/escrow/src/lib.rs:55-152 | agrees in result, error and final state with the function of law `Terms.InitializeExact` |
| Contract.EscrowContract.StoreSchedule | contracts/escrow/src/lib.rs:76-116 | the loop that writes records while it still checks computes the specified plan or its first error |
| Contract.EscrowContract.SubmitMilestoneProof | contracts/escrow/src/lib.rs:161-198 | agrees in result, error and final state with the function of law `Requests.ProofExact` |
| Contract.EscrowContract.ApproveMilestone | contracts/escrow/src/lib.rs:480-522 | agrees in result, error and final state with the function of law `Progress.ApprovalSucceedsExactly` |
| Contract.EscrowContract.MarkOpenMilestonesDisputed | contracts/escrow/src/lib.rs:524-534 | the loop marks exactly the listed milestones that are not Released |
| Contract.EscrowContract.RaiseDispute | contracts/escrow/src/lib.rs:207-234 | agrees in result, error and final state with the function of law `Requests.RaiseExact`, though the dispute record is written before the marking loop can fail |
| Contract.EscrowContract.ResolveDispute | contracts/escrow/src/lib.rs:408-449 | agrees in result, error and final state with the function of law `Disputes.ResolveExact` |
| Contract.EscrowContract.ClaimTimeoutRefund | contracts/escrow/src/lib.rs:451-478 | agrees in result, error and final state with the function of law `Timeouts.RefundExactly` |
| Contract.EscrowContract.EmergencyPause | contracts/escrow/src/lib.rs:253-263 | agrees in result, error and final state with the function of law `Requests.SwitchExact` |
| Contract.EscrowContract.EmergencyUnpause | contracts/escrow/src/lib.rs:265-274 | the only way out of a pause (`Guards.PausedFreezes`) |
| Contract.EscrowContract.Rollback | contracts/escrow/src/lib.rs:94-116 | every write of a failed invocation is undone |
| Contract.EscrowContract.Dispatch | contracts/escrow/src/lib.rs:53-405 | whatever entrypoint is called, the outcome is the state machine's |
| Contract.EscrowContract.Invoke | contracts/escrow/src/lib.rs:53-405 | a transaction takes the contract exactly where the state machine goes, leaves no trace of a failure and keeps the invariant |
| SdkStream.SdkVestedExact | packages/sdk/src/stream.ts:26-36 | the SDK computes the exact interpolant, and when it throws which error |
| SdkStream.SdkVestedBracket | packages/sdk/src/stream.ts:31-35 | its value in numbers: 0, the total, or the floored elapsed fraction |
| SdkStream.SdkRefinesChain | packages/sdk/src/stream.ts:26-36 | the SDK returns what the contract returns, throws exactly when it rejects the schedule, and differs only on i128 overflow |
| SdkStream.ElapsedRatioExact | packages/sdk/src/stream.ts:42-51 | refused exactly for a schedule that does not end after its start; otherwise 0 up to the start, the floored basis points of the elapsed fraction, and 10 000 exactly from the end on |
| SdkStream.InterpolationConserves | packages/sdk/src/stream.ts:57-78 | for all inputs: when a query is refused; otherwise claimable and remaining make up what is left of the total, decay never adds |
| SdkStream.InterpolationExact | packages/sdk/src/stream.ts:66-77 | every answered figure: claimable is the vested amount less its floored decay less the claims, never below 0; remaining, ratio and completion follow |
| SdkStream.InterpolationRefused | packages/sdk/src/stream.ts:63-69 | which error a refused query throws |
| SdkStream.SdkPredictsClaim | packages/sdk/src/stream.ts:57-78 | in every reachable state the next claim succeeds if and only if the SDK shows something claimable and nothing on the chain blocks it, and pays exactly what the SDK shows |
| LruCache.DeleteLaws | packages/sdk/src/cache.ts:61-63 | deletion removes exactly the key's entry |
| LruCache.LiveLaws | packages/sdk/src/cache.ts:80-82 | the expiry pass keeps exactly the entries of a cache without lifetime or with an expiry still ahead |
| LruCache.LiveInOrder | packages/sdk/src/cache.ts:80-82 | the expiry pass keeps older entries before newer ones |
| LruCache.EvictLaws | packages/sdk/src/cache.ts:78-88 | what eviction keeps fits the capacity, was there before and has its expiry ahead; a live entry is dropped only when `maxEntries` newer ones are kept |
| LruCache.GetExact | packages/sdk/src/cache.ts:37-52 | a get answers the held value exactly while its expiry is ahead, counts one hit for an answer and one miss otherwise, drops a spent entry and moves an answered one to the recent end |
| LruCache.RemoveExact | packages/sdk/src/cache.ts:61-63 | a delete says whether the key was held, removes its entry and nothing else, and counts nothing |
| LruCache.LruCache.constructor | packages/sdk/src/cache.ts:23-27 | an empty cache with capacity at least 1 and lifetime at least 0 |
| LruCache.LruCache.Get | packages/sdk/src/cache.ts:37-52 | a hit moves to the recent end; a miss or an expired entry counts as a miss |
| LruCache.LruCache.Set | packages/sdk/src/cache.ts:54-59 | the entry goes to the recent end, then eviction |
| LruCache.LruCache.DeleteKey | packages/sdk/src/cache.ts:61-63 | removes the key and says whether it was there |
| LruCache.LruCache.Clear | packages/sdk/src/cache.ts:65-67 | removes everything, keeps the counters |
| LruCache.LruCache.Evict | packages/sdk/src/cache.ts:78-88 | both loops together leave the newest `maxEntries` of the live entries |
| LruCache.LruCache.DropExpired | packages/sdk/src/cache.ts:80-82 | the loop that deletes while iterating filters the map |
| LruCache.LruCache.DropOldest | packages/sdk/src/cache.ts:83-87 | the loop that deletes first keys leaves the newest entries |
| CacheRuns.RunSound | packages/sdk/src/cache.ts:15-89 | after any operations the size is within capacity and no key appears twice |
| CacheRuns.ApplyCounts | packages/sdk/src/cache.ts:37-52 | only a get counts: a hit exactly with an answer, a miss without |
| CacheRuns.AgreesWithPlainMap | packages/sdk/src/cache.ts:37-67 | every entry held is the one a plain map would hold; hits and misses add up to the number of gets |
| CacheRuns.GetIsFresh | packages/sdk/src/cache.ts:37-52 | a get answers nothing or the last value set and not deleted, never an expired one |
| CacheRuns.WorkingSetGuarantee | packages/sdk/src/cache.ts:37-59 | a key set or hit is answered as long as its expiry is ahead at every reading of the clock and fewer than `maxEntries` others were set or hit since |
| CacheRuns.WorkingSetExact | packages/sdk/src/cache.ts:37-59 | without lifetimes and deletions: it survives if and only if that few were |

## Left out

- Storage lifetime extension, durability classes and events: no effect on state.
- The reentrancy flag: an honest token never calls back.
- Signatures: abstracted to the set of authorising addresses.
- `require_all`, `require_actor`, `require_any_role`, `ratio_share` and the read-only getters: not used by any entrypoint, or they only read.
- Numeric error codes; host traps are one error value.
- A misbehaving token, or one that burns a share of a transfer.
- Contract.EscrowContract.Initialize: the asset's answer to `decimals` is a parameter, and a trap in that call is an absent answer.
- Contract.EscrowContract.PaySplit: written once; the source repeats the same statements in both settlement entrypoints.
- Contract.EscrowContract.ApproveMilestone: the writes of the streaming and the lump-sum branch to the milestone record are merged into one.
- Progress.ApprovalNeverBlocked: bounds the payout so that the fee product fits; Progress.ApprovalSucceedsExactly has the condition for all amounts.
- Progress.WorthlessBlocksCompletion: concerns lump sums; a fully slashed stream can be approved and stays UnderReview with nothing to pay.
- Draining.CompletedEscrowDrains: assumes that recipient and treasury have room on the token for all the contract holds and that fee products fit; Progress.ClaimSucceedsExactly has the exact condition of each single claim.
- Runs.MasterAccounting: not claimed for settled escrows, where Disputes.SettlementBacked has the exact condition, nor for cancelled ones, where only the released side and the reserve still agree.
- LruCache.LruCache.Get: clock readings, lifetimes and capacities are integers, and a stored `undefined` is not told from a value; fractions, NaN and infinities are not modelled.
- `LruCache.wrap`, `contractStateKey`, `size` and `stats`: asynchronous interleaving, key formatting, field reads.
- `projectStream` and `remainingAmount`: plain uses of the modelled functions.
- The rest of the SDK (transaction builders, RPC, events, gas, retry), the server, the client and its formatters.
