/** What each successful invocation changes once the escrow is funded, and what follows from it. */
module Effects {
  import opened Numeric
  import opened Results
  import opened EscrowMath
  import opened Storage
  import opened PaymentLaws
  import opened Tallies
  import opened Schedules
  import opened Reordering
  import opened Committee
  import opened Lifecycle
  import opened Invariants
  import opened EntryLaws
  import opened Preservation

  predicate Funded(w: World) {
    w.store.Some? && !w.store.value.state.Pending?
  }

  /** The closed form of each call's effect on the store of a funded escrow; calls that are only
      possible before funding have none. */
  ghost predicate Change(s: Store, s': Store, now: U64, call: Call) {
    match call
    case Init(_, _, _, _, _, _) => false
    case Deposit => false
    case SetPenalty(_) => false
    case SetFee(_, _) => false
    case Pause => s' == s.(paused := true)
    case Unpause => s' == s.(paused := false)
    case ProposeAmendment(actor, id, payout, description, newPosition) =>
      && s.state.Active? && id in s.milestones && payout == s.milestones[id].payout
      && s' == s.(amendment := Some(Amendment(id, payout, description, newPosition, actor,
                                              actor == s.config.funder, actor == s.config.recipient)))
    case SetCommittee(members, threshold) =>
      s.state.Active? && s' == s.(arbitrators := ArbitratorSet(members, threshold))
    case AddEvidence(actor, hash) =>
      && s.state.Disputed? && |s.evidence| < MAX_EVIDENCE
      && s' == s.(evidence := s.evidence + [Evidence(actor, hash, now)])
    case Proof(id, hash) =>
      && s.state.Active? && id in s.milestones && s.milestones[id].status.Pending?
      && s' == s.(milestones := s.milestones[id :=
                    s.milestones[id].(status := MilestoneStatus.UnderReview, submittedAt := now)],
                  proofs := s.proofs[id := hash])
    case Approve(id) =>
      && (s.state.Active? || s.state.Disputed?) && id in s.milestones && !s.milestones[id].isApproved
      && s.approved < |s.ids|
      && s' == ApprovedStore(s, now, id, s'.book)
      && s'.book == s.book.(released := s'.book.released)
      && s'.book.released == s.book.released + LumpSum(s.milestones[id])
    case Stream(id) =>
      && (s.state.Active? || s.state.Completed?) && !Settled(s) && Streaming(s, id) && 0 <= s.milestones[id].payout
      && 0 < Claimable(s.milestones[id], now)
      && s'.book.released == s.book.released + Claimable(s.milestones[id], now)
      && s' == s.(milestones := s.milestones[id := ClaimedRecord(s.milestones[id], now)],
                  book := s.book.(released := s'.book.released))
    case Slash(id) =>
      && s.state.Active? && id in s.milestones && Slashable(s.milestones[id])
      && s'.book.refunded == s.book.refunded + Share(s.milestones[id].payout, s.penaltyBps)
      && 0 <= Share(s.milestones[id].payout, s.penaltyBps) <= s.milestones[id].payout
      && s' == s.(milestones := s.milestones[id := s.milestones[id].(
                    payout := s.milestones[id].payout - Share(s.milestones[id].payout, s.penaltyBps),
                    latePenaltyApplied := true)],
                  book := s.book.(refunded := s'.book.refunded))
    case Raise =>
      s.state.Active? && s' == s.(milestones := AllMarked(s.milestones), state := EscrowState.Disputed,
                                  dispute := Some(DisputeRecord(s.config.funder, now, 0, 0, false)))
    case Resolve(funderBps, recipientBps) => SettledChange(s, s', funderBps, recipientBps)
    case SettleQuorum(funderBps, recipientBps, _) => SettledChange(s, s', funderBps, recipientBps)
    case TimeoutRefund =>
      && s.state.Active? && s'.book.refunded == s.book.refunded + Totals(s).open && 0 < Totals(s).open
      && s' == s.(state := EscrowState.Cancelled, book := s.book.(refunded := s'.book.refunded))
    case AcceptAmendment =>
      s.amendment.Some? && s.amendment.value.milestoneId in s.milestones
      && s' == s.(ids := s'.ids, amendment := None,
                  milestones := s.milestones[s.amendment.value.milestoneId :=
                    s.milestones[s.amendment.value.milestoneId].(description := s.amendment.value.description)])
      && Totals(s') == Totals(s)
  }

  predicate SettledChange(s: Store, s': Store, funderBps: U32, recipientBps: U32) {
    && s.state.Disputed? && s.dispute.Some? && funderBps + recipientBps == BPS_SCALE
    && s'.dispute == Some(s.dispute.value.(
                       funderBps := funderBps, recipientBps := recipientBps, resolved := true))
    && s'.book.Balance() == 0
    && s'.book.deposited == s.book.deposited
    && s.book.released <= s'.book.released && s.book.refunded <= s'.book.refunded
    && s' == s.(state := EscrowState.Completed, dispute := s'.dispute, book := s'.book)
  }

  lemma QuietEffects(w: World, now: U64, env: Env, call: Call)
    requires Inv(w, now) && Funded(w) && Exec(w, env, call).Ok?
    requires call.Init? || call.Deposit? || call.SetPenalty? || call.SetFee? || call.Pause? || call.Unpause?
             || call.ProposeAmendment? || call.SetCommittee? || call.AddEvidence? || call.Proof?
    ensures Exec(w, env, call).value.store.Some?
    ensures Change(w.store.value, Exec(w, env, call).value.store.value, env.now, call)
  {
    hide StoreInv, Solvent, PlanOf, ScreenMembers;
    InvReady(w, now);
    if call.Proof? {
      InvReadyFor(w, now, call.id);
    }
  }

  lemma MoneyEffects(w: World, now: U64, env: Env, call: Call)
    requires Inv(w, now) && now <= env.now && Funded(w) && Exec(w, env, call).Ok?
    requires call.Approve? || call.Stream? || call.Slash?
    ensures Exec(w, env, call).value.store.Some?
    ensures Change(w.store.value, Exec(w, env, call).value.store.value, env.now, call)
  {
    hide Inv, ApproveMilestone, StreamMilestonePayout, ApplyLatePenalty, Moved, Payable, Room, Vested, RecordOk, Share;
    InvReadyFor(w, now, call.id);
    match call
    case Approve(id) => ApproveExact(w, now, env, id);
    case Stream(id) => StreamExact(w, now, env, id);
    case Slash(id) => SlashExact(w, now, env, id);
  }

  lemma EndingEffects(w: World, now: U64, env: Env, call: Call)
    requires Inv(w, now) && Funded(w) && Exec(w, env, call).Ok?
    requires call.Resolve? || call.SettleQuorum? || call.TimeoutRefund? || call.Raise?
    ensures Exec(w, env, call).value.store.Some?
    ensures Change(w.store.value, Exec(w, env, call).value.store.value, env.now, call)
  {
    hide Solvent, PaySplit, ClaimTimeoutRefund, ScreenSigners, RequireQuorum, Moved, Room, Totals, TermsOk, RecordOk;
    InvReady(w, now);
    var s := w.store.value;
    if call.TimeoutRefund? {
      if s.state.Active? {
        ActiveCollectable(w, now);
      }
      TimeoutExact(w, env);
    } else if call.Raise? {
      assert MarkOpenMilestonesDisputed(s.ids, s.milestones).value == AllMarked(s.milestones);
    } else {
      PaySplitExact(w, s.dispute.value, call.funderBps, call.recipientBps);
    }
  }

  lemma AcceptEffects(w: World, now: U64, env: Env)
    requires Inv(w, now) && Funded(w) && Exec(w, env, AcceptAmendment).Ok?
    ensures Exec(w, env, AcceptAmendment).value.store.Some?
    ensures Change(w.store.value, Exec(w, env, AcceptAmendment).value.store.value, env.now, AcceptAmendment)
  {
    hide ApproveAmendment, Solvent, BookOk, TermsOk, ReorderMilestone, Sum, RecordOk, Token.Balance;
    AcceptExact(w, env);
    var s := w.store.value;
    var a, s' := s.amendment.value, ApproveAmendment(w, env).value.store.value;
    ReorderKeepsSums(s.ids, a.milestoneId, a.newPosition, s'.milestones);
    SumUpdate(s.ids, s.milestones, a.milestoneId, s'.milestones[a.milestoneId]);
    assert s'.config == s.config;
  }

  /** The closed form holds of every successful call on a funded escrow. */
  lemma ChangeOf(w: World, now: U64, env: Env, call: Call)
    requires Inv(w, now) && now <= env.now && Funded(w) && Exec(w, env, call).Ok?
    ensures Exec(w, env, call).value.store.Some?
    ensures Change(w.store.value, Exec(w, env, call).value.store.value, env.now, call)
  {
    hide Exec, Inv, Change;
    match call
    case Approve(_) => MoneyEffects(w, now, env, call);
    case Stream(_) => MoneyEffects(w, now, env, call);
    case Slash(_) => MoneyEffects(w, now, env, call);
    case Resolve(_, _) => EndingEffects(w, now, env, call);
    case SettleQuorum(_, _, _) => EndingEffects(w, now, env, call);
    case TimeoutRefund => EndingEffects(w, now, env, call);
    case Raise => EndingEffects(w, now, env, call);
    case AcceptAmendment => AcceptEffects(w, now, env);
    case _ => QuietEffects(w, now, env, call);
  }
}
