/** Solvency gives progress: approvals are never blocked by the book, a completed escrow can be
    drained to the last unit, and the one case in which an escrow cannot complete. */
module Progress {
  import opened Numeric
  import opened Results
  import opened EscrowMath
  import opened Storage
  import opened Tallies
  import opened PaymentLaws
  import opened Payments
  import opened Schedules
  import opened Committee
  import opened Lifecycle
  import opened Invariants
  import opened EntryLaws
  import opened Preservation
  import opened Effects
  import opened Runs

  /** Both payees of a disbursement could hold everything the contract holds. */
  predicate Roomy(w: World) {
    w.store.Some? ==>
      && (w.store.value.config.recipient == w.self
          || w.token.Balance(w.store.value.config.recipient) + w.token.Balance(w.self) <= I128_MAX)
      && (w.store.value.treasury == w.self
          || w.token.Balance(w.store.value.treasury) + w.token.Balance(w.self) <= I128_MAX)
  }

  lemma SmallIsPayable(w: World, s: Store, gross: int)
    requires w.store == Some(s) && Ready(w) && Roomy(w)
    requires 0 < gross <= s.book.Balance() && gross * s.feeBps <= I128_MAX
    ensures Payable(w, s, s.config.recipient, gross)
  {
    hide Share;
  }

  lemma SmallProduct(amount: int, bps: int)
    requires 0 <= amount && amount * BPS_SCALE <= I128_MAX && 0 <= bps <= BPS_SCALE
    ensures amount * bps <= I128_MAX
  {
    ScaleMonotone(bps, BPS_SCALE, amount);
  }

  /** What completion by approvals says of each milestone. */
  lemma CompletedFacts(w: World, now: U64, id: U32)
    requires Inv(w, now) && w.store.Some? && id in w.store.value.milestones
    requires w.store.value.state.Completed? && !Settled(w.store.value)
    ensures var m := w.store.value.milestones[id];
            && m.isApproved && 0 <= m.streamed <= m.payout && m.completedAt <= now
            && (m.vestingSecs == 0 ==> m.streamed == m.payout)
            && (m.streamed == m.payout && 0 < m.payout ==> m.status.Released?)
  {
    hide TermsOk, Vested;
    var s := w.store.value;
    SaneRecords(s, now);
    AllApproved(s.ids, s.milestones);
  }

  // ----- The escrow that cannot complete -----

  /** A lump-sum milestone whose whole payout has been slashed away. */
  predicate Worthless(s: Store, id: U32) {
    id in s.milestones && !s.milestones[id].isApproved
    && s.milestones[id].payout == 0 && s.milestones[id].vestingSecs == 0
  }

  /** A payout is worth nothing exactly when it was slashed at the full scale, which takes funding. */
  ghost predicate Priced(s: Store) {
    forall id :: id in s.milestones ==>
      var m := s.milestones[id];
      && (s.state.Pending? ==> !m.latePenaltyApplied)
      && (m.payout == 0 <==> m.latePenaltyApplied && s.penaltyBps == BPS_SCALE)
  }

  /** Only the full scale slashes everything. */
  lemma ShareOfAll(amount: I128, bps: U32)
    requires 0 < amount && bps <= BPS_SCALE
    ensures Share(amount, bps) == amount <==> bps == BPS_SCALE
  {
    ApplyBpsExact(amount, bps);
    if bps < BPS_SCALE {
      ScaleMonotone(bps, BPS_SCALE - 1, amount);
    }
  }

  lemma PendingPriced(s: Store, now: U64)
    requires StoreInv(s, now) && s.state.Pending?
    requires forall id :: id in s.milestones ==> !s.milestones[id].latePenaltyApplied
    ensures Priced(s)
  {
    hide ListOk, RecordsOk, TermsOk, Totals;
  }

  lemma InitPriced(w: World, env: Env, call: Call)
    requires call.Init? && Exec(w, env, call).Ok?
    ensures Exec(w, env, call).value.store.Some?
    ensures var s := Exec(w, env, call).value.store.value;
            s.state.Pending? && forall id :: id in s.milestones ==> !s.milestones[id].latePenaltyApplied
  {
    hide PlanOf, ValidateRoles, DefaultSet;
    PlanShape(call.milestones);
  }

  /** Before funding nothing is slashed, and only a deposit ends that stage. */
  lemma UnfundedPriced(w: World, env: Env, call: Call)
    requires w.store.Some? && w.store.value.state.Pending? && Priced(w.store.value) && Exec(w, env, call).Ok?
    ensures Exec(w, env, call).value.store.Some?
    ensures var s' := Exec(w, env, call).value.store.value;
            && (s'.state.Pending? ==> forall id :: id in s'.milestones ==> !s'.milestones[id].latePenaltyApplied)
            && (!s'.state.Pending? ==> Priced(s'))
  {
    hide ReorderMilestone, ScreenMembers, MarkOpenMilestonesDisputed, PayWithFee, PaySplit, Refund, Token.TransferFrom;
    if call.AcceptAmendment? {
      AcceptExact(w, env);
    }
  }

  lemma FundedPriced(s: Store, s': Store, now: U64, call: Call)
    requires !s.state.Pending? && Priced(s) && Change(s, s', now, call) && s.penaltyBps <= BPS_SCALE
    requires forall id :: id in s.milestones ==> 0 <= s.milestones[id].payout
    ensures Priced(s')
  {
    hide Share, Totals, Claimable;
    if call.Slash? {
      ShareOfAll(s.milestones[call.id].payout, s.penaltyBps);
    }
  }

  lemma StepPriced(w: World, now: U64, e: Event)
    requires Inv(w, now) && Legal(w, now, e) && (w.store.Some? ==> Priced(w.store.value))
    ensures Step(w, e).store.Some? ==> Priced(Step(w, e).store.value)
  {
    hide Exec, Priced, StoreInv, Solvent, Change;
    StepKeeps(w, now, e);
    if e.Invoke? && Exec(w, e.env, e.call).Ok? {
      var s' := Step(w, e).store;
      if w.store.None? {
        if !e.call.Init? {
          NotInitialised(w, e.env, e.call);
        }
        InitPriced(w, e.env, e.call);
        PendingPriced(s'.value, e.env.now);
      } else if w.store.value.state.Pending? {
        UnfundedPriced(w, e.env, e.call);
        if s'.value.state.Pending? {
          PendingPriced(s'.value, e.env.now);
        }
      } else {
        FundedStep(w, now, e);
        InvPayouts(w, now);
        FundedPriced(w.store.value, s'.value, e.env.now, e.call);
      }
    }
  }

  lemma InvPayouts(w: World, now: U64)
    requires Inv(w, now) && w.store.Some?
    ensures w.store.value.penaltyBps <= BPS_SCALE && w.store.value.feeBps <= BPS_SCALE
    ensures forall id :: id in w.store.value.milestones ==> 0 <= w.store.value.milestones[id].payout
  {
    hide Solvent, ListOk, BookOk, CommitteeOk, DocketOk, AmendmentOk;
  }

  lemma {:induction false} RunPriced(w: World, now: U64, events: seq<Event>)
    requires w.store.None? && Inv(w, now) && LegalRun(w, now, events)
    ensures Run(w, events).store.Some? ==> Priced(Run(w, events).store.value)
  {
    hide Inv, Legal, Step, Clock, Priced;
    if events != [] {
      var init := events[..|events| - 1];
      RunPriced(w, now, init);
      RunKeeps(w, now, init);
      StepPriced(Run(w, init), ClockAfter(now, init), events[|events| - 1]);
    }
  }

  lemma ReachablePriced(w: World, now: U64)
    requires Reachable(w, now) && w.store.Some?
    ensures Priced(w.store.value)
  {
    hide Run, ClockAfter, LegalRun, StoreInv, Priced;
    var w0: World, start: U64, events: seq<Event> :|
      w0.store.None? && LegalRun(w0, start, events) && w == Run(w0, events) && now == ClockAfter(start, events);
    RunPriced(w0, start, events);
  }

  /** A penalty of the full scale has been applied to the milestone. */
  predicate FullySlashed(s: Store, id: U32) {
    id in s.milestones && s.milestones[id].latePenaltyApplied && s.penaltyBps == BPS_SCALE
  }

  /** A lump sum goes through: the fee product fits, and each payee of a non-zero leg has room. */
  predicate GoesThrough(w: World, s: Store, gross: int) {
    var fee := Fee(gross, s.feeBps);
    && gross * s.feeBps <= I128_MAX
    && (fee == 0 || Room(w, s.treasury, fee))
    && (gross == fee || Room(w, s.config.recipient, gross - fee))
  }

  /** The exact condition, for all amounts and payees: in every reachable state an approval succeeds if
      and only if it is unpaused, properly signed, for an unapproved milestone, and either streams or
      is a lump sum that goes through and was not slashed at the full scale.  The book never blocks it.
      A success books the lump sum and pays it, less the fee. */
  lemma ApprovalSucceedsExactly(w: World, now: U64, env: Env, id: U32)
    requires Reachable(w, now) && w.store.Some?
    ensures var s := w.store.value; var r := ApproveMilestone(w, env, id);
            && (r.Ok? <==>
                  && !s.paused && SignedOff(s, env) && id in s.milestones && !s.milestones[id].isApproved
                  && (0 < s.milestones[id].vestingSecs
                      || (!FullySlashed(s, id) && GoesThrough(w, s, s.milestones[id].payout))))
            && (r.Ok? ==>
                  var lump := LumpSum(s.milestones[id]); var fee := Fee(lump, s.feeBps);
                  && r.value.self == w.self
                  && s.approved < |s.ids| && 0 <= lump && s.book.released + lump <= I128_MAX
                  && r.value.store == Some(ApprovedStore(s, env.now, id,
                                                         s.book.(released := s.book.released + lump)))
                  && Moved(w.token, r.value.token, w.self, s.treasury, fee, s.config.recipient, lump - fee))
  {
    hide Reachable, Inv, ApproveMilestone, Moved, RecordOk, ApprovedStore, Room, Share;
    ReachableInv(w, now);
    ReachablePriced(w, now);
    InvPayouts(w, now);
    InvReadyFor(w, now, id);
    ApproveExact(w, now, env, id);
  }

  /** A claim in a reachable state succeeds exactly when unpaused, signed by the recipient, in an Active
      or Completed escrow that was not settled, on an approved stream of which something new has vested
      that goes through; it pays exactly that, less the fee. */
  lemma ClaimSucceedsExactly(w: World, now: U64, env: Env, id: U32)
    requires Reachable(w, now) && w.store.Some? && now <= env.now
    ensures var s := w.store.value; var r := StreamMilestonePayout(w, env, id);
            && (r.Ok? <==>
                  && !s.paused && s.config.recipient in env.auths && (s.state.Active? || s.state.Completed?)
                  && !Settled(s) && Streaming(s, id) && VestingFits(s.milestones[id], env.now)
                  && 0 < Claimable(s.milestones[id], env.now)
                  && GoesThrough(w, s, Claimable(s.milestones[id], env.now)))
            && (r.Ok? ==>
                  var gross := Claimable(s.milestones[id], env.now); var fee := Fee(gross, s.feeBps);
                  && r.value.self == w.self && 0 <= s.milestones[id].payout && s.book.released + gross <= I128_MAX
                  && r.value.store == Some(s.(
                       milestones := s.milestones[id := ClaimedRecord(s.milestones[id], env.now)],
                       book := s.book.(released := s.book.released + gross)))
                  && Moved(w.token, r.value.token, w.self, s.treasury, fee, s.config.recipient, gross - fee))
  {
    hide Reachable, Inv, StreamMilestonePayout, Moved, RecordOk, ClaimedRecord, Claimable, VestingFits, Room, Share;
    ReachableInv(w, now);
    InvReadyFor(w, now, id);
    StreamExact(w, now, env, id);
  }

  /** A penalty in a reachable state succeeds exactly when unpaused, signed by the funder, while Active,
      on an unapproved milestone under review whose proof came after its deadline and that has not been
      slashed, as long as the product fits and the funder has room; it returns exactly the floored
      share. */
  lemma PenaltySucceedsExactly(w: World, now: U64, env: Env, id: U32)
    requires Reachable(w, now) && w.store.Some?
    ensures var s := w.store.value; var r := ApplyLatePenalty(w, env, id);
            && (r.Ok? <==>
                  && !s.paused && s.config.funder in env.auths && s.state.Active?
                  && id in s.milestones && Slashable(s.milestones[id])
                  && s.milestones[id].payout * s.penaltyBps <= I128_MAX
                  && (var slash := Share(s.milestones[id].payout, s.penaltyBps);
                      slash == 0 || Room(w, s.config.funder, slash)))
            && (r.Ok? ==>
                  var m := s.milestones[id]; var slash := Share(m.payout, s.penaltyBps);
                  && r.value.self == w.self && 0 <= slash <= m.payout && s.book.refunded + slash <= I128_MAX
                  && r.value.store == Some(s.(
                       milestones := s.milestones[id := m.(payout := m.payout - slash, latePenaltyApplied := true)],
                       book := s.book.(refunded := s.book.refunded + slash)))
                  && Moved(w.token, r.value.token, w.self, s.config.funder, slash, s.config.funder, 0))
  {
    hide Reachable, Inv, ApplyLatePenalty, Moved, RecordOk, Slashable, Room, Share;
    ReachableInv(w, now);
    InvReadyFor(w, now, id);
    SlashExact(w, now, env, id);
  }

  /** In particular nothing but room can be missing for a positive payout of up to a ten-thousandth of
      the i128 range. */
  lemma ApprovalNeverBlocked(w: World, now: U64, env: Env, id: U32)
    requires Reachable(w, now) && w.store.Some?
    requires var s := w.store.value;
             && !s.paused && SignedOff(s, env) && id in s.milestones && !s.milestones[id].isApproved
             && 0 < s.milestones[id].payout && s.milestones[id].payout * BPS_SCALE <= I128_MAX
    ensures ApproveMilestone(w, env, id).Err? ==>
              var s := w.store.value; var m := s.milestones[id]; var fee := Fee(m.payout, s.feeBps);
              && m.vestingSecs == 0
              && ((0 < fee && !Room(w, s.treasury, fee))
                  || (fee < m.payout && !Room(w, s.config.recipient, m.payout - fee)))
  {
    hide Reachable, Inv, ApproveMilestone, Moved, RecordOk, ApprovedStore, Room, SignedOff;
    ReachableInv(w, now);
    ReachablePriced(w, now);
    InvPayouts(w, now);
    var s := w.store.value;
    SmallProduct(s.milestones[id].payout, s.feeBps);
    ApprovalSucceedsExactly(w, now, env, id);
  }

  /** Once a lump-sum milestone is worthless its approval is refused to everybody, for ever, so the
      escrow never completes by approvals: only a settlement or a timeout can end it. */
  lemma {:induction false} WorthlessBlocksCompletion(w: World, now: U64, events: seq<Event>, id: U32)
    requires Inv(w, now) && LegalRun(w, now, events) && Funded(w) && Worthless(w.store.value, id)
    ensures Funded(Run(w, events)) && Worthless(Run(w, events).store.value, id)
    ensures Run(w, events).store.value.state.Completed? ==> Settled(Run(w, events).store.value)
    ensures forall env: Env :: Exec(Run(w, events), env, Approve(id)).Err?
  {
    hide Inv, Legal, Step, Clock, Exec, Worthless;
    if events != [] {
      var init, e := events[..|events| - 1], events[|events| - 1];
      WorthlessBlocksCompletion(w, now, init, id);
      RunKeeps(w, now, init);
      WorthlessStays(Run(w, init), ClockAfter(now, init), e, id);
    }
    RunKeeps(w, now, events);
    WorthlessNow(Run(w, events), ClockAfter(now, events), id);
  }

  lemma WorthlessNow(w: World, now: U64, id: U32)
    requires Inv(w, now) && Funded(w) && Worthless(w.store.value, id)
    ensures w.store.value.state.Completed? ==> Settled(w.store.value)
    ensures forall env: Env :: Exec(w, env, Approve(id)).Err?
  {
    hide Inv, ApproveMilestone, RecordOk, Moved, Room, Share, ApprovedStore;
    if w.store.value.state.Completed? && !Settled(w.store.value) {
      CompletedFacts(w, now, id);
      assert false;
    }
    forall env: Env ensures Exec(w, env, Approve(id)).Err? {
      InvReadyFor(w, now, id);
      ApproveExact(w, now, env, id);
    }
  }

  lemma WorthlessChange(s: Store, s': Store, now: U64, call: Call, id: U32)
    requires Change(s, s', now, call) && Worthless(s, id) && call != Approve(id)
    requires Share(0, s.penaltyBps) == 0
    ensures Worthless(s', id)
  {
    hide Share, Totals, Claimable, ClaimedRecord;
  }

  lemma WorthlessStays(w: World, now: U64, e: Event, id: U32)
    requires Inv(w, now) && Legal(w, now, e) && Funded(w) && Worthless(w.store.value, id)
    ensures Funded(Step(w, e)) && Worthless(Step(w, e).store.value, id)
  {
    hide Inv, Exec, Change, Worthless;
    FundedStep(w, now, e);
    if e.Invoke? && Exec(w, e.env, e.call).Ok? {
      assert e.call != Approve(id) by { WorthlessNow(w, now, id); }
      WorthlessChange(w.store.value, Step(w, e).store.value, e.env.now, e.call, id);
    }
  }
}
