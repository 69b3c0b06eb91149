/** The agreed terms: what initialisation accepts and stores, and how proposals and proofs last. */
module Terms {
  import opened Numeric
  import opened Results
  import opened EscrowMath
  import opened Storage
  import opened Payments
  import opened PaymentLaws
  import opened Schedules
  import opened Reordering
  import opened Committee
  import opened Lifecycle
  import opened Invariants
  import opened EntryLaws
  import opened Preservation
  import opened Effects
  import opened Runs

  // ----- What initialisation accepts -----

  function PayoutsOf(input: seq<Milestone>): int {
    if input == [] then 0 else PayoutsOf(input[..|input| - 1]) + input[|input| - 1].payout
  }

  /** Numbered 1, 2, ... with positive payouts whose sum fits. */
  predicate SoundSchedule(input: seq<Milestone>) {
    && (input == [] || |input| < U32_MAX)
    && (forall k :: 0 <= k < |input| ==> input[k].id == k + 1 && 0 < input[k].payout)
    && PayoutsOf(input) <= I128_MAX
  }

  /** The terms of `given` with nothing done yet, whatever progress `given` claims. */
  predicate Unstarted(m: Milestone, given: Milestone) {
    && m.id == given.id && m.payout == given.payout && m.description == given.description
    && m.vestingSecs == given.vestingSecs && m.deadline == given.deadline
    && m.status.Pending? && !m.isApproved && !m.latePenaltyApplied
    && m.streamed == 0 && m.completedAt == 0 && m.submittedAt == 0
  }

  /** The plan lists the given milestones in their order, with their terms and their exact total. */
  predicate Follows(plan: Plan, input: seq<Milestone>) {
    && plan.total == PayoutsOf(input) && |plan.ids| == |input|
    && (forall k :: 0 <= k < |input| ==>
          plan.ids[k] == input[k].id && input[k].id in plan.milestones
          && Unstarted(plan.milestones[input[k].id], input[k]))
    && forall id :: id in plan.milestones ==> 1 <= id <= |input|
  }

  lemma {:induction false} PositivePayouts(input: seq<Milestone>)
    requires forall k :: 0 <= k < |input| ==> 0 < input[k].payout
    ensures 0 <= PayoutsOf(input)
  {
    if input != [] {
      PositivePayouts(input[..|input| - 1]);
    }
  }

  lemma SoundSnoc(init: seq<Milestone>, last: Milestone)
    ensures SoundSchedule(init + [last]) <==>
            SoundSchedule(init) && last.id == |init| + 1 < U32_MAX && 0 < last.payout
            && PayoutsOf(init) + last.payout <= I128_MAX
  {
    var input := init + [last];
    assert input[..|input| - 1] == init && input[|init|] == last;
    if SoundSchedule(input) {
      forall k | 0 <= k < |init| ensures init[k].id == k + 1 && 0 < init[k].payout {
        assert input[k] == init[k];
      }
    }
  }

  lemma FollowsSnoc(plan: Plan, init: seq<Milestone>, last: Milestone, plan': Plan)
    requires Follows(plan, init) && last.id == |init| + 1
    requires forall k :: 0 <= k < |init| ==> init[k].id == k + 1
    requires plan'.ids == plan.ids + [last.id] && plan'.milestones == plan.milestones[last.id := Fresh(last)]
    requires plan'.total == plan.total + last.payout
    ensures Follows(plan', init + [last])
  {
    var input := init + [last];
    assert input[..|input| - 1] == init;
  }

  /** The checks accept exactly the sound schedules, and the plan follows the schedule given. */
  lemma {:induction false} PlanExact(input: seq<Milestone>)
    ensures PlanOf(input).Ok? <==> SoundSchedule(input)
    ensures PlanOf(input).Ok? ==> Follows(PlanOf(input).value, input)
  {
    if input != [] {
      var init, last := input[..|input| - 1], input[|input| - 1];
      assert input == init + [last];
      PlanExact(init);
      SoundSnoc(init, last);
      assert SoundSchedule(init) ==> PlanOf(init).value.total == PayoutsOf(init);
      if SoundSchedule(init) {
        PositivePayouts(init);
      }
      assert PlanOf(input).Ok? <==> SoundSchedule(input) by { hide SoundSchedule, Follows; }
      if PlanOf(input).Ok? {
        FollowsSnoc(PlanOf(init).value, init, last, PlanOf(input).value);
      }
    }
  }

  /** Initialisation succeeds exactly once, signed by the funder, with distinct roles, a plausible
      asset and a sound schedule, and stores those terms with nothing paid and nothing decided. */
  lemma InitializeExact(w: World, env: Env, funder: Address, recipient: Address, arbitrator: Address,
                        asset: Address, decimals: Option<U32>, milestones: Vec<Milestone>)
    ensures var r := Initialize(w, env, funder, recipient, arbitrator, asset, decimals, milestones);
            && (r.Ok? <==>
                  && w.store.None? && funder in env.auths
                  && |{funder, recipient, arbitrator}| == 3 && asset !in {funder, recipient, arbitrator}
                  && decimals.Some? && 1 <= decimals.value <= 18
                  && milestones != [] && SoundSchedule(milestones))
            && (r.Ok? ==>
                  && r.value.self == w.self && r.value.token == w.token && r.value.store.Some?
                  && (var s := r.value.store.value; var c := s.config;
                      && Follows(Plan(s.ids, s.milestones, c.totalAmount), milestones)
                      && c.funder == funder && c.recipient == recipient && c.arbitrator == arbitrator
                      && c.asset == asset
                      && c.releaseThreshold == |milestones| && c.lockSecs == 30 * 24 * 3600
                      && s.state.Pending? && s.book == Book(0, 0, 0) && s.approved == 0 && s.lockUntil == 0
                      && s.admin == funder && s.treasury == funder && s.feeBps == 0 && s.penaltyBps == 500 && !s.paused
                      && s.arbitrators == ArbitratorSet([arbitrator], 1)
                      && s.proofs == map[] && s.evidence == [] && s.dispute.None? && s.amendment.None?))
  {
    hide PlanOf, SoundSchedule, Follows;
    PlanExact(milestones);
    DistinctThree(funder, recipient, arbitrator);
    var r := Initialize(w, env, funder, recipient, arbitrator, asset, decimals, milestones);
    if r.Ok? {
      var plan, s := PlanOf(milestones).value, r.value.store.value;
      assert plan == Plan(s.ids, s.milestones, s.config.totalAmount);
      PlanLength(milestones);
    }
  }

  lemma DistinctThree(a: Address, b: Address, c: Address)
    ensures |{a, b, c}| == 3 <==> a != b && b != c && a != c
  {
    if a == b {
      assert {a, b, c} == {a, c};
    } else if b == c || a == c {
      assert {a, b, c} == {a, b};
    }
  }

  // ----- Rates and committee -----

  /** The penalty can be set by the funder alone, the fee by the admin, both within the scale and only
      before funding; the treasury is never the recipient. */
  lemma RatesExact(w: World, now: U64, env: Env, bps: U32, treasury: Address)
    requires Inv(w, now) && w.store.Some?
    ensures var s := w.store.value; var c := s.config;
            var penalty, fee := Exec(w, env, SetPenalty(bps)), Exec(w, env, SetFee(treasury, bps));
            var open := !s.paused && s.state.Pending? && c.funder in env.auths && bps <= BPS_SCALE;
            && (penalty.Ok? <==> open) && (fee.Ok? <==> open && treasury != c.recipient)
            && (penalty.Ok? ==> penalty.value == w.Put(s.(penaltyBps := bps)))
            && (fee.Ok? ==> fee.value == w.Put(s.(feeBps := bps, treasury := treasury)))
  {
    hide Inv;
    TermsOfInv(w, now);
  }

  /** A committee is installed exactly with both signatures, before any dispute, when its members are
      distinct outsiders and the threshold can be met. */
  lemma CommitteeExact(w: World, now: U64, env: Env, members: Vec<Address>, threshold: U32)
    requires Inv(w, now) && w.store.Some?
    ensures var s := w.store.value; var c := s.config; var r := Exec(w, env, SetCommittee(members, threshold));
            && (r.Ok? <==>
                  && !s.paused && (s.state.Pending? || s.state.Active?)
                  && c.funder in env.auths && c.recipient in env.auths
                  && CommitteeOk(c, ArbitratorSet(members, threshold)))
            && (r.Ok? ==> r.value == w.Put(s.(arbitrators := ArbitratorSet(members, threshold))))
  {
    hide Inv, ScreenMembers;
    TermsOfInv(w, now);
    ScreenedMembers(members, w.store.value.config);
  }

  // ----- Proposals -----

  predicate Negotiates(call: Call) {
    call.ProposeAmendment? || call.AcceptAmendment?
  }

  /** A stored proposal and what it refers to are still there. */
  predicate SameProposal(w: World, r: Result<World>) {
    r.Ok? && w.store.Some? ==>
      && r.value.store.Some?
      && (var s, s' := w.store.value, r.value.store.value;
          && s'.amendment == s.amendment && |s'.ids| == |s.ids|
          && forall id :: id in s.milestones ==> id in s'.milestones)
  }

  lemma LegsKeepProposal(w: World, to: Address, amount: I128)
    ensures SameProposal(w, Refund(w, to, amount)) && SameProposal(w, Release(w, to, amount))
  {
    hide Token.Transfer;
  }

  lemma FeeKeepsProposal(w: World, recipient: Address, gross: I128)
    ensures SameProposal(w, PayWithFee(w, recipient, gross))
  {
    hide Release, DisbursementSplit;
    if w.store.Some? && PayWithFee(w, recipient, gross).Ok? {
      var (fee, net) := DisbursementSplit(w.store.value, gross).value;
      LegsKeepProposal(w, w.store.value.treasury, fee);
      LegsKeepProposal(Release(w, w.store.value.treasury, fee).value, recipient, net);
    }
  }

  lemma SplitKeepsProposal(w: World, s: Store, dispute: DisputeRecord, funderBps: U32, recipientBps: U32)
    ensures SameProposal(w, PaySplit(w, s, dispute, funderBps, recipientBps))
  {
    hide Refund, Release, SplitAmount;
    if w.store.Some? && PaySplit(w, s, dispute, funderBps, recipientBps).Ok? {
      var (back, rest) := SplitAmount(s.book.Locked(), funderBps, recipientBps).value;
      LegsKeepProposal(w, s.config.funder, back);
      LegsKeepProposal(Refund(w, s.config.funder, back).value, s.config.recipient, rest);
    }
  }

  lemma DisbursementsKeepProposal(w: World, env: Env, id: U32)
    ensures SameProposal(w, ApproveMilestone(w, env, id)) && SameProposal(w, StreamMilestonePayout(w, env, id))
  {
    hide PayWithFee, VestedAmount;
    if w.store.Some? && id in w.store.value.milestones {
      var s, m := w.store.value, w.store.value.milestones[id];
      FeeKeepsProposal(w, s.config.recipient, m.payout);
      if StreamMilestonePayout(w, env, id).Ok? {
        var vested := VestedAmount(m.payout, m.completedAt, m.completedAt + m.vestingSecs, env.now).value;
        FeeKeepsProposal(w, s.config.recipient, vested - m.streamed);
      }
    }
  }

  lemma ReturnsKeepProposal(w: World, env: Env, id: U32)
    ensures SameProposal(w, ApplyLatePenalty(w, env, id)) && SameProposal(w, ClaimTimeoutRefund(w, env))
  {
    hide Refund, ApplyPenalty, UnstreamedObligation;
    if w.store.Some? {
      var s := w.store.value;
      if ApplyLatePenalty(w, env, id).Ok? {
        LegsKeepProposal(w, s.config.funder, ApplyPenalty(s.milestones[id].payout, s.penaltyBps).value.0);
      }
      if ClaimTimeoutRefund(w, env).Ok? {
        LegsKeepProposal(w, s.config.funder, s.book.Locked() - UnstreamedObligation(s.ids, s.milestones).value);
      }
    }
  }

  lemma SettlementsKeepProposal(w: World, env: Env, funderBps: U32, recipientBps: U32, signers: Vec<Address>)
    ensures SameProposal(w, ResolveDispute(w, env, funderBps, recipientBps))
    ensures SameProposal(w, SettleWithQuorum(w, env, funderBps, recipientBps, signers))
  {
    hide PaySplit, ScreenSigners, RequireQuorum;
    if w.store.Some? && w.store.value.dispute.Some? {
      SplitKeepsProposal(w, w.store.value, w.store.value.dispute.value, funderBps, recipientBps);
    }
  }

  lemma AmendmentStays(w: World, env: Env, call: Call)
    requires w.store.Some? && !Negotiates(call)
    ensures SameProposal(w, Exec(w, env, call))
  {
    hide PlanOf, ScreenMembers, Token.TransferFrom, ApproveMilestone, StreamMilestonePayout,
         ApplyLatePenalty, ClaimTimeoutRefund, ResolveDispute, SettleWithQuorum;
    match call
    case Approve(id) => DisbursementsKeepProposal(w, env, id);
    case Stream(id) => DisbursementsKeepProposal(w, env, id);
    case Slash(id) => ReturnsKeepProposal(w, env, id);
    case TimeoutRefund => ReturnsKeepProposal(w, env, 0);
    case Resolve(funderBps, recipientBps) => SettlementsKeepProposal(w, env, funderBps, recipientBps, []);
    case SettleQuorum(funderBps, recipientBps, signers) =>
      SettlementsKeepProposal(w, env, funderBps, recipientBps, signers);
    case _ =>
  }

  lemma {:induction false} ProposalStays(w: World, events: seq<Event>)
    requires w.store.Some?
    requires forall i :: 0 <= i < |events| && events[i].Invoke? ==> !Negotiates(events[i].call)
    ensures Run(w, events).store.Some?
    ensures Run(w, events).store.value.amendment == w.store.value.amendment
  {
    hide Exec, Negotiates;
    if events != [] {
      var init, e := events[..|events| - 1], events[|events| - 1];
      ProposalStays(w, init);
      assert e == events[|events| - 1];
      if e.Invoke? && Exec(Run(w, init), e.env, e.call).Ok? {
        AmendmentStays(Run(w, init), e.env, e.call);
      }
    }
  }

  lemma ProposalStored(w: World, env: Env, call: Call)
    requires w.store.Some? && call.ProposeAmendment? && Exec(w, env, call).Ok?
    ensures Exec(w, env, call).value.store.Some?
    ensures var a := Exec(w, env, call).value.store.value.amendment;
            a.Some? && a.value.milestoneId == call.id && a.value.payout == call.payout
            && a.value.description == call.description && a.value.newPosition == call.newPosition
  {
  }

  /** The store after a proposal for `id` took effect: the text and the display order, and only while
      unfunded the payout and with it the total; nothing else. */
  predicate TookEffect(s: Store, s': Store, id: U32, payout: I128, description: Hash, newPosition: U32) {
    id in s.milestones &&
    (var m := s.milestones[id];
     var price := if s.state.Pending? then payout else m.payout;
     && s'.config == s.config.(totalAmount := s'.config.totalAmount)
     && s'.config.totalAmount == s.config.totalAmount - m.payout + price
     && s' == s.(config := s'.config, ids := s'.ids, amendment := None,
                 milestones := s.milestones[id := m.(description := description, payout := price)])
     && |s'.ids| == |s.ids| && newPosition < |s'.ids| && s'.ids[newPosition] == id
     && Without(s'.ids, id) == Without(s.ids, id))
  }

  /** What is accepted is what was proposed, whatever happened between. */
  lemma ProposalTakesEffect(w: World, now: U64, env: Env, call: Call, events: seq<Event>, last: Env)
    requires Inv(w, now) && w.store.Some? && call.ProposeAmendment? && Legal(w, now, Invoke(env, call))
    requires Exec(w, env, call).Ok?
    requires LegalRun(Exec(w, env, call).value, env.now, events)
    requires forall i :: 0 <= i < |events| && events[i].Invoke? ==> !Negotiates(events[i].call)
    requires Exec(Run(Exec(w, env, call).value, events), last, AcceptAmendment).Ok?
    ensures var before := Run(Exec(w, env, call).value, events);
            var after := Exec(before, last, AcceptAmendment).value;
            && before.store.Some? && after == before.(store := after.store) && after.store.Some?
            && TookEffect(before.store.value, after.store.value,
                          call.id, call.payout, call.description, call.newPosition)
  {
    hide Inv, Exec, Negotiates, TookEffect;
    var w1 := Exec(w, env, call).value;
    StepKeeps(w, now, Invoke(env, call));
    ProposalStored(w, env, call);
    ProposalStays(w1, events);
    RunKeeps(w1, env.now, events);
    AcceptedAsProposed(Run(w1, events), ClockAfter(env.now, events), last);
  }

  lemma AcceptedAsProposed(w: World, now: U64, env: Env)
    requires Inv(w, now) && w.store.Some? && w.store.value.amendment.Some? && Exec(w, env, AcceptAmendment).Ok?
    ensures var after := Exec(w, env, AcceptAmendment).value; var a := w.store.value.amendment.value;
            && after.store.Some? && after == w.(store := after.store)
            && TookEffect(w.store.value, after.store.value, a.milestoneId, a.payout, a.description, a.newPosition)
  {
    hide Solvent, BookOk, TermsOk, RecordOk, ReorderMilestone, Without;
    AcceptExact(w, env);
    var a := w.store.value.amendment.value;
    ReorderExact(w.store.value.ids, a.milestoneId, a.newPosition);
  }

  // ----- Proofs -----

  lemma {:induction false} ProofStays(w: World, now: U64, events: seq<Event>, id: U32)
    requires Inv(w, now) && LegalRun(w, now, events) && Funded(w)
    requires id in w.store.value.milestones && !w.store.value.milestones[id].status.Pending?
    requires id in w.store.value.proofs
    ensures Funded(Run(w, events)) && id in Run(w, events).store.value.milestones
    ensures !Run(w, events).store.value.milestones[id].status.Pending?
    ensures id in Run(w, events).store.value.proofs
    ensures Run(w, events).store.value.proofs[id] == w.store.value.proofs[id]
  {
    hide Inv, Legal, Step, Clock, Exec, Change, TermsFrozen;
    if events != [] {
      var init, e := events[..|events| - 1], events[|events| - 1];
      var w1, now1 := Run(w, init), ClockAfter(now, init);
      ProofStays(w, now, init, id);
      RunKeeps(w, now, init);
      StepFrames(w1, now1, e);
      FundedStep(w1, now1, e);
      if e.Invoke? && Exec(w1, e.env, e.call).Ok? {
        ChangeKeepsProof(w1.store.value, Step(w1, e).store.value, e.env.now, e.call, id);
      }
    }
  }

  lemma ChangeKeepsProof(s: Store, s': Store, now: U64, call: Call, id: U32)
    requires Change(s, s', now, call) && id in s.milestones && !s.milestones[id].status.Pending? && id in s.proofs
    ensures id in s'.proofs && s'.proofs[id] == s.proofs[id]
  {
    hide Totals, Share, Claimable, ClaimedRecord;
  }

  /** A submitted proof is on record for good: no later run removes or replaces it. */
  lemma ProofIsPermanent(w: World, now: U64, env: Env, id: U32, hash: Hash, events: seq<Event>)
    requires Inv(w, now) && Funded(w) && Legal(w, now, Invoke(env, Proof(id, hash)))
    requires Exec(w, env, Proof(id, hash)).Ok?
    requires LegalRun(Exec(w, env, Proof(id, hash)).value, env.now, events)
    ensures var w' := Run(Exec(w, env, Proof(id, hash)).value, events);
            w'.store.Some? && id in w'.store.value.proofs && w'.store.value.proofs[id] == hash
  {
    hide Inv, Exec, Run, LegalRun;
    var e := Invoke(env, Proof(id, hash));
    StepKeeps(w, now, e);
    FundedStep(w, now, e);
    ProofStays(Step(w, e), env.now, events, id);
  }
}
