/** Every entrypoint keeps the invariant. */
module Preservation {
  import opened Numeric
  import opened Results
  import opened EscrowMath
  import opened Storage
  import opened Payments
  import opened PaymentLaws
  import opened Tallies
  import opened Schedules
  import opened Reordering
  import opened Committee
  import opened Lifecycle
  import opened Invariants
  import opened EntryLaws

  /** Rewriting one record soundly keeps the list and the records, and moves the totals by the
      difference of the two weights. */
  lemma RewriteKeeps(s: Store, now: U64, later: U64, id: U32, m: Milestone)
    requires ListOk(s) && RecordsOk(s, now) && now <= later
    requires id in s.milestones && m.id == id && RecordOk(m, later)
    ensures var s' := s.(milestones := s.milestones[id := m]);
            && ListOk(s') && RecordsOk(s', later)
            && Totals(s') == Totals(s).Minus(Weight(s.milestones[id])).Plus(Weight(m))
  {
    var s' := s.(milestones := s.milestones[id := m]);
    forall x | x in s'.milestones ensures s'.milestones[x].id == x && RecordOk(s'.milestones[x], later) {
      if x != id {
        RecordOkLater(s.milestones[x], now, later);
      }
    }
    SumUpdate(s.ids, s.milestones, id, m);
  }

  /** A change that leaves milestones, money and lifecycle alone only has to respect the terms. */
  lemma QuietKeeps(w: World, now: U64, s': Store)
    requires Inv(w, now) && w.store.Some? && TermsOk(s')
    requires var s := w.store.value;
             s'.ids == s.ids && s'.milestones == s.milestones && s'.book == s.book && s'.state == s.state
             && s'.dispute == s.dispute && s'.approved == s.approved && s'.config == s.config
    ensures Inv(w.Put(s'), now)
  {
    hide Sum, RecordOk, TermsOk;
    assert Totals(s') == Totals(w.store.value);
  }

  // ----- initialize -----

  lemma {:induction false} PlanShape(input: seq<Milestone>)
    ensures PlanOf(input).Ok? ==>
              var plan := PlanOf(input).value;
              && (forall k :: 0 <= k < |plan.ids| ==> plan.ids[k] == k + 1)
              && |plan.ids| == |input|
              && (forall id :: id in plan.milestones <==> 1 <= id <= |input|)
              && (forall id :: id in plan.milestones ==>
                    var m := plan.milestones[id]; m == Fresh(m) && m.id == id && 0 < m.payout)
  {
    if input != [] {
      PlanShape(input[..|input| - 1]);
    }
  }

  lemma {:induction false} PlanTotals(input: seq<Milestone>)
    ensures PlanOf(input).Ok? ==>
              var plan := PlanOf(input).value; var t := Sum(plan.ids, plan.milestones);
              plan.total == t.payout && t.streamed == 0 && t.approved == 0 && |plan.ids| <= plan.total
  {
    PlanShape(input);
    if input != [] {
      var init, m := input[..|input| - 1], input[|input| - 1];
      PlanShape(init);
      PlanTotals(init);
      if PlanOf(input).Ok? {
        PlanStep(PlanOf(init).value, m);
      }
    }
  }

  lemma PlanStep(plan: Plan, m: Milestone)
    requires forall k :: 0 <= k < |plan.ids| ==> plan.ids[k] != m.id
    ensures Sum(plan.ids + [m.id], plan.milestones[m.id := Fresh(m)]) ==
            Sum(plan.ids, plan.milestones).Plus(Weight(Fresh(m)))
  {
    var ids, after := plan.ids + [m.id], plan.milestones[m.id := Fresh(m)];
    assert ids[..|ids| - 1] == plan.ids;
    TotalCongruent(plan.ids, Weights(plan.milestones), Weights(after));
  }

  lemma InitializeKeeps(w: World, now: U64, env: Env, funder: Address, recipient: Address, arbitrator: Address,
                        asset: Address, decimals: Option<U32>, milestones: Vec<Milestone>)
    requires Inv(w, now) && now <= env.now && w.self !in env.auths
    ensures var r := Initialize(w, env, funder, recipient, arbitrator, asset, decimals, milestones);
            r.Ok? ==> Inv(r.value, env.now)
  {
    hide PlanOf, Sum;
    PlanShape(milestones);
    PlanTotals(milestones);
    var r := Initialize(w, env, funder, recipient, arbitrator, asset, decimals, milestones);
    if r.Ok? {
      var s := r.value.store.value;
      assert ListOk(s) by { FirstIds(s.ids); }
    }
  }

  lemma FirstIds(ids: seq<U32>)
    requires forall k :: 0 <= k < |ids| ==> ids[k] == k + 1
    ensures forall id: U32 :: id in ids <==> 1 <= id <= |ids|
  {
    forall id: U32 | 1 <= id <= |ids| ensures id in ids {
      assert ids[id - 1] == id;
    }
  }

  // ----- funding and configuration -----

  lemma DepositKeeps(w: World, now: U64, env: Env)
    requires Inv(w, now) && now <= env.now && w.store.Some?
    ensures var r := DepositFunds(w, env); r.Ok? ==> Inv(r.value, env.now)
  {
    hide StoreInv, DepositFunds, Solvent;
    InvLater(w, now, env.now);
    InvReady(w, now);
    DepositExact(w, env);
    var r := DepositFunds(w, env);
    if r.Ok? {
      DepositedKeeps(w.store.value, r.value.store.value, env.now);
    }
  }

  lemma DepositedKeeps(s: Store, s': Store, now: U64)
    requires StoreInv(s, now) && s.state.Pending?
    requires s' == s.(book := s.book.(deposited := s.config.totalAmount), state := EscrowState.Active,
                      lockUntil := s'.lockUntil)
    ensures StoreInv(s', now)
  {
    hide TermsOk, RecordOk, NoDuplicates;
    SaneRecords(s, now);
    SumLaws(s.ids, s.milestones);
    NothingStreamed(s, now);
    assert TermsOk(s') by { TermsKept(s, s'); }
  }

  lemma TermsKept(s: Store, s': Store)
    requires TermsOk(s)
    requires s'.config == s.config && s'.admin == s.admin && s'.penaltyBps == s.penaltyBps && s'.feeBps == s.feeBps
             && s'.treasury == s.treasury && s'.arbitrators == s.arbitrators && s'.evidence == s.evidence
             && s'.amendment == s.amendment
    ensures TermsOk(s')
  {
  }

  /** Before anything is approved nothing has been streamed. */
  lemma NothingStreamed(s: Store, now: U64)
    requires ListOk(s) && RecordsOk(s, now) && Totals(s).approved == 0
    ensures Totals(s).streamed == 0 && Totals(s).owed == 0
  {
    hide RecordOk, Vested;
    SaneRecords(s, now);
    NoneApproved(s.ids, s.milestones);
  }

  lemma {:induction false} NoneApproved(ids: seq<U32>, milestones: map<U32, Milestone>)
    requires AllSane(ids, milestones) && Sum(ids, milestones).approved == 0
    ensures Sum(ids, milestones).streamed == 0 && Sum(ids, milestones).owed == 0
  {
    if ids != [] {
      var init := ids[..|ids| - 1];
      assert ids[|ids| - 1] in ids;
      SumLaws(init, milestones);
      NoneApproved(init, milestones);
    }
  }

  predicate QuietChange(w: World, w': World) {
    w.store.Some? && w'.store.Some? && w' == w.Put(w'.store.value) &&
    (var s, s' := w.store.value, w'.store.value;
     && TermsOk(s')
     && s'.ids == s.ids && s'.milestones == s.milestones && s'.book == s.book && s'.state == s.state
     && s'.dispute == s.dispute && s'.approved == s.approved && s'.config == s.config)
  }

  lemma SwitchesQuiet(w: World, env: Env, call: Call)
    requires w.store.Some? && TermsOk(w.store.value)
    requires call.Pause? || call.Unpause? || call.SetPenalty? || call.SetFee?
    ensures Exec(w, env, call).Ok? ==> QuietChange(w, Exec(w, env, call).value)
  {
    hide CommitteeOk, DocketOk, AmendmentOk;
  }

  lemma ProposalQuiet(w: World, env: Env, call: Call)
    requires w.store.Some? && TermsOk(w.store.value) && call.ProposeAmendment?
    ensures Exec(w, env, call).Ok? ==> QuietChange(w, Exec(w, env, call).value)
  {
    hide CommitteeOk, DocketOk;
  }

  lemma EvidenceQuiet(w: World, env: Env, call: Call)
    requires w.store.Some? && TermsOk(w.store.value) && call.AddEvidence?
    ensures Exec(w, env, call).Ok? ==> QuietChange(w, Exec(w, env, call).value)
  {
    hide CommitteeOk, AmendmentOk;
  }

  lemma CommitteeQuiet(w: World, env: Env, call: Call)
    requires w.store.Some? && TermsOk(w.store.value) && call.SetCommittee?
    ensures Exec(w, env, call).Ok? ==> QuietChange(w, Exec(w, env, call).value)
  {
    hide DocketOk, AmendmentOk, ScreenMembers;
    ScreenedMembers(call.members, w.store.value.config);
  }

  /** Switches, proposals, evidence and committee changes keep the invariant. */
  lemma ConfigurationKeeps(w: World, now: U64, env: Env, call: Call)
    requires Inv(w, now) && now <= env.now && w.store.Some?
    requires call.Pause? || call.Unpause? || call.SetPenalty? || call.SetFee? || call.AddEvidence?
             || call.ProposeAmendment? || call.SetCommittee?
    ensures Exec(w, env, call).Ok? ==> Inv(Exec(w, env, call).value, env.now)
  {
    hide Exec, Inv, TermsOk;
    InvLater(w, now, env.now);
    TermsOfInv(w, now);
    if call.ProposeAmendment? {
      ProposalQuiet(w, env, call);
    } else if call.AddEvidence? {
      EvidenceQuiet(w, env, call);
    } else if call.SetCommittee? {
      CommitteeQuiet(w, env, call);
    } else {
      SwitchesQuiet(w, env, call);
    }
    if Exec(w, env, call).Ok? {
      QuietKeeps(w, env.now, Exec(w, env, call).value.store.value);
    }
  }

  lemma TermsOfInv(w: World, now: U64)
    requires Inv(w, now) && w.store.Some?
    ensures TermsOk(w.store.value)
  {
  }

  /** Members pass the screen exactly when they are pairwise distinct and none of them is a party. */
  lemma {:induction false} ScreenedMembers(members: seq<Address>, config: Config)
    ensures ScreenMembers(members, config).Pass? <==>
            NoDuplicates(members) && config.funder !in members && config.recipient !in members
  {
    if members != [] {
      var init, last := members[..|members| - 1], members[|members| - 1];
      ScreenedMembers(init, config);
      assert members == init + [last];
    }
  }

  // ----- work on milestones -----

  lemma ProofKeeps(w: World, now: U64, env: Env, id: U32, proof: Hash)
    requires Inv(w, now) && now <= env.now && w.store.Some?
    ensures var r := SubmitMilestoneProof(w, env, id, proof); r.Ok? ==> Inv(r.value, env.now)
  {
    hide Solvent, StoreInv, RecordOk;
    var r := SubmitMilestoneProof(w, env, id, proof);
    if r.Ok? {
      InvReadyFor(w, now, id);
      ProvenKeeps(w.store.value, r.value.store.value, now, env.now, id);
      assert Solvent(r.value) by { SolventKept(w, r.value); }
    }
  }

  lemma SolventKept(w: World, w': World)
    requires Solvent(w) && w.store.Some? && w'.store.Some?
    requires w'.self == w.self && w'.token == w.token && w'.store.value.book == w.store.value.book
    ensures Solvent(w')
  {
  }

  lemma ProvenKeeps(s: Store, s': Store, now: U64, later: U64, id: U32)
    requires StoreInv(s, now) && now <= later && s.state.Active?
    requires id in s.milestones && !s.milestones[id].isApproved
    requires var m := s.milestones[id].(status := MilestoneStatus.UnderReview, submittedAt := later);
             s' == s.(milestones := s.milestones[id := m], proofs := s'.proofs)
    ensures StoreInv(s', later)
  {
    hide TermsOk, NoDuplicates, Sum;
    var m := s.milestones[id].(status := MilestoneStatus.UnderReview, submittedAt := later);
    RewriteKeeps(s, now, later, id, m);
    assert TermsOk(s') by { TermsKept(s, s'); }
  }

  lemma ApproveKeeps(w: World, now: U64, env: Env, id: U32)
    requires Inv(w, now) && now <= env.now && w.store.Some?
    ensures var r := ApproveMilestone(w, env, id); r.Ok? ==> Inv(r.value, env.now)
  {
    hide Solvent, StoreInv, ApproveMilestone, Payable, Moved, RecordOk, ApprovedStore;
    InvReadyFor(w, now, id);
    ApproveExact(w, now, env, id);
    var r := ApproveMilestone(w, env, id);
    if r.Ok? {
      var s := w.store.value;
      ConsistentBook(w);
      var book := s.book.(released := s.book.released + LumpSum(s.milestones[id]));
      ApprovedKeeps(s, now, env.now, id, book);
      assert ApprovedStore(s, env.now, id, book).config == s.config by { SameConfig(s, env.now, id, book); }
    }
  }

  lemma SameConfig(s: Store, now: U64, id: U32, book: Book)
    requires id in s.milestones && s.approved < |s.ids|
    ensures ApprovedStore(s, now, id, book).config == s.config
  {
  }

  lemma ApprovedKeeps(s: Store, now: U64, later: U64, id: U32, book: Book)
    requires StoreInv(s, now) && now <= later && (s.state.Active? || s.state.Disputed?)
    requires id in s.milestones && !s.milestones[id].isApproved && s.approved < |s.ids|
    requires LumpSum(s.milestones[id]) <= s.book.Balance()
    requires book.deposited == s.book.deposited && book.refunded == s.book.refunded
    requires book.released == s.book.released + LumpSum(s.milestones[id])
    ensures StoreInv(ApprovedStore(s, later, id, book), later)
  {
    hide TermsOk, NoDuplicates, Sum, Vested;
    var s' := ApprovedStore(s, later, id, book);
    RewriteKeeps(s, now, later, id, ApprovedRecord(s.milestones[id], later));
    assert TermsOk(s') by { TermsKept(s, s'); }
  }

  lemma StreamKeeps(w: World, now: U64, env: Env, id: U32)
    requires Inv(w, now) && now <= env.now && w.store.Some?
    ensures var r := StreamMilestonePayout(w, env, id); r.Ok? ==> Inv(r.value, env.now)
  {
    hide Solvent, StoreInv, StreamMilestonePayout, Payable, Moved, RecordOk, VestedSoFar, VestingFits;
    InvReadyFor(w, now, id);
    StreamExact(w, now, env, id);
    var r := StreamMilestonePayout(w, env, id);
    if r.Ok? {
      ClaimedKeeps(w.store.value, r.value.store.value, now, env.now, id);
    }
  }

  lemma ClaimedKeeps(s: Store, s': Store, now: U64, later: U64, id: U32)
    requires StoreInv(s, now) && now <= later && (s.state.Active? || s.state.Completed?) && !Settled(s)
    requires Streaming(s, id) && 0 <= s.milestones[id].payout
    requires 0 < Claimable(s.milestones[id], later) <= s.book.Balance()
    requires s.book.released + Claimable(s.milestones[id], later) <= I128_MAX
    requires s' == s.(milestones := s.milestones[id := ClaimedRecord(s.milestones[id], later)],
                      book := s.book.(released := s.book.released + Claimable(s.milestones[id], later)))
    ensures StoreInv(s', later)
  {
    hide TermsOk, NoDuplicates, Sum, Vested;
    RewriteKeeps(s, now, later, id, ClaimedRecord(s.milestones[id], later));
    assert TermsOk(s') by { TermsKept(s, s'); }
  }

  lemma SlashKeeps(w: World, now: U64, env: Env, id: U32)
    requires Inv(w, now) && now <= env.now && w.store.Some?
    ensures var r := ApplyLatePenalty(w, env, id); r.Ok? ==> Inv(r.value, env.now)
  {
    hide Solvent, StoreInv, ApplyLatePenalty, Room, Moved, RecordOk, Share;
    InvReadyFor(w, now, id);
    SlashExact(w, now, env, id);
    var r := ApplyLatePenalty(w, env, id);
    if r.Ok? {
      var s := w.store.value;
      SlashedKeeps(s, r.value.store.value, now, env.now, id, Share(s.milestones[id].payout, s.penaltyBps));
    }
  }

  lemma SlashedKeeps(s: Store, s': Store, now: U64, later: U64, id: U32, slash: int)
    requires StoreInv(s, now) && now <= later && s.state.Active?
    requires id in s.milestones && !s.milestones[id].isApproved && s.milestones[id].status.UnderReview?
    requires 0 <= slash <= s.milestones[id].payout && slash <= s.book.Balance() && s.book.refunded + slash <= I128_MAX
    requires var m := s.milestones[id];
             s' == s.(milestones := s.milestones[id := m.(payout := m.payout - slash, latePenaltyApplied := true)],
                      book := s.book.(refunded := s.book.refunded + slash))
    ensures StoreInv(s', later)
  {
    hide TermsOk, NoDuplicates, Sum;
    var m := s.milestones[id];
    RewriteKeeps(s, now, later, id, m.(payout := m.payout - slash, latePenaltyApplied := true));
    assert TermsOk(s') by { TermsKept(s, s'); }
  }

  // ----- disputes and endings -----

  function AllMarked(milestones: map<U32, Milestone>): map<U32, Milestone> {
    map id | id in milestones :: MarkDisputed(milestones[id])
  }

  /** Marking disputes changes no amount and no approval. */
  lemma {:induction false} MarkingKeepsSums(ids: seq<U32>, milestones: map<U32, Milestone>)
    requires forall id :: id in ids ==> id in milestones
    ensures var before, after := Sum(ids, milestones), Sum(ids, AllMarked(milestones));
            after == before.(pending := 0)
  {
    if ids != [] {
      assert ids[|ids| - 1] in ids;
      MarkingKeepsSums(ids[..|ids| - 1], milestones);
    }
  }

  lemma RaiseKeeps(w: World, now: U64, env: Env)
    requires Inv(w, now) && now <= env.now && w.store.Some?
    ensures var r := RaiseDispute(w, env); r.Ok? ==> Inv(r.value, env.now)
  {
    hide Solvent, StoreInv;
    var r := RaiseDispute(w, env);
    if r.Ok? {
      RaisedKeeps(w.store.value, r.value.store.value, now, env.now);
      SolventKept(w, r.value);
    }
  }

  lemma RaisedKeeps(s: Store, s': Store, now: U64, later: U64)
    requires StoreInv(s, now) && now <= later && s.state.Active?
    requires MarkOpenMilestonesDisputed(s.ids, s.milestones).Ok?
    requires s'.dispute.Some? && !s'.dispute.value.resolved
    requires s' == s.(milestones := MarkOpenMilestonesDisputed(s.ids, s.milestones).value,
                      state := EscrowState.Disputed, dispute := s'.dispute)
    ensures StoreInv(s', later)
  {
    hide TermsOk, NoDuplicates, Sum, Vested;
    assert s'.milestones == AllMarked(s.milestones);
    MarkingKeepsSums(s.ids, s.milestones);
    forall id | id in s'.milestones ensures s'.milestones[id].id == id && RecordOk(s'.milestones[id], later) {
      RecordOkLater(s.milestones[id], now, later);
    }
    assert TermsOk(s') by { TermsKept(s, s'); }
  }

  /** Ending the escrow keeps the invariant as long as the book is left as the ending demands. */
  lemma EndedKeeps(s: Store, s': Store, now: U64, later: U64)
    requires StoreInv(s, now) && now <= later && (s.state.Active? || s.state.Disputed?)
    requires s' == s.(state := s'.state, dispute := s'.dispute, book := s'.book)
    requires s'.book.deposited == s.book.deposited && Consistent(s'.book)
    requires || (s'.state.Completed? && Settled(s') && s'.book.Balance() == 0)
             || (s'.state.Cancelled? && s'.dispute == s.dispute && s'.book.released == s.book.released
                 && s'.book.Balance() == Totals(s).owed)
    ensures StoreInv(s', later)
  {
    hide TermsOk, NoDuplicates, Sum, RecordOk;
    forall id | id in s'.milestones ensures s'.milestones[id].id == id && RecordOk(s'.milestones[id], later) {
      RecordOkLater(s.milestones[id], now, later);
    }
    assert TermsOk(s') by { TermsKept(s, s'); }
  }

  lemma SplitKeeps(w: World, now: U64, later: U64, dispute: DisputeRecord, funderBps: U32, recipientBps: U32)
    requires Inv(w, now) && now <= later && w.store.Some? && w.store.value.state.Disputed?
    ensures var r := PaySplit(w, w.store.value, dispute, funderBps, recipientBps); r.Ok? ==> Inv(r.value, later)
  {
    hide Solvent, StoreInv, PaySplit, Moved, Room;
    InvReady(w, now);
    PaySplitExact(w, dispute, funderBps, recipientBps);
    var r := PaySplit(w, w.store.value, dispute, funderBps, recipientBps);
    if r.Ok? {
      assert Consistent(w.store.value.book) by { ConsistentBook(w); }
      EndedKeeps(w.store.value, r.value.store.value, now, later);
    }
  }

  lemma ConsistentBook(w: World)
    requires Solvent(w) && w.store.Some?
    ensures Consistent(w.store.value.book)
  {
  }

  lemma SettleKeeps(w: World, now: U64, env: Env, call: Call)
    requires Inv(w, now) && now <= env.now && w.store.Some? && (call.Resolve? || call.SettleQuorum?)
    ensures Exec(w, env, call).Ok? ==> Inv(Exec(w, env, call).value, env.now)
  {
    hide Inv, PaySplit, ScreenSigners, RequireQuorum;
    if Exec(w, env, call).Ok? {
      SplitKeeps(w, now, env.now, w.store.value.dispute.value, call.funderBps, call.recipientBps);
    }
  }

  lemma TimeoutKeeps(w: World, now: U64, env: Env)
    requires Inv(w, now) && now <= env.now && w.store.Some?
    ensures var r := ClaimTimeoutRefund(w, env); r.Ok? ==> Inv(r.value, env.now)
  {
    hide Solvent, StoreInv, ClaimTimeoutRefund, Moved, Room, Totals;
    InvReady(w, now);
    var s := w.store.value;
    if s.state.Active? {
      ActiveCollectable(w, now);
    }
    TimeoutExact(w, env);
    var r := ClaimTimeoutRefund(w, env);
    if r.Ok? {
      assert Consistent(r.value.store.value.book) by { ConsistentBook(r.value); }
      EndedKeeps(s, r.value.store.value, now, env.now);
    }
  }

  // ----- amendments -----

  lemma AcceptKeeps(w: World, now: U64, env: Env)
    requires Inv(w, now) && now <= env.now && w.store.Some?
    ensures var r := ApproveAmendment(w, env); r.Ok? ==> Inv(r.value, env.now)
  {
    hide Solvent, StoreInv, ReorderMilestone, Repriced, Amended;
    var r := ApproveAmendment(w, env);
    if r.Ok? {
      var s, s' := w.store.value, r.value.store.value;
      var a := s.amendment.value;
      assert Amended(s, s', a) by { AcceptExact(w, env); }
      AmendedKeeps(s, s', now, env.now, a);
      assert s'.book == s.book && s'.config.funder == s.config.funder;
      SolventKept(w, r.value);
    }
  }

  /** What accepting the amendment does: the milestone's text, the display order and, only while
      Pending, its payout together with the total. */
  predicate Amended(s: Store, s': Store, a: Amendment) {
    a.milestoneId in s.milestones &&
    (var m := s.milestones[a.milestoneId];
     var repriced := s.state.Pending? && a.payout != m.payout;
     var moved := ReorderMilestone(s.ids, a.milestoneId, a.newPosition);
     && !m.Finished() && moved.Ok?
     && s'.config == s.config.(totalAmount := s'.config.totalAmount)
     && s'.config.totalAmount == (if repriced then s.config.totalAmount - m.payout + a.payout else s.config.totalAmount)
     && (repriced ==> 0 < s'.config.totalAmount)
     && s' == s.(config := s'.config, ids := moved.value, amendment := None).SetMilestone(
                m.(payout := if repriced then a.payout else m.payout, description := a.description)))
  }

  lemma AcceptExact(w: World, env: Env)
    requires w.store.Some? && ApproveAmendment(w, env).Ok?
    ensures ApproveAmendment(w, env).value.store.Some?
    ensures var s := w.store.value;
            s.amendment.Some? && Amended(s, ApproveAmendment(w, env).value.store.value, s.amendment.value)
  {
    hide ReorderMilestone;
  }

  lemma AmendedKeeps(s: Store, s': Store, now: U64, later: U64, a: Amendment)
    requires StoreInv(s, now) && now <= later && s.amendment == Some(a) && Amended(s, s', a)
    ensures StoreInv(s', later)
  {
    hide NoDuplicates, Sum, ReorderMilestone, BookOk, TermsOk, Vested;
    AmendedTerms(s, s', a);
    ReorderExact(s.ids, a.milestoneId, a.newPosition);
    RewriteKeeps(s, now, later, a.milestoneId, s'.milestones[a.milestoneId]);
    ReorderKeepsSums(s.ids, a.milestoneId, a.newPosition, s'.milestones);
    AmendedBook(s, s', a);
    assert NoDuplicates(s'.ids) && s'.ids != [];
  }

  lemma AmendedTerms(s: Store, s': Store, a: Amendment)
    requires TermsOk(s) && s.amendment == Some(a) && Amended(s, s', a)
    ensures TermsOk(s') && 0 < a.payout
  {
    hide ReorderMilestone;
  }

  lemma AmendedBook(s: Store, s': Store, a: Amendment)
    requires BookOk(s) && 0 < a.payout && Amended(s, s', a)
    requires |s'.ids| == |s.ids| && s.milestones[a.milestoneId].id == a.milestoneId
    requires Totals(s') == Totals(s).Minus(Weight(s.milestones[a.milestoneId]))
                           .Plus(Weight(s'.milestones[a.milestoneId]))
    ensures BookOk(s')
  {
    hide Sum, ReorderMilestone;
  }

  // ----- all of them -----

  /** Every successful invocation by anyone keeps the invariant. */
  lemma ExecKeeps(w: World, now: U64, env: Env, call: Call)
    requires Inv(w, now) && now <= env.now && w.self !in env.auths
    ensures Exec(w, env, call).Ok? ==> Inv(Exec(w, env, call).value, env.now)
  {
    hide Inv, Exec;
    if call.Init? {
      assert Exec(w, env, call).Ok? ==> Inv(Exec(w, env, call).value, env.now) by {
        InitCallKeeps(w, now, env, call);
      }
    } else if w.store.None? {
      NotInitialised(w, env, call);
    } else if call.Resolve? || call.SettleQuorum? {
      SettleKeeps(w, now, env, call);
    } else if call.Deposit? || call.Proof? || call.Approve? || call.Raise? || call.TimeoutRefund?
              || call.AcceptAmendment? || call.Stream? || call.Slash? {
      WorkKeeps(w, now, env, call);
    } else {
      ConfigurationKeeps(w, now, env, call);
    }
  }

  lemma InitCallKeeps(w: World, now: U64, env: Env, call: Call)
    requires Inv(w, now) && now <= env.now && w.self !in env.auths && call.Init?
    ensures Exec(w, env, call).Ok? ==> Inv(Exec(w, env, call).value, env.now)
  {
    hide Inv, Initialize;
    InitializeKeeps(w, now, env, call.funder, call.recipient, call.arbitrator, call.asset, call.decimals,
                    call.milestones);
  }

  lemma WorkKeeps(w: World, now: U64, env: Env, call: Call)
    requires Inv(w, now) && now <= env.now && w.store.Some?
    requires call.Deposit? || call.Proof? || call.Approve? || call.Raise? || call.TimeoutRefund?
             || call.AcceptAmendment? || call.Stream? || call.Slash?
    ensures Exec(w, env, call).Ok? ==> Inv(Exec(w, env, call).value, env.now)
  {
    hide Inv, DepositFunds, SubmitMilestoneProof, ApproveMilestone, RaiseDispute, ClaimTimeoutRefund,
         ApproveAmendment, StreamMilestonePayout, ApplyLatePenalty;
    match call
    case Deposit => DepositKeeps(w, now, env);
    case Proof(id, proof) => ProofKeeps(w, now, env, id, proof);
    case Approve(id) => ApproveKeeps(w, now, env, id);
    case Raise => RaiseKeeps(w, now, env);
    case TimeoutRefund => TimeoutKeeps(w, now, env);
    case AcceptAmendment => AcceptKeeps(w, now, env);
    case Stream(id) => StreamKeeps(w, now, env, id);
    case Slash(id) => SlashKeeps(w, now, env, id);
  }

  /** Nothing but `initialize` succeeds before `initialize`. */
  lemma NotInitialised(w: World, env: Env, call: Call)
    requires w.store.None? && !call.Init?
    ensures Exec(w, env, call) == Err(NotInit)
  {
  }
}
