/** vesting.rs, penalty.rs and milestone.rs: streaming, slashing, amending and reordering. */
module Schedules {
  import opened Numeric
  import opened Results
  import opened EscrowMath
  import opened Storage
  import opened Payments

  // ----- vesting.rs -----

  function StreamMilestonePayout(w: World, env: Env, id: U32): Result<World> {
    var s :- w.Opened();
    :- NotPaused(s);
    :- env.RequireAuth(s.config.recipient);
    :- Need(!s.state.Disputed?, DisputeLockActive);
    :- Need(s.state.Active? || s.state.Completed?, BadState);
    var m :- s.GetMilestone(id);
    :- Need(m.isApproved, VestingIncomplete);
    :- Need(m.vestingSecs != 0, BadState);
    :- Need(m.streamed < m.payout, MilestoneAlreadyCompleted);
    :- Need(m.completedAt + m.vestingSecs <= U64_MAX, BadAmount);
    var vested :- VestedAmount(m.payout, m.completedAt, m.completedAt + m.vestingSecs, env.now);
    var unpaid :- Checked(vested - m.streamed, BadAmount);
    :- Need(unpaid > 0, VestingIncomplete);
    var w1 :- PayWithFee(w, s.config.recipient, unpaid);
    var s1 :- w1.Opened();
    var streamed :- Checked(m.streamed + unpaid, BadAmount);
    Ok(w1.Put(s1.SetMilestone(m.(
      streamed := streamed,
      status := if streamed >= m.payout then MilestoneStatus.Released else m.status))))
  }

  /** The checked sum, over the listed milestones, of what approval promised and streaming has not
      yet paid. */
  function UnstreamedObligation(ids: seq<U32>, milestones: map<U32, Milestone>): Result<I128> {
    if ids == [] then Ok(0)
    else
      var id := ids[|ids| - 1];
      var owed :- UnstreamedObligation(ids[..|ids| - 1], milestones);
      if id !in milestones then Err(NotFound)
      else if !milestones[id].isApproved then Ok(owed)
      else
        var rest :- Checked(milestones[id].payout - milestones[id].streamed, BadAmount);
        Checked(owed + rest, BadAmount)
  }

  // ----- penalty.rs -----

  function SetLatePenaltyBps(w: World, env: Env, bps: U32): Result<World> {
    var s :- w.Opened();
    :- NotPaused(s);
    :- env.RequireAuth(s.config.funder);
    :- Need(s.state.Pending?, BadState);
    :- Need(bps <= BPS_SCALE, PenaltyOverflow);
    Ok(w.Put(s.(penaltyBps := bps)))
  }

  function ApplyLatePenalty(w: World, env: Env, id: U32): Result<World> {
    var s :- w.Opened();
    :- NotPaused(s);
    :- env.RequireAuth(s.config.funder);
    :- Need(s.state.Active?, BadState);
    var m :- s.GetMilestone(id);
    :- Need(!m.latePenaltyApplied, AlreadyPaid);
    :- Need(!m.Finished(), MilestoneAlreadyCompleted);
    :- Need(m.status.UnderReview?, BadState);
    :- Need(m.deadline != 0, BadState);
    :- Need(m.submittedAt != 0 && m.deadline < m.submittedAt, DeadlineNotExceeded);
    var (slash, remaining) :- ApplyPenalty(m.payout, s.penaltyBps);
    var w1 :- Refund(w, s.config.funder, slash);
    var s1 :- w1.Opened();
    var payout := if slash == 0 then m.payout else remaining;
    Ok(w1.Put(s1.SetMilestone(m.(payout := payout, latePenaltyApplied := true))))
  }

  // ----- milestone.rs -----

  /** `Some(true)` for the funder, `Some(false)` for the recipient. */
  function Party(s: Store, actor: Address): Option<bool> {
    if actor == s.config.funder then Some(true)
    else if actor == s.config.recipient then Some(false)
    else None
  }

  function RequestAmendment(w: World, env: Env, actor: Address, id: U32, payout: I128,
                            description: Hash, newPosition: U32): Result<World> {
    var s :- w.Opened();
    :- NotPaused(s);
    var party := Party(s, actor);
    :- Need(party.Some?, NotAuthorized);
    :- env.RequireAuth(actor);
    :- Need(!s.state.Disputed?, DisputeLockActive);
    :- Need(s.state.Pending? || s.state.Active?, BadState);
    var m :- s.GetMilestone(id);
    :- Need(!m.Finished(), MilestoneAlreadyCompleted);
    :- PositiveAmount(payout);
    :- Need(newPosition < |s.ids|, InvalidMilestoneSequence);
    :- Need(s.state.Active? ==> payout == m.payout, BadAmount);
    :- Need(s.amendment.Some? ==> !(s.amendment.value.funderApproved && s.amendment.value.recipientApproved),
            AmendmentPending);
    Ok(w.Put(s.(amendment :=
      Some(Amendment(id, payout, description, newPosition, actor, party.value, !party.value)))))
  }

  function Without(ids: seq<U32>, id: U32): seq<U32> {
    if ids == [] then []
    else
      var rest := Without(ids[..|ids| - 1], id);
      if ids[|ids| - 1] == id then rest else rest + [ids[|ids| - 1]]
  }

  lemma WithoutShorter(ids: seq<U32>, id: U32)
    ensures |Without(ids, id)| <= |ids|
    ensures id in ids ==> |Without(ids, id)| < |ids|
  {
  }

  function ReorderMilestone(ids: Vec<U32>, id: U32, newPosition: U32): Result<Vec<U32>> {
    var ordered := Without(ids, id);
    :- Need(id in ids, NotFound);
    :- Need(newPosition <= |ordered|, InvalidMilestoneSequence);
    WithoutShorter(ids, id);
    Ok(ordered[..newPosition] + [id] + ordered[newPosition..])
  }

  function ApproveAmendment(w: World, env: Env): Result<World> {
    var s :- w.Opened();
    :- NotPaused(s);
    :- Need(s.amendment.Some?, NotFound);
    var proposal := s.amendment.value;
    :- Need(!(proposal.funderApproved && proposal.recipientApproved), AlreadyPaid);
    :- Need(s.config.funder != s.config.recipient, BadRoles);
    :- env.RequireAuth(s.config.funder);
    :- env.RequireAuth(s.config.recipient);
    var w1 :- ApplyAmendment(w, proposal.(funderApproved := true, recipientApproved := true));
    var s1 :- w1.Opened();
    Ok(w1.Put(s1.(amendment := None)))
  }

  /** Rewrites the milestone, and the total while Pending, and moves the id to its new position. */
  function ApplyAmendment(w: World, proposal: Amendment): Result<World> {
    var s :- w.Opened();
    var m :- s.GetMilestone(proposal.milestoneId);
    :- Need(!m.Finished(), MilestoneAlreadyCompleted);
    var repriced := s.state.Pending? && proposal.payout != m.payout;
    var newTotal :- if repriced then Repriced(s, m, proposal.payout) else Ok(s.config.totalAmount);
    var m' := m.(payout := if repriced then proposal.payout else m.payout,
                 description := proposal.description);
    var ids :- ReorderMilestone(s.ids, proposal.milestoneId, proposal.newPosition);
    Ok(w.Put(s.(config := s.config.(totalAmount := newTotal), ids := ids).SetMilestone(m')))
  }

  function Repriced(s: Store, m: Milestone, payout: I128): Result<I128> {
    var rest :- Checked(s.config.totalAmount - m.payout, BadAmount);
    var newTotal :- Checked(rest + payout, BadAmount);
    :- PositiveAmount(newTotal);
    Ok(newTotal)
  }
}
