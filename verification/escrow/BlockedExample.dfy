/** A concrete escrow that neither an approval nor the timeout can end: its only milestone is slashed to
    nothing. */
module BlockedExample {
  import opened Results
  import opened EscrowMath
  import opened Storage
  import opened PaymentLaws
  import opened Tallies
  import opened Committee
  import opened Schedules
  import opened Lifecycle
  import opened Invariants
  import opened EntryLaws
  import opened Runs
  import opened Disputes
  import opened Progress
  import opened Timeouts
  import opened Requests
  import opened Actors

  /** One unit, due at time 5. */
  const JOB := Milestone(1, 1, Hash(7), false, 0, MilestoneStatus.Pending, 0, 0, 0, 5, false)
  const START := World(CONTRACT, None, Token(map[FUNDER := 1], map[(FUNDER, CONTRACT) := 1]))

  function Configured(): World {
    Step(Step(START, Invoke(ENV, Init(FUNDER, RECIPIENT, ARBITRATOR, ASSET, Some(7), [JOB]))),
         Invoke(ENV, SetPenalty(BPS_SCALE)))
  }

  lemma ConfiguredFacts()
    ensures Reachable(Configured(), AT)
    ensures Configured().store.Some? && Configured().self == CONTRACT && Configured().token == START.token
    ensures var s := Configured().store.value;
            && s.state.Pending? && !s.paused && s.penaltyBps == BPS_SCALE && s.book == EMPTY_BOOK
            && s.config.funder == FUNDER && s.config.recipient == RECIPIENT && s.config.totalAmount == 1
            && s.treasury == FUNDER && s.ids == [1] && s.milestones == map[1 := JOB]
            && s.config.arbitrator == ARBITRATOR
  {
    hide Reachable;
    var init := Init(FUNDER, RECIPIENT, ARBITRATOR, ASSET, Some(7), [JOB]);
    var w := Step(START, Invoke(ENV, init));
    OneJob();
    ReachableStart(START, AT);
    ReachableStep(START, AT, Invoke(ENV, init));
    ReachableStep(w, AT, Invoke(ENV, SetPenalty(BPS_SCALE)));
  }

  lemma OneJob()
    ensures PlanOf([JOB]) == Ok(Plan([1], map[1 := JOB], 1))
  {
    var jobs := [JOB];
    assert jobs[..|jobs| - 1] == [] && jobs[|jobs| - 1] == JOB && Fresh(JOB) == JOB;
    assert PlanOf(jobs[..|jobs| - 1]) == Ok(Plan([], map[], 0));
    assert [] + [JOB.id] == [1] && map[][JOB.id := JOB] == map[1 := JOB];
  }

  function Paid(): World {
    Step(Configured(), Invoke(ENV, Deposit))
  }

  /** What the deposit and the late proof leave alone. */
  predicate Terms(w: World) {
    w.store.Some? && w.self == CONTRACT &&
    w.token.Balance(FUNDER) == 0 && w.token.Balance(RECIPIENT) == 0 && w.token.Balance(CONTRACT) == 1 &&
    (var s := w.store.value;
     && s.state.Active? && !s.paused && s.penaltyBps == BPS_SCALE && s.book == Book(1, 0, 0)
     && s.config.funder == FUNDER && s.config.recipient == RECIPIENT && s.config.arbitrator == ARBITRATOR
     && s.treasury == FUNDER && s.ids == [1])
  }

  lemma PaidFacts()
    ensures Reachable(Paid(), AT) && Terms(Paid()) && Paid().store.value.milestones == map[1 := JOB]
  {
    hide Reachable, Configured, Ready, Inv, Run, Token.TransferFrom;
    ConfiguredFacts();
    ReachableStep(Configured(), AT, Invoke(ENV, Deposit));
    TransferFromExact(START.token, CONTRACT, FUNDER, CONTRACT, 1);
  }

  const LATE_JOB := JOB.(status := MilestoneStatus.UnderReview, submittedAt := AT)
  const LOST_JOB := LATE_JOB.(payout := 0, latePenaltyApplied := true)

  function Submitted(): World {
    Step(Paid(), Invoke(ENV, Proof(1, Hash(9))))
  }

  lemma SubmittedFacts()
    ensures Reachable(Submitted(), AT) && Terms(Submitted())
    ensures Submitted().store.value.milestones == map[1 := LATE_JOB]
  {
    hide Reachable, Paid, Inv, Run;
    PaidFacts();
    ReachableStep(Paid(), AT, Invoke(ENV, Proof(1, Hash(9))));
  }

  /** The world after the penalty. */
  function Slashed(): World {
    Step(Submitted(), Invoke(ENV, Slash(1)))
  }

  lemma SlashOutcome()
    ensures Reachable(Submitted(), AT) && Submitted().self == CONTRACT && ApplyLatePenalty(Submitted(), ENV, 1).Ok?
    ensures Slashed().store.Some? && Slashed().self == CONTRACT
    ensures Slashed().token.Balance(FUNDER) == 1 && Slashed().token.Balance(RECIPIENT) == 0
            && Slashed().token.Balance(CONTRACT) == 0
    ensures var s, s' := Submitted().store.value, Slashed().store.value;
            && s'.milestones == map[1 := LOST_JOB] && s'.book == Book(1, 0, 1)
            && s' == s.(milestones := s'.milestones, book := s'.book)
  {
    hide Reachable, Submitted, Inv, ApplyLatePenalty, Share, Run, ReadyFor;
    SubmittedFacts();
    var w := Submitted();
    ReachableInv(w, AT);
    InvReadyFor(w, AT, 1);
    ApplyBpsExact(1, BPS_SCALE);
    SlashExact(w, AT, ENV, 1);
  }

  lemma SlashedFacts()
    ensures Reachable(Slashed(), AT) && Slashed().store.Some? && Slashed().self == CONTRACT && Roomy(Slashed())
    ensures var s := Slashed().store.value;
            && !s.paused && s.state.Active? && s.config.funder == FUNDER && s.config.arbitrator == ARBITRATOR
            && s.penaltyBps == BPS_SCALE && s.book == Book(1, 0, 1)
            && s.ids == [1] && s.milestones == map[1 := LOST_JOB]
  {
    hide Reachable, Submitted, Exec;
    SubmittedFacts();
    SlashOutcome();
    ReachableStep(Submitted(), AT, Invoke(ENV, Slash(1)));
  }

  /** A reachable escrow in which the milestone is unapproved and signed off, nothing is paused and
      every payee has room, and yet the approval fails. */
  lemma BlockedApproval()
    ensures Reachable(Slashed(), AT) && Slashed().store.Some? && Roomy(Slashed())
    ensures var s := Slashed().store.value;
            && !s.paused && SignedOff(s, ENV) && 1 in s.milestones && !s.milestones[1].isApproved
    ensures ApproveMilestone(Slashed(), ENV, 1).Err?
  {
    hide Reachable, Slashed, ApproveMilestone, Roomy;
    SlashedFacts();
    ApprovalSucceedsExactly(Slashed(), AT, ENV, 1);
  }

  lemma OneTotal(m: Milestone)
    ensures Sum([1], map[1 := m]) == Weight(m)
  {
    var weights := Weights(map[1 := m]);
    assert [1][..0] == [] && Total([], weights) == ZERO && At(weights, 1) == Weight(m);
  }

  /** No run ends it but by a settlement. */
  lemma OnlySettlementHelps(events: seq<Event>)
    requires LegalRun(Slashed(), AT, events)
    ensures var w := Run(Slashed(), events);
            && w.store.Some?
            && (w.store.value.state.Active? || w.store.value.state.Disputed?
                || (w.store.value.state.Completed? && Settled(w.store.value)))
  {
    hide Reachable, Slashed, Inv, LegalRun, Run, Sum;
    SlashedFacts();
    OneTotal(LOST_JOB);
    ReachableInv(Slashed(), AT);
    OnlySettlementEnds(Slashed(), AT, events, 1);
  }

  // ----- A settlement with nothing to split -----

  function Disputed(): World {
    Step(Slashed(), Invoke(ENV, Raise))
  }

  /** The dispute over the empty escrow can be raised and settled, and its book still agrees with the
      records afterwards. */
  lemma EmptySettlement()
    ensures Reachable(Disputed(), AT) && Disputed().store.Some? && Disputed().store.value.book.Locked() == 0
    ensures Exec(Disputed(), JUDGE, Resolve(5_000, 5_000)).Ok?
    ensures var w' := Exec(Disputed(), JUDGE, Resolve(5_000, 5_000)).value;
            w'.store.Some? && Settled(w'.store.value) && Backed(w'.store.value)
  {
    hide Reachable, Slashed, Inv, Run, Backed, Moved, ResolveDispute;
    SlashedFacts();
    RaiseExact(Slashed(), AT, ENV);
    ReachableStep(Slashed(), AT, Invoke(ENV, Raise));
    ReachableInv(Disputed(), AT);
    ResolveExact(Disputed(), AT, JUDGE, 5_000, 5_000);
    SettlementPaysEverything(Disputed(), AT, JUDGE, Resolve(5_000, 5_000));
    SettlementBacked(Disputed(), AT, JUDGE, Resolve(5_000, 5_000));
  }
}
