/** Theorems about whole runs: any sequence of invocations, by anyone, in any order. */
module Runs {
  import opened Numeric
  import opened EscrowMath
  import opened Storage
  import opened Tallies
  import opened Lifecycle
  import opened Invariants
  import opened EntryLaws
  import opened Preservation
  import opened Effects

  // ----- The invariant on every run -----

  lemma StepKeeps(w: World, now: U64, e: Event)
    requires Inv(w, now) && Legal(w, now, e)
    ensures Inv(Step(w, e), Clock(now, e)) && now <= Clock(now, e)
  {
    hide Exec, StoreInv;
    match e
    case Invoke(env, call) =>
      InvLater(w, now, env.now);
      ExecKeeps(w, now, env, call);
    case Elsewhere(token) =>
  }

  lemma {:induction false} RunKeeps(w: World, now: U64, events: seq<Event>)
    requires Inv(w, now) && LegalRun(w, now, events)
    ensures Inv(Run(w, events), ClockAfter(now, events)) && now <= ClockAfter(now, events)
  {
    hide Inv, Legal, Step, Clock;
    if events != [] {
      var init := events[..|events| - 1];
      RunKeeps(w, now, init);
      StepKeeps(Run(w, init), ClockAfter(now, init), events[|events| - 1]);
    }
  }

  /** Reached from an uninitialised contract by a legal run ending at time `now`. */
  ghost predicate Reachable(w: World, now: U64) {
    exists w0: World, start: U64, events: seq<Event> ::
      w0.store.None? && LegalRun(w0, start, events) && w == Run(w0, events) && now == ClockAfter(start, events)
  }

  /** Every reachable world satisfies the invariant. */
  lemma ReachableInv(w: World, now: U64)
    requires Reachable(w, now)
    ensures Inv(w, now)
  {
    hide Run, ClockAfter, LegalRun, StoreInv;
    var w0: World, start: U64, events: seq<Event> :|
      w0.store.None? && LegalRun(w0, start, events) && w == Run(w0, events) && now == ClockAfter(start, events);
    RunKeeps(w0, start, events);
  }

  lemma ReachableStart(w: World, now: U64)
    requires w.store.None?
    ensures Reachable(w, now)
  {
    assert LegalRun(w, now, []) && w == Run(w, []) && now == ClockAfter(now, []);
  }

  /** A legal event leads from a reachable world to a reachable one. */
  lemma ReachableStep(w: World, now: U64, e: Event)
    requires Reachable(w, now) && Legal(w, now, e)
    ensures Reachable(Step(w, e), Clock(now, e))
  {
    hide Step, Clock, Legal;
    var w0: World, start: U64, events: seq<Event> :|
      w0.store.None? && LegalRun(w0, start, events) && w == Run(w0, events) && now == ClockAfter(start, events);
    var longer := events + [e];
    assert longer[..|longer| - 1] == events;
    assert LegalRun(w0, start, longer) && Step(w, e) == Run(w0, longer) && Clock(now, e) == ClockAfter(start, longer);
  }

  // ----- Accounting -----

  /** Master accounting: while the escrow is live the book and the milestone records agree to the
      unit, so the locked balance the contract computes is exactly what is still owed or open, and
      the contract holds at least that many tokens. */
  lemma MasterAccounting(w: World, now: U64)
    requires Reachable(w, now) && w.store.Some? && Live(w.store.value)
    ensures var s := w.store.value; var t := Totals(s);
            && s.book.released == t.streamed
            && s.book.deposited - s.book.refunded == t.payout
            && s.book.Locked() == t.payout - t.streamed == t.owed + t.open
            && 0 <= s.book.Locked() <= w.token.Balance(w.self)
  {
    hide TermsOk, RecordOk;
    ReachableInv(w, now);
    var s := w.store.value;
    LiveBacked(s, now);
    BackedBalance(s, now);
    SaturationHarmless(s.book);
  }

  /** The records are consistent with the lifecycle in every reachable state. */
  lemma RecordConsistency(w: World, now: U64)
    requires Reachable(w, now) && w.store.Some?
    ensures var s := w.store.value;
            && s.approved == Totals(s).approved
            && |s.ids| == s.config.releaseThreshold
            && (forall id :: id in s.milestones ==>
                  var m := s.milestones[id];
                  && (m.status.Released? ==> m.isApproved && m.streamed == m.payout)
                  && (!m.isApproved ==> m.streamed == 0)
                  && 0 <= m.streamed <= m.payout)
            && (s.state.Active? || s.state.Disputed? ==> s.approved < s.config.releaseThreshold)
            && (s.state.Disputed? ==> s.dispute.Some? && !s.dispute.value.resolved)
            && (s.state.Completed? ==> Settled(s) || forall id :: id in s.milestones ==> s.milestones[id].isApproved)
  {
    hide TermsOk, Vested;
    ReachableInv(w, now);
    var s := w.store.value;
    SaneRecords(s, now);
    AllApproved(s.ids, s.milestones);
  }

  /** Before funding, the price is the sum of the milestones and every milestone is worth something,
      whatever amendments have been agreed; and a stored proposal is signed by one side only. */
  lemma FundingTerms(w: World, now: U64)
    requires Reachable(w, now) && w.store.Some?
    ensures var s := w.store.value;
            && (s.state.Pending? ==>
                  s.config.totalAmount == Totals(s).payout
                  && forall id :: id in s.milestones ==> 0 < s.milestones[id].payout)
            && (!s.state.Pending? ==> s.book.deposited == s.config.totalAmount)
            && (s.amendment.Some? ==> s.amendment.value.funderApproved != s.amendment.value.recipientApproved)
  {
    hide CommitteeOk, DocketOk, RecordOk;
    ReachableInv(w, now);
  }

  /** Tokens held beyond the locked balance. */
  function Surplus(w: World): int {
    w.token.Balance(w.self) - (if w.store.Some? then w.store.value.book.Balance() else 0)
  }

  // ----- Funded runs -----

  lemma FundedStep(w: World, now: U64, e: Event)
    requires Inv(w, now) && Legal(w, now, e) && Funded(w)
    ensures Funded(Step(w, e))
    ensures e.Invoke? && Exec(w, e.env, e.call).Ok? ==>
              Change(w.store.value, Step(w, e).store.value, e.env.now, e.call)
    ensures !(e.Invoke? && Exec(w, e.env, e.call).Ok?) ==> Step(w, e).store == w.store
  {
    hide Exec, Inv, Claimable, ClaimedRecord, Share, Totals;
    if e.Invoke? && Exec(w, e.env, e.call).Ok? {
      ChangeOf(w, now, e.env, e.call);
    }
  }

  /** How a record may develop after funding: approval is final and freezes what vesting depends on,
      a payout changes only with the one penalty, by exactly its share, and no streamed token is ever
      taken back. */
  predicate Develops(m: Milestone, m': Milestone, penaltyBps: U32) {
    && m'.id == m.id && m'.deadline == m.deadline && m'.vestingSecs == m.vestingSecs
    && m'.payout <= m.payout && m.streamed <= m'.streamed
    && (m.isApproved ==> m'.isApproved && m'.payout == m.payout && m'.completedAt == m.completedAt)
    && (m.latePenaltyApplied || m.isApproved ==> m'.latePenaltyApplied == m.latePenaltyApplied)
    && m'.payout == (if m'.latePenaltyApplied == m.latePenaltyApplied then m.payout
                     else m.payout - Share(m.payout, penaltyBps))
    && (m'.status.Pending? ==> m.status.Pending?)
  }

  /** What never changes after funding. */
  ghost predicate TermsFrozen(s: Store, s': Store) {
    && s'.config == s.config && s'.admin == s.admin && s'.penaltyBps == s.penaltyBps && s'.feeBps == s.feeBps
    && s'.treasury == s.treasury && s'.book.deposited == s.book.deposited && !s'.state.Pending?
    && (forall id :: id in s'.milestones <==> id in s.milestones)
    && s.evidence <= s'.evidence
  }

  ghost predicate AllDevelop(s: Store, s': Store) {
    forall id :: id in s.milestones ==>
      id in s'.milestones && Develops(s.milestones[id], s'.milestones[id], s.penaltyBps)
  }

  lemma ChangeFreezesTerms(s: Store, s': Store, now: U64, call: Call)
    requires !s.state.Pending? && Change(s, s', now, call)
    ensures TermsFrozen(s, s')
  {
    hide Totals, Share, Claimable, ClaimedRecord, Slashable;
  }

  lemma ChangeDevelops(s: Store, s': Store, now: U64, later: U64, call: Call, id: U32)
    requires id in s.milestones && RecordOk(s.milestones[id], now) && now <= later && Change(s, s', later, call)
    ensures id in s'.milestones
    ensures s.milestones[id].id == id ==> Develops(s.milestones[id], s'.milestones[id], s.penaltyBps)
  {
    hide Totals, Vested, Share;
    if call.Stream? && call.id == id {
      ClaimBounds(s.milestones[id], now, later);
    }
  }

  /** On every run after funding the terms are frozen, the docket only grows, and every record
      develops soundly. */
  lemma {:induction false} FundedRun(w: World, now: U64, events: seq<Event>)
    requires Inv(w, now) && LegalRun(w, now, events) && Funded(w)
    ensures Funded(Run(w, events))
    ensures TermsFrozen(w.store.value, Run(w, events).store.value)
    ensures AllDevelop(w.store.value, Run(w, events).store.value)
  {
    hide Inv, Legal, Step, Clock, Change;
    if events != [] {
      var init, e := events[..|events| - 1], events[|events| - 1];
      var w1, now1 := Run(w, init), ClockAfter(now, init);
      FundedRun(w, now, init);
      RunKeeps(w, now, init);
      StepFrames(w1, now1, e);
    }
  }

  lemma StepFrames(w: World, now: U64, e: Event)
    requires Inv(w, now) && Legal(w, now, e) && Funded(w)
    ensures Funded(Step(w, e))
    ensures TermsFrozen(w.store.value, Step(w, e).store.value) && AllDevelop(w.store.value, Step(w, e).store.value)
  {
    hide Exec, Inv, Change, Step, RecordOk, Ready;
    FundedStep(w, now, e);
    if e.Invoke? && Exec(w, e.env, e.call).Ok? {
      ChangeFreezesTerms(w.store.value, Step(w, e).store.value, e.env.now, e.call);
      var s, s' := w.store.value, Step(w, e).store.value;
      forall id | id in s.milestones
        ensures id in s'.milestones && Develops(s.milestones[id], s'.milestones[id], s.penaltyBps)
      {
        InvReadyFor(w, now, id);
        ChangeDevelops(s, s', now, e.env.now, e.call, id);
      }
    }
  }
}
