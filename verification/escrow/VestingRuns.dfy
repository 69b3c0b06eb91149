/** Vesting does not depend on when, or how often, the recipient claims. */
module VestingRuns {
  import opened Numeric
  import opened EscrowMath
  import opened Storage
  import opened Lifecycle
  import opened Invariants
  import opened EntryLaws
  import opened Effects
  import opened Runs

  /** The run ends with a successful claim for `id` made at time `at`. */
  predicate EndsWithClaim(w: World, events: seq<Event>, id: U32, at: U64) {
    events != [] &&
    (var last := events[|events| - 1];
     && last.Invoke? && last.call == Stream(id) && last.env.now == at
     && Exec(Run(w, events[..|events| - 1]), last.env, last.call).Ok?)
  }

  /** However the parties act, an approved stream never runs ahead of the schedule fixed at its
      approval, and never goes back. */
  lemma StreamNeverAhead(w: World, now: U64, events: seq<Event>, id: U32)
    requires Inv(w, now) && LegalRun(w, now, events) && Funded(w) && Streaming(w.store.value, id)
    ensures Funded(Run(w, events)) && Streaming(Run(w, events).store.value, id)
    ensures var m, m' := w.store.value.milestones[id], Run(w, events).store.value.milestones[id];
            && m'.payout == m.payout && m'.completedAt == m.completedAt && m'.vestingSecs == m.vestingSecs
            && m.streamed <= m'.streamed <= VestedSoFar(m, ClockAfter(now, events)) <= m.payout
  {
    hide Run, LegalRun, ClockAfter, StoreInv, TermsFrozen, RecordOk;
    FundedRun(w, now, events);
    RunKeeps(w, now, events);
    InvReadyFor(w, now, id);
    InvReadyFor(Run(w, events), ClockAfter(now, events), id);
    var s, s' := w.store.value, Run(w, events).store.value;
    Bounded(s.milestones[id], s'.milestones[id], s.penaltyBps, now, ClockAfter(now, events));
  }

  lemma Bounded(m: Milestone, m': Milestone, penaltyBps: U32, now: U64, later: U64)
    requires RecordOk(m, now) && RecordOk(m', later) && m.isApproved && 0 < m.vestingSecs
    requires Develops(m, m', penaltyBps)
    ensures m.streamed <= m'.streamed <= VestedSoFar(m, later) <= m.payout
  {
    hide Vested;
  }

  /** Right after a claim, `streamed` is what the schedule fixed at approval has released by then. */
  lemma ClaimCatchesUp(w: World, now: U64, events: seq<Event>, id: U32, at: U64)
    requires Inv(w, now) && LegalRun(w, now, events) && Funded(w) && Streaming(w.store.value, id)
    requires EndsWithClaim(w, events, id, at)
    ensures Funded(Run(w, events)) && id in Run(w, events).store.value.milestones
    ensures Run(w, events).store.value.milestones[id].streamed == VestedSoFar(w.store.value.milestones[id], at)
  {
    hide Inv, Exec, Vested;
    var init, last := events[..|events| - 1], events[|events| - 1];
    var w1 := Run(w, init);
    StreamNeverAhead(w, now, init, id);
    RunKeeps(w, now, init);
    ChangeOf(w1, ClockAfter(now, init), last.env, last.call);
  }

  /** Two runs from the same state, with any numbers and timings of earlier claims and anything else
      in between, that both claim at time `at` leave the recipient with the same total. */
  lemma ClaimTimingIrrelevant(w: World, now: U64, one: seq<Event>, other: seq<Event>, id: U32, at: U64)
    requires Inv(w, now) && Funded(w) && Streaming(w.store.value, id)
    requires LegalRun(w, now, one) && LegalRun(w, now, other)
    requires EndsWithClaim(w, one, id, at) && EndsWithClaim(w, other, id, at)
    ensures Funded(Run(w, one)) && id in Run(w, one).store.value.milestones
    ensures Funded(Run(w, other)) && id in Run(w, other).store.value.milestones
    ensures Run(w, one).store.value.milestones[id].streamed == Run(w, other).store.value.milestones[id].streamed
  {
    hide Inv, LegalRun, Run, Vested;
    ClaimCatchesUp(w, now, one, id, at);
    ClaimCatchesUp(w, now, other, id, at);
  }
}
