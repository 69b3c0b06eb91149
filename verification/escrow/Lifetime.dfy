/** A funded escrow does only boundedly much, and once closed it moves no more money. */
module Lifetime {
  import opened Numeric
  import opened EscrowMath
  import opened Storage
  import opened Tallies
  import opened PaymentLaws
  import opened Lifecycle
  import opened Invariants
  import opened EntryLaws
  import opened Preservation
  import opened Effects
  import opened Runs

  /** The calls that make progress, as opposed to switches, proposals and committee changes. */
  predicate Progress(call: Call) {
    || call.Approve? || call.Stream? || call.Slash? || call.Proof? || call.AddEvidence?
    || call.Raise? || call.Resolve? || call.SettleQuorum? || call.TimeoutRefund?
  }

  function Rank(state: EscrowState): nat {
    match state
    case Active => 2
    case Disputed => 1
    case _ => 0
  }

  /** An upper bound on the progress still to come. */
  function Remaining(s: Store): int {
    var t := Totals(s);
    2 * (|s.ids| - t.approved) + Rank(s.state) + t.pending + t.unpenalised
    + (MAX_EVIDENCE - |s.evidence|) + s.book.Balance()
  }

  lemma RemainingNonNegative(s: Store, now: U64)
    requires StoreInv(s, now)
    ensures 0 <= Remaining(s)
  {
    hide RecordOk, Sum;
    SaneRecords(s, now);
    SumLaws(s.ids, s.milestones);
  }

  predicate Rewrites(call: Call) {
    call.Approve? || call.Stream? || call.Slash? || call.Proof?
  }

  lemma RewriteProgresses(s: Store, s': Store, now: U64, call: Call)
    requires Change(s, s', now, call) && ListOk(s) && Rewrites(call)
    requires LumpSane(s, call)
    ensures Remaining(s') < Remaining(s)
  {
    hide Sum, Vested, Share, Claimable;
    SumUpdate(s.ids, s.milestones, call.id, s'.milestones[call.id]);
  }

  /** An approval never pays a negative lump sum. */
  predicate LumpSane(s: Store, call: Call) {
    call.Approve? && call.id in s.milestones ==> 0 <= s.milestones[call.id].payout
  }

  lemma OtherProgresses(s: Store, s': Store, now: U64, call: Call)
    requires Change(s, s', now, call) && AllSane(s.ids, s.milestones) && !Rewrites(call)
    requires call.AcceptAmendment? ==> |s'.ids| == |s.ids|
    ensures Remaining(s') <= Remaining(s)
    ensures Progress(call) ==> Remaining(s') < Remaining(s)
  {
    hide Sum;
    if call.Raise? {
      MarkingKeepsSums(s.ids, s.milestones);
      SumLaws(s.ids, s.milestones);
    }
  }

  /** How many invocations of the run succeeded and made progress. */
  function Successes(w: World, events: seq<Event>): nat {
    if events == [] then 0
    else
      var init, e := events[..|events| - 1], events[|events| - 1];
      Successes(w, init) +
      (if e.Invoke? && Progress(e.call) && Exec(Run(w, init), e.env, e.call).Ok? then 1 else 0)
  }

  /** What a dispute can still be raised over: at most once per milestone left to approve. */
  function RaisesLeft(s: Store): int {
    match s.state
    case Active => |s.ids| - Totals(s).approved
    case Disputed => |s.ids| - Totals(s).approved - 1
    case _ => 0
  }

  function Raises(w: World, events: seq<Event>): nat {
    if events == [] then 0
    else
      var init, e := events[..|events| - 1], events[|events| - 1];
      Raises(w, init) + (if e.Invoke? && e.call.Raise? && Exec(Run(w, init), e.env, e.call).Ok? then 1 else 0)
  }

  lemma ChangeRaises(s: Store, s': Store, now: U64, call: Call)
    requires Change(s, s', now, call) && ListOk(s) && BookOk(s)
    requires call.AcceptAmendment? ==> |s'.ids| == |s.ids|
    ensures RaisesLeft(s') <= RaisesLeft(s)
    ensures call.Raise? ==> RaisesLeft(s') < RaisesLeft(s)
  {
    hide Sum, Vested, Share, Claimable, Settled, Consistent;
    if call.Approve? || call.Stream? || call.Slash? || call.Proof? {
      SumUpdate(s.ids, s.milestones, call.id, s'.milestones[call.id]);
    } else if call.Raise? {
      MarkingKeepsSums(s.ids, s.milestones);
    }
  }

  /** Every progress step uses some of what remains up; no other step gives any back. */
  lemma StepProgresses(w: World, now: U64, e: Event)
    requires Inv(w, now) && Legal(w, now, e) && Funded(w)
    ensures Funded(Step(w, e))
    ensures var s, s' := w.store.value, Step(w, e).store.value;
            && Remaining(s') <= Remaining(s) && RaisesLeft(s') <= RaisesLeft(s)
            && (e.Invoke? && Exec(w, e.env, e.call).Ok? ==>
                  && (Progress(e.call) ==> Remaining(s') < Remaining(s))
                  && (e.call.Raise? ==> RaisesLeft(s') < RaisesLeft(s)))
  {
    hide Exec, Change, Step, RecordOk, Remaining, RaisesLeft, TermsOk, Sum;
    FundedStep(w, now, e);
    StepKeeps(w, now, e);
    StepFrames(w, now, e);
    if e.Invoke? && Exec(w, e.env, e.call).Ok? {
      SaneRecords(w.store.value, now);
      if Rewrites(e.call) {
        RewriteProgresses(w.store.value, Step(w, e).store.value, e.env.now, e.call);
      } else {
        OtherProgresses(w.store.value, Step(w, e).store.value, e.env.now, e.call);
      }
      ChangeRaises(w.store.value, Step(w, e).store.value, e.env.now, e.call);
    }
  }

  /** Bounded lifetime: on any run of a funded escrow the progress made and the progress left never
      exceed the progress that was left at the start. */
  lemma {:induction false} BoundedLifetime(w: World, now: U64, events: seq<Event>)
    requires Inv(w, now) && LegalRun(w, now, events) && Funded(w)
    ensures Funded(Run(w, events))
    ensures 0 <= Remaining(Run(w, events).store.value)
    ensures Successes(w, events) + Remaining(Run(w, events).store.value) <= Remaining(w.store.value)
    ensures Raises(w, events) + RaisesLeft(Run(w, events).store.value) <= RaisesLeft(w.store.value)
  {
    hide Inv, Exec, Legal, Step, Clock, Remaining, RaisesLeft;
    RunKeeps(w, now, events);
    assert 0 <= Remaining(Run(w, events).store.value) by {
      FundedRun(w, now, events);
      RunRemaining(Run(w, events), ClockAfter(now, events));
    }
    if events != [] {
      var init, e := events[..|events| - 1], events[|events| - 1];
      BoundedLifetime(w, now, init);
      RunKeeps(w, now, init);
      StepProgresses(Run(w, init), ClockAfter(now, init), e);
    }
  }

  lemma RunRemaining(w: World, now: U64)
    requires Inv(w, now) && Funded(w)
    ensures 0 <= Remaining(w.store.value)
  {
    RemainingNonNegative(w.store.value, now);
  }

  /** In particular, from the moment of funding a dispute can be raised at most once per milestone. */
  lemma AtMostOneDisputePerMilestone(w: World, now: U64, events: seq<Event>)
    requires Inv(w, now) && LegalRun(w, now, events) && Funded(w) && w.store.value.state.Active?
    ensures Raises(w, events) <= |w.store.value.ids| - w.store.value.approved
  {
    hide Exec, LegalRun, Run, Remaining, TermsOk, RecordOk, Sum;
    BoundedLifetime(w, now, events);
    RunKeeps(w, now, events);
    RaisesLeftNonNegative(Run(w, events), ClockAfter(now, events));
  }

  lemma RaisesLeftNonNegative(w: World, now: U64)
    requires Inv(w, now) && w.store.Some?
    ensures 0 <= RaisesLeft(w.store.value)
  {
    hide TermsOk, RecordOk, Sum;
  }

  // ----- Closed escrows -----

  /** Settled by a dispute or cancelled by the timeout refund. */
  predicate Closed(s: Store) {
    s.state.Cancelled? || (s.state.Completed? && Settled(s))
  }

  /** No money has moved between the two stores, in the book or in any record. */
  ghost predicate MoneyFrozen(s: Store, s': Store) {
    && s'.book == s.book && s'.state == s.state && s'.dispute == s.dispute && s'.approved == s.approved
    && forall id :: id in s.milestones ==>
         id in s'.milestones
         && s'.milestones[id].payout == s.milestones[id].payout
         && s'.milestones[id].streamed == s.milestones[id].streamed
         && s'.milestones[id].isApproved == s.milestones[id].isApproved
         && s'.milestones[id].status == s.milestones[id].status
  }

  lemma ChangeAfterClosing(s: Store, s': Store, now: U64, call: Call)
    requires Closed(s) && Change(s, s', now, call)
    ensures MoneyFrozen(s, s')
  {
    hide Totals, Share, Claimable, ClaimedRecord;
  }

  /** Once closed, no run moves money again: the book, the state and every amount stay put. */
  lemma {:induction false} ClosedForever(w: World, now: U64, events: seq<Event>)
    requires Inv(w, now) && LegalRun(w, now, events) && Funded(w) && Closed(w.store.value)
    ensures Funded(Run(w, events)) && MoneyFrozen(w.store.value, Run(w, events).store.value)
  {
    hide Inv, Exec, Legal, Step, Clock, Change;
    if events != [] {
      var init, e := events[..|events| - 1], events[|events| - 1];
      var w1 := Run(w, init);
      ClosedForever(w, now, init);
      RunKeeps(w, now, init);
      FundedStep(w1, ClockAfter(now, init), e);
      if e.Invoke? && Exec(w1, e.env, e.call).Ok? {
        ChangeAfterClosing(w1.store.value, Step(w1, e).store.value, e.env.now, e.call);
      }
    }
  }

  /** Completed and Cancelled are final, also when completion came from approvals. */
  lemma {:induction false} EndingsAreFinal(w: World, now: U64, events: seq<Event>)
    requires Inv(w, now) && LegalRun(w, now, events) && Funded(w)
    requires w.store.value.state.Completed? || w.store.value.state.Cancelled?
    ensures Funded(Run(w, events)) && Run(w, events).store.value.state == w.store.value.state
  {
    hide Inv, Exec, Legal, Step, Clock, Totals, Share, Claimable, ClaimedRecord;
    if events != [] {
      var init, e := events[..|events| - 1], events[|events| - 1];
      EndingsAreFinal(w, now, init);
      RunKeeps(w, now, init);
      FundedStep(Run(w, init), ClockAfter(now, init), e);
    }
  }
}
