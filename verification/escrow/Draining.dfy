/** A completed escrow pays out everything: on any run that claims each stream once after its end. */
module Draining {
  import opened Numeric
  import opened EscrowMath
  import opened Storage
  import opened Tallies
  import opened PaymentLaws
  import opened Schedules
  import opened Lifecycle
  import opened Invariants
  import opened EntryLaws
  import opened Effects
  import opened Runs
  import opened VestingRuns
  import opened Progress

  // ----- Any run -----

  /** The run contains a successful claim for `id` made after its stream has ended. */
  predicate ClaimedAfterEnd(w: World, events: seq<Event>, id: U32)
    requires w.store.Some? && id in w.store.value.milestones
  {
    exists k :: 0 <= k < |events| && ClaimsAt(w, events, k, id)
  }

  predicate ClaimsAt(w: World, events: seq<Event>, k: nat, id: U32)
    requires w.store.Some? && id in w.store.value.milestones && k < |events|
  {
    var m, e := w.store.value.milestones[id], events[k];
    && e.Invoke? && e.call == Stream(id) && m.completedAt + m.vestingSecs <= e.env.now
    && Exec(Run(w, events[..k]), e.env, e.call).Ok?
  }

  lemma PaidUpStays(w: World, now: U64, e: Event, id: U32)
    requires Inv(w, now) && Legal(w, now, e) && Funded(w) && PaidUp(w, id) && w.store.value.milestones[id].isApproved
    ensures Funded(Step(w, e)) && PaidUp(Step(w, e), id) && Step(w, e).store.value.milestones[id].isApproved
  {
    hide Step, Exec, StoreInv, Change, RecordOk, Vested, Share;
    StepFrames(w, now, e);
    StepKeeps(w, now, e);
    InvReadyFor(Step(w, e), Clock(now, e), id);
    assert Sane(Step(w, e).store.value.milestones[id]) by {
      SaneOfRecord(Step(w, e).store.value.milestones[id], Clock(now, e));
    }
  }

  lemma {:induction false} ClaimedIsPaidUp(w: World, now: U64, events: seq<Event>, id: U32)
    requires Inv(w, now) && LegalRun(w, now, events) && Funded(w) && Streaming(w.store.value, id)
    requires PaidUp(w, id) || ClaimedAfterEnd(w, events, id)
    ensures Funded(Run(w, events)) && PaidUp(Run(w, events), id) && Run(w, events).store.value.milestones[id].isApproved
  {
    hide Inv, Legal, Step, Clock, Exec, PaidUp, Vested;
    if events != [] {
      var last := |events| - 1;
      var init := events[..last];
      RunKeeps(w, now, init);
      if !PaidUp(w, id) && ClaimsAt(w, events, last, id) {
        var m, at := w.store.value.milestones[id], events[last].env.now;
        ClaimCatchesUp(w, now, events, id, at);
        StreamNeverAhead(w, now, events, id);
        MatureClaim(m, at);
        assert PaidUp(Run(w, events), id) by { PaidUpNow(Run(w, events), id); }
      } else {
        if !PaidUp(w, id) {
          var k :| 0 <= k < |events| && ClaimsAt(w, events, k, id);
          assert init[..k] == events[..k] && ClaimsAt(w, init, k, id);
        }
        ClaimedIsPaidUp(w, now, init, id);
        PaidUpStays(Run(w, init), ClockAfter(now, init), events[last], id);
      }
    }
  }

  lemma PaidUpNow(w: World, id: U32)
    requires w.store.Some? && id in w.store.value.milestones
    requires w.store.value.milestones[id].streamed == w.store.value.milestones[id].payout
    ensures PaidUp(w, id)
  {
  }

  lemma ChangeUnsettled(s: Store, s': Store, now: U64, call: Call)
    requires Change(s, s', now, call) && s.state.Completed? && !Settled(s)
    ensures s'.state.Completed? && !Settled(s')
  {
    hide Totals, Share, Claimable, ClaimedRecord;
  }

  /** No settlement can follow completion by approvals. */
  lemma {:induction false} StaysUnsettled(w: World, now: U64, events: seq<Event>)
    requires Inv(w, now) && LegalRun(w, now, events) && Funded(w)
    requires w.store.value.state.Completed? && !Settled(w.store.value)
    ensures Funded(Run(w, events))
    ensures Run(w, events).store.value.state.Completed? && !Settled(Run(w, events).store.value)
  {
    hide Inv, Exec, Legal, Step, Clock, Change, Settled;
    if events != [] {
      var init, e := events[..|events| - 1], events[|events| - 1];
      StaysUnsettled(w, now, init);
      RunKeeps(w, now, init);
      FundedStep(Run(w, init), ClockAfter(now, init), e);
      if e.Invoke? && Exec(Run(w, init), e.env, e.call).Ok? {
        ChangeUnsettled(Run(w, init).store.value, Step(Run(w, init), e).store.value, e.env.now, e.call);
      }
    }
  }

  /** After completion by approvals, any run in which every unfinished stream is claimed once after its
      own end, whenever that is and whatever else happens, pays every milestone up, drains the escrow
      and leaves every milestone of positive payout Released. */
  lemma DrainsOnAnyRun(w: World, now: U64, events: seq<Event>)
    requires Inv(w, now) && LegalRun(w, now, events)
    requires w.store.Some? && w.store.value.state.Completed? && !Settled(w.store.value)
    requires forall id :: id in w.store.value.milestones && !PaidUp(w, id) ==> ClaimedAfterEnd(w, events, id)
    ensures Funded(Run(w, events)) && Run(w, events).store.value.book.Locked() == 0
    ensures var s' := Run(w, events).store.value;
            forall id :: id in w.store.value.milestones ==>
              && id in s'.milestones && s'.milestones[id].payout == w.store.value.milestones[id].payout
              && s'.milestones[id].streamed == s'.milestones[id].payout
              && (0 < s'.milestones[id].payout ==> s'.milestones[id].status.Released?)
  {
    hide Inv, Run, LegalRun, Settled, ClaimedAfterEnd, Vested, Share;
    var w' := Run(w, events);
    RunKeeps(w, now, events);
    StaysUnsettled(w, now, events);
    FundedRun(w, now, events);
    forall id | id in w.store.value.milestones
      ensures PaidUp(w', id) && w'.store.value.milestones[id].payout == w.store.value.milestones[id].payout
    {
      CompletedFacts(w, now, id);
      if Streaming(w.store.value, id) {
        ClaimedIsPaidUp(w, now, events, id);
      } else {
        CompletedFacts(w', ClockAfter(now, events), id);
      }
    }
    forall id | id in w'.store.value.milestones
      ensures PaidUp(w', id)
      ensures 0 < w'.store.value.milestones[id].payout ==> w'.store.value.milestones[id].status.Released?
    {
      CompletedFacts(w', ClockAfter(now, events), id);
    }
    NothingLocked(w', ClockAfter(now, events));
  }

  lemma NotYetVested(m: Milestone, at: U64)
    requires 0 < m.payout && 0 < m.vestingSecs && at < m.completedAt + m.vestingSecs
    ensures VestedSoFar(m, at) < m.payout
  {
    if m.completedAt < at {
      var part := at - m.completedAt;
      var whole := m.payout * m.vestingSecs;
      assert m.payout * part < whole;
      QuotientBracket(m.payout * part, m.vestingSecs);
      if m.payout <= m.payout * part / m.vestingSecs {
        ScaleMonotone(m.payout, m.payout * part / m.vestingSecs, m.vestingSecs);
        assert false;
      }
    }
  }

  lemma OnlyClaimsPayUp(s: Store, s': Store, now: U64, call: Call, id: U32)
    requires Change(s, s', now, call) && Streaming(s, id)
    requires 0 <= s.milestones[id].streamed < s.milestones[id].payout
    requires id in s'.milestones && s'.milestones[id].payout == s.milestones[id].payout
             && s'.milestones[id].streamed == s'.milestones[id].payout
    ensures call == Stream(id) && s.milestones[id].completedAt + s.milestones[id].vestingSecs <= now
  {
    hide Totals, Share, Vested;
    if call == Stream(id) && now < s.milestones[id].completedAt + s.milestones[id].vestingSecs {
      NotYetVested(s.milestones[id], now);
      assert false;
    }
  }

  /** A stream that got paid up was claimed after its end. */
  lemma {:induction false} PaidUpWasClaimed(w: World, now: U64, events: seq<Event>, id: U32)
    requires Inv(w, now) && LegalRun(w, now, events) && Funded(w) && Streaming(w.store.value, id)
    requires !PaidUp(w, id) && PaidUp(Run(w, events), id)
    ensures ClaimedAfterEnd(w, events, id)
  {
    hide Inv, Legal, Step, Clock, Exec, PaidUp, Vested, Change;
    if events != [] {
      var last := |events| - 1;
      var init, e := events[..last], events[last];
      var w1, now1 := Run(w, init), ClockAfter(now, init);
      RunKeeps(w, now, init);
      if PaidUp(w1, id) {
        PaidUpWasClaimed(w, now, init, id);
        var k :| 0 <= k < |init| && ClaimsAt(w, init, k, id);
        assert init[..k] == events[..k] && ClaimsAt(w, events, k, id);
      } else {
        StreamNeverAhead(w, now, init, id);
        TurningPoint(w1, now1, e, id);
        assert ClaimsAt(w, events, last, id);
      }
    }
  }

  lemma TurningPoint(w: World, now: U64, e: Event, id: U32)
    requires Inv(w, now) && Legal(w, now, e) && Funded(w) && Streaming(w.store.value, id)
    requires !PaidUp(w, id) && PaidUp(Step(w, e), id)
    ensures var m := w.store.value.milestones[id];
            && e.Invoke? && e.call == Stream(id) && m.completedAt + m.vestingSecs <= e.env.now
            && Exec(w, e.env, e.call).Ok?
  {
    hide Inv, Step, Exec, Change, RecordOk, Vested, Share;
    FundedStep(w, now, e);
    StepFrames(w, now, e);
    InvReadyFor(w, now, id);
    assert Sane(w.store.value.milestones[id]) by { SaneOfRecord(w.store.value.milestones[id], now); }
    OnlyClaimsPayUp(w.store.value, Step(w, e).store.value, e.env.now, e.call, id);
  }

  lemma EmptyIsPaidUp(w: World, now: U64, id: U32)
    requires Inv(w, now) && w.store.Some? && id in w.store.value.milestones
    requires w.store.value.state.Completed? && !Settled(w.store.value) && w.store.value.book.Locked() == 0
    ensures PaidUp(w, id)
  {
    hide TermsOk, RecordOk;
    var s := w.store.value;
    SaneRecords(s, now);
    BackedBalance(s, now);
    SaturationHarmless(s.book);
    SumCovers(s.ids, s.milestones, id);
    CompletedFacts(w, now, id);
  }

  /** Exactly so: after completion by approvals a run leaves nothing locked if and only if it claims
      every unfinished stream at least once after its own end. */
  lemma DrainedExactly(w: World, now: U64, events: seq<Event>)
    requires Inv(w, now) && LegalRun(w, now, events)
    requires w.store.Some? && w.store.value.state.Completed? && !Settled(w.store.value)
    ensures Funded(Run(w, events))
    ensures Run(w, events).store.value.book.Locked() == 0 <==>
            forall id :: id in w.store.value.milestones && !PaidUp(w, id) ==> ClaimedAfterEnd(w, events, id)
  {
    hide Inv, Run, LegalRun, Settled, ClaimedAfterEnd, Vested, PaidUp, Share;
    StaysUnsettled(w, now, events);
    if Run(w, events).store.value.book.Locked() == 0 {
      RunKeeps(w, now, events);
      FundedRun(w, now, events);
      forall id | id in w.store.value.milestones && !PaidUp(w, id) ensures ClaimedAfterEnd(w, events, id) {
        EmptyIsPaidUp(Run(w, events), ClockAfter(now, events), id);
        UnfinishedStreams(w, now, id);
        PaidUpWasClaimed(w, now, events, id);
      }
    } else if forall id :: id in w.store.value.milestones && !PaidUp(w, id) ==> ClaimedAfterEnd(w, events, id) {
      DrainsOnAnyRun(w, now, events);
    }
  }

  lemma UnfinishedStreams(w: World, now: U64, id: U32)
    requires Inv(w, now) && w.store.Some? && id in w.store.value.milestones && !PaidUp(w, id)
    requires w.store.value.state.Completed? && !Settled(w.store.value)
    ensures Streaming(w.store.value, id)
  {
    hide Inv, Settled;
    CompletedFacts(w, now, id);
  }

  // ----- Such claims succeed -----

  function Claims(env: Env, ids: seq<U32>): seq<Event> {
    seq(|ids|, i requires 0 <= i < |ids| => Invoke(env, Stream(ids[i])))
  }

  /** A milestone whose stream has run its course, with arithmetic that fits. */
  predicate Mature(m: Milestone, now: U64, feeBps: U32) {
    0 < m.vestingSecs ==> m.completedAt + m.vestingSecs <= now && m.payout * feeBps <= I128_MAX
  }

  /** Completed by approvals, unpaused, signed by the recipient, with every stream mature. */
  ghost predicate Drainable(w: World, env: Env) {
    w.store.Some? && Roomy(w) && w.self !in env.auths &&
    (var s := w.store.value;
     && s.state.Completed? && !Settled(s) && !s.paused && s.config.recipient in env.auths
     && forall id :: id in s.milestones ==> Mature(s.milestones[id], env.now, s.feeBps))
  }

  predicate PaidUp(w: World, id: U32) {
    w.store.Some? && id in w.store.value.milestones
    && w.store.value.milestones[id].streamed == w.store.value.milestones[id].payout
  }

  /** A claim on a mature, unfinished stream succeeds. */
  lemma MatureClaimSucceeds(w: World, now: U64, env: Env, id: U32)
    requires ReadyFor(w, now, id) && now <= env.now && Drainable(w, env) && Streaming(w.store.value, id)
    requires w.store.value.milestones[id].streamed < w.store.value.milestones[id].payout
    ensures Exec(w, env, Stream(id)).Ok?
  {
    hide StreamMilestonePayout, RecordOk, Payable, Moved, Roomy, Vested, Share;
    var s := w.store.value;
    var m := s.milestones[id];
    assert Sane(m) by { SaneOfRecord(m, now); }
    MatureClaim(m, env.now);
    SmallerProduct(m, s.feeBps);
    SmallIsPayable(w, s, m.payout - m.streamed);
    StreamExact(w, now, env, id);
  }

  lemma SaneOfRecord(m: Milestone, now: U64)
    requires RecordOk(m, now)
    ensures Sane(m)
  {
  }

  /** A claim on a mature stream pays it up. */
  lemma ClaimPaysUp(w: World, now: U64, env: Env, id: U32)
    requires Inv(w, now) && now <= env.now && Drainable(w, env) && id in w.store.value.milestones
    ensures PaidUp(Step(w, Invoke(env, Stream(id))), id)
  {
    hide Inv, Exec, ReadyFor, RecordOk, Roomy, Vested;
    var m := w.store.value.milestones[id];
    CompletedFacts(w, now, id);
    if m.streamed < m.payout {
      MatureClaim(m, env.now);
      InvReadyFor(w, now, id);
      MatureClaimSucceeds(w, now, env, id);
      ChangeOf(w, now, env, Stream(id));
    } else {
      NoClaimLeft(w, env, id);
    }
  }

  lemma MatureClaim(m: Milestone, now: U64)
    requires 0 < m.vestingSecs && m.completedAt + m.vestingSecs <= now
    ensures VestingFits(m, now) && VestedSoFar(m, now) == m.payout && Claimable(m, now) == m.payout - m.streamed
  {
  }

  lemma SmallerProduct(m: Milestone, bps: U32)
    requires 0 <= m.streamed <= m.payout && m.payout * bps <= I128_MAX
    ensures (m.payout - m.streamed) * bps <= I128_MAX
  {
    ScaleMonotone(m.payout - m.streamed, m.payout, bps);
  }

  lemma NoClaimLeft(w: World, env: Env, id: U32)
    requires w.store.Some? && id in w.store.value.milestones
    requires w.store.value.milestones[id].payout <= w.store.value.milestones[id].streamed
    ensures Exec(w, env, Stream(id)).Err?
  {
  }

  /** A claim leaves the rest of the escrow drainable and never undoes what is paid up. */
  lemma ClaimKeepsDrainable(w: World, now: U64, env: Env, id: U32)
    requires Inv(w, now) && now <= env.now && Drainable(w, env)
    ensures Drainable(Step(w, Invoke(env, Stream(id))), env)
    ensures forall x :: PaidUp(w, x) ==> PaidUp(Step(w, Invoke(env, Stream(id))), x)
    ensures forall x :: x in w.store.value.milestones <==>
                        x in Step(w, Invoke(env, Stream(id))).store.value.milestones
    ensures Step(w, Invoke(env, Stream(id))).store.value.ids == w.store.value.ids
  {
    hide Inv, StreamMilestonePayout, RecordOk, Payable, Share, Vested, VestingFits;
    InvReadyFor(w, now, id);
    if Exec(w, env, Stream(id)).Ok? {
      StreamExact(w, now, env, id);
      ChangeOf(w, now, env, Stream(id));
      ClaimBounds(w.store.value.milestones[id], now, env.now);
    }
  }

  lemma {:induction false} ClaimsPayUp(w: World, now: U64, env: Env, ids: seq<U32>)
    requires Inv(w, now) && now <= env.now && Drainable(w, env)
    requires forall i :: 0 <= i < |ids| ==> ids[i] in w.store.value.milestones
    ensures var w' := Run(w, Claims(env, ids));
            && Inv(w', env.now) && Drainable(w', env)
            && (forall x :: x in w.store.value.milestones <==> x in w'.store.value.milestones)
            && w'.store.value.ids == w.store.value.ids
            && forall i :: 0 <= i < |ids| ==> PaidUp(w', ids[i])
  {
    hide Inv, Step, Drainable, PaidUp;
    if ids == [] {
      InvLater(w, now, env.now);
      assert Claims(env, ids) == [];
    } else {
      var init, last := ids[..|ids| - 1], ids[|ids| - 1];
      var w1 := Run(w, Claims(env, init));
      ClaimsPayUp(w, now, env, init);
      assert Claims(env, ids)[..|ids| - 1] == Claims(env, init);
      ClaimIsLegal(w1, env, last);
      StepKeeps(w1, env.now, Invoke(env, Stream(last)));
      ClaimKeepsDrainable(w1, env.now, env, last);
      ClaimPaysUp(w1, env.now, env, last);
    }
  }

  lemma ClaimIsLegal(w: World, env: Env, id: U32)
    requires Drainable(w, env)
    ensures Legal(w, env.now, Invoke(env, Stream(id))) && w.store.Some?
  {
  }

  /** From completion by approvals, one claim per milestone after the last stream has matured drains
      the escrow: nothing stays locked and every milestone of positive payout is Released. */
  lemma CompletedEscrowDrains(w: World, now: U64, env: Env)
    requires Reachable(w, now) && now <= env.now && Drainable(w, env)
    ensures var w' := Run(w, Claims(env, w.store.value.ids));
            && w'.store.Some? && w'.store.value.book.Locked() == 0
            && forall id :: id in w.store.value.milestones ==>
                 id in w'.store.value.milestones
                 && w'.store.value.milestones[id].streamed == w'.store.value.milestones[id].payout
                 && (0 < w'.store.value.milestones[id].payout ==> w'.store.value.milestones[id].status.Released?)
  {
    hide Reachable, Run, Solvent, TermsOk, RecordOk, Roomy;
    ReachableInv(w, now);
    var ids := w.store.value.ids;
    var w' := Run(w, Claims(env, ids));
    ClaimsPayUp(w, now, env, ids);
    forall id | id in w'.store.value.milestones
      ensures PaidUp(w', id)
      ensures 0 < w'.store.value.milestones[id].payout ==> w'.store.value.milestones[id].status.Released?
    {
      CompletedFacts(w', env.now, id);
    }
    NothingLocked(w', env.now);
  }

  lemma NothingLocked(w: World, now: U64)
    requires Inv(w, now) && w.store.Some? && w.store.value.state.Completed? && !Settled(w.store.value)
    requires forall id :: id in w.store.value.milestones ==> PaidUp(w, id)
    ensures w.store.value.book.Locked() == 0
  {
    hide TermsOk, RecordOk;
    var s := w.store.value;
    SaneRecords(s, now);
    AllPaid(s.ids, s.milestones);
    SaturationHarmless(s.book);
  }

  lemma {:induction false} AllPaid(ids: seq<U32>, milestones: map<U32, Milestone>)
    requires forall id :: id in ids ==> id in milestones && milestones[id].streamed == milestones[id].payout
    ensures Sum(ids, milestones).payout == Sum(ids, milestones).streamed
  {
    if ids != [] {
      assert ids[|ids| - 1] in ids;
      AllPaid(ids[..|ids| - 1], milestones);
    }
  }
}
