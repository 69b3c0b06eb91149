/** The timeout refund in every reachable state: what it pays, what it leaves behind for good, and
    when it cannot help. */
module Timeouts {
  import opened Numeric
  import opened Results
  import opened Storage
  import opened PaymentLaws
  import opened Tallies
  import opened Lifecycle
  import opened Invariants
  import opened EntryLaws
  import opened Preservation
  import opened Effects
  import opened Runs
  import opened Lifetime
  import opened Progress

  /** The refund in a reachable state: it succeeds exactly when unpaused, signed, Active and past the
      lock with something open and room for it.  It returns exactly the payouts of the unapproved
      milestones and leaves locked exactly what was approved but not yet streamed. */
  lemma RefundExactly(w: World, now: U64, env: Env)
    requires Reachable(w, now) && w.store.Some?
    ensures var s := w.store.value; var r := ClaimTimeoutRefund(w, env); var open := Totals(s).open;
            && (r.Ok? <==>
                  && !s.paused && s.config.funder in env.auths && s.state.Active? && s.lockUntil <= env.now
                  && 0 < open && Room(w, s.config.funder, open))
            && (r.Ok? ==>
                  && r.value.self == w.self && 0 <= s.book.refunded + open <= I128_MAX
                  && r.value.store == Some(s.(state := EscrowState.Cancelled,
                                              book := s.book.(refunded := s.book.refunded + open)))
                  && r.value.store.value.book.Balance() == Totals(s).owed
                  && Moved(w.token, r.value.token, w.self, s.config.funder, open, s.config.funder, 0))
  {
    hide Reachable, Inv, Ready, Collectable, ClaimTimeoutRefund, Totals, Room, Moved;
    ReachableInv(w, now);
    InvReady(w, now);
    SoundBook(w, now);
    if w.store.value.state.Active? {
      ActiveCollectable(w, now);
    }
    TimeoutExact(w, env);
  }

  /** The reserve is stuck: the refund empties the escrow if and only if nothing approved was still
      unstreamed, and whatever it leaves stays locked on every later run. */
  lemma ReserveIsStuck(w: World, now: U64, env: Env, events: seq<Event>)
    requires Reachable(w, now) && w.store.Some? && Legal(w, now, Invoke(env, TimeoutRefund))
    requires ClaimTimeoutRefund(w, env).Ok?
    requires LegalRun(ClaimTimeoutRefund(w, env).value, env.now, events)
    ensures var w' := ClaimTimeoutRefund(w, env).value; var owed := Totals(w.store.value).owed;
            && w'.store.Some? && 0 <= owed
            && (w'.store.value.book.Locked() == 0 <==> owed == 0)
            && Run(w', events).store.Some? && Run(w', events).store.value.state.Cancelled?
            && Run(w', events).store.value.book.Locked() == owed
  {
    hide Reachable, Inv, Legal, ClaimTimeoutRefund, Run, LegalRun, Totals, Room, Moved;
    RefundExactly(w, now, env);
    ReachableInv(w, now);
    StepKeeps(w, now, Invoke(env, TimeoutRefund));
    var w' := ClaimTimeoutRefund(w, env).value;
    assert w' == Step(w, Invoke(env, TimeoutRefund));
    ClosedForever(w', env.now, events);
    SoundBook(w', env.now);
    SaturationHarmless(w'.store.value.book);
  }

  lemma SoundBook(w: World, now: U64)
    requires Inv(w, now) && w.store.Some?
    ensures Consistent(w.store.value.book)
  {
    hide Solvent, ListOk, RecordsOk, TermsOk, Totals;
  }

  // ----- When the timeout cannot help -----

  /** No call opens anything up again. */
  lemma ChangeOpens(s: Store, s': Store, now: U64, call: Call)
    requires Change(s, s', now, call) && ListOk(s)
    requires (call.Approve? || call.Slash?) && call.id in s.milestones ==> 0 <= s.milestones[call.id].payout
    ensures Totals(s').open <= Totals(s).open
  {
    hide Sum, Claimable;
    if call.Approve? || call.Stream? || call.Slash? || call.Proof? {
      SumUpdate(s.ids, s.milestones, call.id, s'.milestones[call.id]);
    } else if call.Raise? {
      MarkingKeepsSums(s.ids, s.milestones);
    }
  }

  /** Nothing is open, and the escrow was not cancelled while something was. */
  predicate NothingOpen(s: Store) {
    !s.state.Cancelled? && Totals(s).open == 0
  }

  lemma StepOpensNothing(w: World, now: U64, e: Event)
    requires Inv(w, now) && Legal(w, now, e) && Funded(w) && NothingOpen(w.store.value)
    ensures Funded(Step(w, e)) && NothingOpen(Step(w, e).store.value)
  {
    hide Exec, Step, Change, RecordOk, TermsOk, BookOk, Sum;
    FundedStep(w, now, e);
    StepKeeps(w, now, e);
    if e.Invoke? && Exec(w, e.env, e.call).Ok? {
      var s, s' := w.store.value, Step(w, e).store.value;
      assert ListOk(s) && AllSane(s.ids, s.milestones) by { SaneRecords(s, now); }
      ChangeOpens(s, s', e.env.now, e.call);
      SaneRecords(s', e.env.now);
      SumLaws(s'.ids, s'.milestones);
      NotCancelled(s, s', e.env.now, e.call);
    }
  }

  lemma NotCancelled(s: Store, s': Store, now: U64, call: Call)
    requires Change(s, s', now, call) && NothingOpen(s)
    ensures !s'.state.Cancelled?
  {
    hide Sum, Claimable;
  }

  /** With a worthless lump sum and nothing open, neither approvals nor the timeout ever end the
      escrow: whatever happens, only a settlement can. */
  lemma {:induction false} OnlySettlementEnds(w: World, now: U64, events: seq<Event>, id: U32)
    requires Inv(w, now) && LegalRun(w, now, events) && Funded(w)
    requires Worthless(w.store.value, id) && NothingOpen(w.store.value)
    ensures Funded(Run(w, events)) && NothingOpen(Run(w, events).store.value)
    ensures var s := Run(w, events).store.value;
            s.state.Active? || s.state.Disputed? || (s.state.Completed? && Settled(s))
  {
    hide Inv, Legal, Step, Clock, Worthless, NothingOpen, Settled;
    if events != [] {
      var init := events[..|events| - 1];
      OnlySettlementEnds(w, now, init, id);
      RunKeeps(w, now, init);
      StepOpensNothing(Run(w, init), ClockAfter(now, init), events[|events| - 1]);
    }
    WorthlessBlocksCompletion(w, now, events, id);
    assert !Run(w, events).store.value.state.Cancelled? by { NotCancelledYet(Run(w, events).store.value); }
  }

  lemma NotCancelledYet(s: Store)
    requires NothingOpen(s)
    ensures !s.state.Cancelled?
  {
  }
}
