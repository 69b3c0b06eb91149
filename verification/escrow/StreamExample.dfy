/** A concrete escrow with an approved stream, a lump sum still open and the contract as its own
    treasury; and the three ways its books come apart from what one would expect. */
module StreamExample {
  import opened Results
  import opened Storage
  import opened Tallies
  import opened Payments
  import opened PaymentLaws
  import opened Committee
  import opened Lifecycle
  import opened Invariants
  import opened EntryLaws
  import opened Runs
  import opened Disputes
  import opened Progress
  import opened Timeouts
  import opened Requests
  import opened Actors

  const STREAM := Milestone(1, 10, Hash(7), false, 0, MilestoneStatus.Pending, 0, 100, 0, 0, false)
  const LUMP := Milestone(2, 10, Hash(8), false, 0, MilestoneStatus.Pending, 0, 0, 0, 0, false)
  const START := World(CONTRACT, None, Token(map[FUNDER := 20], map[(FUNDER, CONTRACT) := 20]))

  /** The funder, after the lock has run out. */
  const LATE := Env(AT + DEFAULT_LOCK_WINDOW, {FUNDER})

  lemma TwoJobs()
    ensures PlanOf([STREAM, LUMP]) == Ok(Plan([1, 2], map[1 := STREAM, 2 := LUMP], 20))
  {
    var jobs := [STREAM, LUMP];
    var one := [STREAM];
    assert jobs[..1] == one && one[..0] == [] && PlanOf(one[..0]) == Ok(Plan([], map[], 0));
    assert Fresh(STREAM) == STREAM && Fresh(LUMP) == LUMP;
    assert [] + [STREAM.id] == [1] && map[][STREAM.id := STREAM] == map[1 := STREAM];
    assert PlanOf(one) == Ok(Plan([1], map[1 := STREAM], 10));
    assert [1] + [LUMP.id] == [1, 2] && map[1 := STREAM][LUMP.id := LUMP] == map[1 := STREAM, 2 := LUMP];
  }

  /** A fee of one tenth, to the contract's own address. */
  function Configured(): World {
    Step(Step(START, Invoke(ENV, Init(FUNDER, RECIPIENT, ARBITRATOR, ASSET, Some(7), [STREAM, LUMP]))),
         Invoke(ENV, SetFee(CONTRACT, 1_000)))
  }

  /** What the configuration fixes. */
  predicate Fixed(w: World) {
    w.self == CONTRACT && w.store.Some? &&
    (var s := w.store.value;
     && !s.paused && s.ids == [1, 2] && s.feeBps == 1_000 && s.treasury == CONTRACT
     && s.config.funder == FUNDER && s.config.recipient == RECIPIENT && s.config.arbitrator == ARBITRATOR
     && s.config.lockSecs == DEFAULT_LOCK_WINDOW && s.config.totalAmount == 20
     && s.config.releaseThreshold == 2)
  }

  lemma ConfiguredFacts()
    ensures Reachable(Configured(), AT) && Fixed(Configured()) && Configured().token == START.token
    ensures var s := Configured().store.value;
            && s.state.Pending? && s.book == EMPTY_BOOK && s.approved == 0
            && s.milestones == map[1 := STREAM, 2 := LUMP]
  {
    hide Reachable;
    var init := Init(FUNDER, RECIPIENT, ARBITRATOR, ASSET, Some(7), [STREAM, LUMP]);
    var w := Step(START, Invoke(ENV, init));
    TwoJobs();
    ReachableStart(START, AT);
    ReachableStep(START, AT, Invoke(ENV, init));
    ReachableStep(w, AT, Invoke(ENV, SetFee(CONTRACT, 1_000)));
  }

  function Paid(): World {
    Step(Configured(), Invoke(ENV, Deposit))
  }

  predicate Balances(w: World, funder: int, recipient: int, contract: int) {
    && w.token.Balance(FUNDER) == funder && w.token.Balance(RECIPIENT) == recipient
    && w.token.Balance(CONTRACT) == contract
  }

  lemma PaidFacts()
    ensures Reachable(Paid(), AT) && Fixed(Paid()) && Balances(Paid(), 0, 0, 20)
    ensures var s := Paid().store.value;
            && s.state.Active? && s.book == Book(20, 0, 0) && s.approved == 0 && s.lockUntil == LATE.now
            && s.milestones == map[1 := STREAM, 2 := LUMP]
  {
    hide Reachable, Configured, Run, Token.TransferFrom;
    ConfiguredFacts();
    ReachableStep(Configured(), AT, Invoke(ENV, Deposit));
    TransferFromExact(START.token, CONTRACT, FUNDER, CONTRACT, 20);
  }

  /** The stream is approved, the lump sum still open. */
  function Streaming1(): World {
    Step(Paid(), Invoke(ENV, Approve(1)))
  }

  const APPROVED := STREAM.(isApproved := true, completedAt := AT, status := MilestoneStatus.UnderReview)

  lemma StreamingFacts()
    ensures Reachable(Streaming1(), AT) && Fixed(Streaming1()) && Balances(Streaming1(), 0, 0, 20)
    ensures var s := Streaming1().store.value;
            && s.state.Active? && s.book == Book(20, 0, 0) && s.approved == 1 && s.lockUntil == LATE.now
            && s.milestones == map[1 := APPROVED, 2 := LUMP]
  {
    hide Reachable, Paid, Run, PayWithFee;
    PaidFacts();
    ReachableStep(Paid(), AT, Invoke(ENV, Approve(1)));
  }

  lemma TwoTotals(a: Milestone, b: Milestone)
    ensures Sum([1, 2], map[1 := a, 2 := b]) == Weight(a).Plus(Weight(b))
  {
    var ids, weights := [1, 2], Weights(map[1 := a, 2 := b]);
    assert ids[..1] == [1] && [1][..0] == [];
    assert At(weights, 1) == Weight(a) && At(weights, 2) == Weight(b);
    hide At, Weights, Weight;
    assert Total([], weights) == ZERO;
    assert Total([1], weights) == Weight(a);
  }

  lemma StreamingTotals()
    ensures Streaming1().store.Some?
    ensures var t := Totals(Streaming1().store.value); t.owed == 10 && t.open == 10
  {
    hide Streaming1, Sum;
    StreamingFacts();
    TwoTotals(APPROVED, LUMP);
  }

  // ----- The reserve nobody can collect -----

  /** The timeout refund succeeds in a reachable state and leaves ten units locked on every later run. */
  lemma StuckReserve(events: seq<Event>)
    requires LegalRun(Step(Streaming1(), Invoke(LATE, TimeoutRefund)), LATE.now, events)
    ensures Reachable(Streaming1(), AT) && Legal(Streaming1(), AT, Invoke(LATE, TimeoutRefund))
    ensures ClaimTimeoutRefund(Streaming1(), LATE).Ok?
    ensures var w := Run(Step(Streaming1(), Invoke(LATE, TimeoutRefund)), events);
            w.store.Some? && w.store.value.state.Cancelled? && w.store.value.book.Locked() == 10
  {
    hide Reachable, Streaming1, Totals, Run, LegalRun, ClaimTimeoutRefund, Moved;
    StreamingFacts();
    StreamingTotals();
    RefundExactly(Streaming1(), AT, LATE);
    ReserveIsStuck(Streaming1(), AT, LATE, events);
  }

  // ----- The approved stream that a settlement splits away -----

  function Disputed(): World {
    Step(Streaming1(), Invoke(ENV, Raise))
  }

  lemma DisputedFacts()
    ensures Reachable(Disputed(), AT) && Fixed(Disputed()) && Balances(Disputed(), 0, 0, 20)
    ensures var s := Disputed().store.value;
            && s.state.Disputed? && s.book == Book(20, 0, 0) && Streaming(s, 1) && s.milestones[1].streamed == 0
  {
    hide Reachable, Streaming1, Run;
    StreamingFacts();
    RaiseExact(Streaming1(), AT, ENV);
    ReachableStep(Streaming1(), AT, Invoke(ENV, Raise));
  }

  lemma EvenSplit(w: World)
    requires Fixed(w) && Balances(w, 0, 0, 20) && w.store.value.book == Book(20, 0, 0)
    ensures Splittable(w, w.store.value, 5_000, 5_000)
  {
  }

  lemma SplitSucceeds()
    ensures Exec(Disputed(), JUDGE, Resolve(5_000, 5_000)).Ok?
  {
    hide Reachable, Disputed, Inv, Run, ResolveDispute, Streaming, Balances, Splittable;
    DisputedFacts();
    EvenSplit(Disputed());
    ReachableInv(Disputed(), AT);
    ResolveExact(Disputed(), AT, JUDGE, 5_000, 5_000);
  }

  /** The arbitrator's even split succeeds in a reachable state, takes the approved stream with it, and
      leaves a book that no longer agrees with the records. */
  lemma SplitAway()
    ensures Reachable(Disputed(), AT) && Disputed().store.Some?
    ensures Streaming(Disputed().store.value, 1) && Disputed().store.value.milestones[1].streamed == 0
    ensures Exec(Disputed(), JUDGE, Resolve(5_000, 5_000)).Ok?
    ensures var w' := Exec(Disputed(), JUDGE, Resolve(5_000, 5_000)).value;
            w'.store.Some? && w'.store.value.book == Book(20, 10, 10) && !Backed(w'.store.value)
  {
    hide Reachable, Disputed, Inv, Run, Backed, Moved, Exec, Streaming, Balances;
    DisputedFacts();
    ReachableInv(Disputed(), AT);
    SplitSucceeds();
    SettlementPaysEverything(Disputed(), AT, JUDGE, Resolve(5_000, 5_000));
    SettlementBacked(Disputed(), AT, JUDGE, Resolve(5_000, 5_000));
  }

  // ----- The fee that stays behind -----

  /** Approving the lump sum pays the recipient nine units and books ten as released: the tenth stays
      with the contract, beyond its book. */
  lemma FeeStaysBehind()
    ensures Reachable(Streaming1(), AT) && Streaming1().store.Some? && ApproveMilestone(Streaming1(), ENV, 2).Ok?
    ensures Surplus(Streaming1()) == 0
    ensures var w' := ApproveMilestone(Streaming1(), ENV, 2).value;
            && w'.store.Some? && w'.store.value.book == Book(20, 10, 0)
            && w'.token.Balance(RECIPIENT) == 9 && w'.token.Balance(CONTRACT) == 11 && Surplus(w') == 1
  {
    hide Reachable, Streaming1, Inv, Run, ApproveMilestone;
    StreamingFacts();
    ApprovalSucceedsExactly(Streaming1(), AT, ENV, 2);
  }
}
