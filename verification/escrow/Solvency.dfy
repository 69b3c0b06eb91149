/** The token ledger against the book, and the full account of each milestone's money. */
module Solvency {
  import opened Numeric
  import opened EscrowMath
  import opened Storage
  import opened Payments
  import opened PaymentLaws
  import opened Schedules
  import opened Committee
  import opened Lifecycle
  import opened Invariants
  import opened EntryLaws
  import opened Preservation
  import opened Effects
  import opened Runs
  import opened Disputes

  // ----- What the contract pays to itself -----

  /** What a disbursement of `gross` pays to the contract's own address: the fee if the treasury is
      the contract, the net if the recipient is. */
  function Kept(w: World, s: Store, gross: int): int {
    var fee := Fee(gross, s.feeBps);
    (if s.treasury == w.self then fee else 0) + (if s.config.recipient == w.self then gross - fee else 0)
  }

  /** What a call, if it succeeds, pays to the contract's own address, read off the state before it. */
  function Retained(w: World, env: Env, call: Call): int {
    if w.store.None? then 0
    else
      var s := w.store.value;
      match call
      case Approve(id) => if id in s.milestones then Kept(w, s, LumpSum(s.milestones[id])) else 0
      case Stream(id) => if Streaming(s, id) then Kept(w, s, Claimable(s.milestones[id], env.now)) else 0
      case Resolve(funderBps, _) => RetainedSplit(w, s, funderBps)
      case SettleQuorum(funderBps, _, _) => RetainedSplit(w, s, funderBps)
      case _ => 0
  }

  function RetainedSplit(w: World, s: Store, funderBps: U32): int {
    if s.config.recipient == w.self then s.book.Locked() - Share(s.book.Locked(), funderBps) else 0
  }

  /** Calls that touch neither book nor tokens. */
  predicate Moneyless(call: Call) {
    || call.Proof? || call.Raise? || call.Pause? || call.Unpause? || call.ProposeAmendment? || call.AcceptAmendment?
    || call.AddEvidence? || call.SetCommittee? || call.SetPenalty? || call.SetFee?
  }

  lemma MoneylessKeeps(w: World, env: Env, call: Call)
    requires w.store.Some? && Moneyless(call) && Exec(w, env, call).Ok?
    ensures var w' := Exec(w, env, call).value;
            w'.store.Some? && w'.self == w.self && w'.token == w.token && w'.store.value.book == w.store.value.book
  {
    hide ReorderMilestone, ScreenMembers, MarkOpenMilestonesDisputed;
  }

  lemma ApproveSurplus(w: World, now: U64, env: Env, id: U32)
    requires ReadyFor(w, now, id) && ApproveMilestone(w, env, id).Ok?
    ensures var w' := ApproveMilestone(w, env, id).value;
            && w'.store.Some? && w'.self == w.self && 0 <= Retained(w, env, Approve(id))
            && Surplus(w') == Surplus(w) + Retained(w, env, Approve(id))
  {
    hide Payable, RecordOk, ApproveMilestone, Share, ApprovedRecord;
    ApproveExact(w, now, env, id);
  }

  lemma StreamSurplus(w: World, now: U64, env: Env, id: U32)
    requires ReadyFor(w, now, id) && now <= env.now && StreamMilestonePayout(w, env, id).Ok?
    ensures var w' := StreamMilestonePayout(w, env, id).value;
            && w'.store.Some? && w'.self == w.self && 0 <= Retained(w, env, Stream(id))
            && Surplus(w') == Surplus(w) + Retained(w, env, Stream(id))
  {
    hide Payable, RecordOk, StreamMilestonePayout, Claimable, ClaimedRecord, Share, VestingFits;
    StreamExact(w, now, env, id);
  }

  lemma EmptyBeforeDeposit(w: World, env: Env)
    requires Ready(w) && DepositFunds(w, env).Ok?
    ensures w.store.Some? && w.store.value.book == EMPTY_BOOK && w.store.value.config.funder != w.self
  {
    hide Token.TransferFrom, Solvent;
  }

  lemma DepositSurplus(w: World, env: Env)
    requires Ready(w) && DepositFunds(w, env).Ok?
    ensures var w' := DepositFunds(w, env).value; w'.store.Some? && w'.self == w.self && Surplus(w') == Surplus(w)
  {
    hide *;
    EmptyBeforeDeposit(w, env);
    DepositExact(w, env);
    var w' := DepositFunds(w, env).value;
    DepositBalances(w.store.value.book, w'.store.value.book);
    BalancedSurplus(w, w');
  }

  lemma DepositBalances(b: Book, b': Book)
    requires b == EMPTY_BOOK && b'.released == b.released && b'.refunded == b.refunded
    ensures b.Balance() == 0 && b'.Balance() == b'.deposited
  {
  }

  lemma BalancedSurplus(w: World, w': World)
    requires w.store.Some? && w'.store.Some? && w'.self == w.self
    requires w'.token.Balance(w.self) - w.token.Balance(w.self)
          == w'.store.value.book.Balance() - w.store.value.book.Balance()
    ensures Surplus(w') == Surplus(w)
  {
  }

  lemma SlashSurplus(w: World, now: U64, env: Env, id: U32)
    requires Inv(w, now) && w.store.Some? && ApplyLatePenalty(w, env, id).Ok?
    ensures var w' := ApplyLatePenalty(w, env, id).value;
            w'.store.Some? && w'.self == w.self && Surplus(w') == Surplus(w)
  {
    hide Inv, RecordOk, ApplyLatePenalty, Share, Room;
    InvReadyFor(w, now, id);
    SlashExact(w, now, env, id);
  }

  lemma TimeoutSurplus(w: World, now: U64, env: Env)
    requires Inv(w, now) && w.store.Some? && ClaimTimeoutRefund(w, env).Ok?
    ensures var w' := ClaimTimeoutRefund(w, env).value;
            w'.store.Some? && w'.self == w.self && Surplus(w') == Surplus(w)
  {
    hide RecordOk, Solvent, Totals, Collectable, Room, BookOk, TermsOk, Refund, UnstreamedObligation;
    InvReady(w, now);
    assert w.store.value.state.Active?;
    ActiveCollectable(w, now);
    hide ClaimTimeoutRefund;
    TimeoutExact(w, env);
  }

  lemma ReturnSurplus(w: World, now: U64, env: Env, call: Call)
    requires Inv(w, now) && w.store.Some? && (call.Deposit? || call.Slash? || call.TimeoutRefund?)
    requires Exec(w, env, call).Ok?
    ensures var w' := Exec(w, env, call).value; w'.store.Some? && w'.self == w.self && Surplus(w') == Surplus(w)
  {
    hide Inv, Surplus, DepositFunds, ApplyLatePenalty, ClaimTimeoutRefund;
    match call
    case Deposit =>
      InvReady(w, now);
      DepositSurplus(w, env);
    case Slash(id) => SlashSurplus(w, now, env, id);
    case TimeoutRefund => TimeoutSurplus(w, now, env);
  }

  lemma SettlementSurplus(w: World, now: U64, env: Env, call: Call)
    requires Inv(w, now) && w.store.Some? && (call.Resolve? || call.SettleQuorum?)
    requires Exec(w, env, call).Ok?
    ensures var w' := Exec(w, env, call).value;
            && w'.store.Some? && w'.self == w.self && 0 <= Retained(w, env, call)
            && Surplus(w') == Surplus(w) + Retained(w, env, call)
  {
    hide Inv, Exec, Share;
    InvReady(w, now);
    SettlementPaysEverything(w, now, env, call);
    SaturationHarmless(w.store.value.book);
  }

  /** Whatever the contract is called to do, the tokens it holds change by exactly the change of the
      locked balance plus what the call pays to the contract itself; so they track the book to the
      unit if and only if that is nothing. */
  lemma SurplusExact(w: World, now: U64, env: Env, call: Call)
    requires Inv(w, now) && now <= env.now && Exec(w, env, call).Ok?
    ensures 0 <= Retained(w, env, call)
    ensures Surplus(Exec(w, env, call).value) == Surplus(w) + Retained(w, env, call)
  {
    hide Inv, Exec, Surplus, Retained;
    if call.Init? {
      InitSurplus(w, env, call);
      NothingRetained(w, env, call);
    } else if w.store.None? {
      NotInitialised(w, env, call);
      assert false;
    } else if call.Approve? || call.Stream? {
      PaidSurplus(w, now, env, call);
    } else if call.Resolve? || call.SettleQuorum? {
      SettlementSurplus(w, now, env, call);
    } else if call.Deposit? || call.Slash? || call.TimeoutRefund? {
      ReturnSurplus(w, now, env, call);
      NothingRetained(w, env, call);
    } else {
      MoneylessKeeps(w, env, call);
      SameSurplus(w, Exec(w, env, call).value);
      NothingRetained(w, env, call);
    }
  }

  lemma NothingRetained(w: World, env: Env, call: Call)
    requires !call.Approve? && !call.Stream? && !call.Resolve? && !call.SettleQuorum?
    ensures Retained(w, env, call) == 0
  {
  }

  lemma PaidSurplus(w: World, now: U64, env: Env, call: Call)
    requires Inv(w, now) && now <= env.now && w.store.Some? && (call.Approve? || call.Stream?)
    requires Exec(w, env, call).Ok?
    ensures var w' := Exec(w, env, call).value;
            && w'.store.Some? && w'.self == w.self && 0 <= Retained(w, env, call)
            && Surplus(w') == Surplus(w) + Retained(w, env, call)
  {
    hide Inv, Surplus, Retained, ApproveMilestone, StreamMilestonePayout, ReadyFor;
    InvReadyFor(w, now, call.id);
    if call.Approve? {
      ApproveSurplus(w, now, env, call.id);
    } else {
      StreamSurplus(w, now, env, call.id);
    }
  }

  /** If neither recipient nor treasury is the contract, no call pays anything to it. */
  lemma OutsidersRetainNothing(w: World, env: Env, call: Call)
    requires w.store.Some? ==> w.store.value.config.recipient != w.self && w.store.value.treasury != w.self
    ensures Retained(w, env, call) == 0
  {
    hide Share, Claimable;
  }

  lemma SameSurplus(w: World, w': World)
    requires w.store.Some? && w'.store.Some? && w'.self == w.self && w'.token == w.token
    requires w'.store.value.book == w.store.value.book
    ensures Surplus(w') == Surplus(w)
  {
  }

  lemma InitSurplus(w: World, env: Env, call: Call)
    requires call.Init? && Exec(w, env, call).Ok?
    ensures Surplus(Exec(w, env, call).value) == Surplus(w)
  {
    hide PlanOf, ValidateRoles, Token.Balance, DefaultSet;
  }

  /** The tokens an event adds beyond the book: what a call pays to the contract itself, or what
      somebody else sends in. */
  function Added(w: World, e: Event): int {
    match e
    case Invoke(env, call) => if Exec(w, env, call).Ok? then Retained(w, env, call) else 0
    case Elsewhere(token) => token.Balance(w.self) - w.token.Balance(w.self)
  }

  function AllAdded(w: World, events: seq<Event>): int {
    if events == [] then 0
    else
      var init := events[..|events| - 1];
      AllAdded(w, init) + Added(Run(w, init), events[|events| - 1])
  }

  lemma AddedExact(w: World, now: U64, e: Event)
    requires Inv(w, now) && Legal(w, now, e)
    ensures 0 <= Added(w, e) && Surplus(Step(w, e)) == Surplus(w) + Added(w, e)
  {
    hide Inv, Exec, Retained;
    if e.Invoke? && Exec(w, e.env, e.call).Ok? {
      SurplusExact(w, now, e.env, e.call);
    }
  }

  /** Over any run the tokens held beyond the locked balance grow by exactly what was sent in or paid
      by the contract to itself, and never shrink. */
  lemma {:induction false} SurplusOverRuns(w: World, now: U64, events: seq<Event>)
    requires Inv(w, now) && LegalRun(w, now, events)
    ensures 0 <= AllAdded(w, events) && Surplus(Run(w, events)) == Surplus(w) + AllAdded(w, events)
  {
    hide Inv, Exec, Legal, Step, Clock, Surplus, Added;
    if events != [] {
      var init := events[..|events| - 1];
      SurplusOverRuns(w, now, init);
      RunKeeps(w, now, init);
      AddedExact(Run(w, init), ClockAfter(now, init), events[|events| - 1]);
    }
  }

  // ----- Where each milestone's money went -----

  /** What one milestone's money became: slashed back to the funder, taken by the treasury, paid to
      the recipient, and in how many disbursements. */
  datatype Receipt = Receipt(slash: int, fees: int, nets: int, claims: nat) {
    function Plus(r: Receipt): Receipt {
      Receipt(slash + r.slash, fees + r.fees, nets + r.nets, claims + r.claims)
    }
  }

  const NOTHING := Receipt(0, 0, 0, 0)

  /** What an account got.  What the contract's own address got is what it holds beyond its book. */
  function Gain(w: World, w': World, who: Address): int {
    if who == w.self then Surplus(w') - Surplus(w) else w'.token.Balance(who) - w.token.Balance(who)
  }

  /** Read off the token ledger: what the step moved for milestone `id`. */
  function StepReceipt(w: World, e: Event, id: U32): Receipt {
    if !e.Invoke? || w.store.None? || Exec(w, e.env, e.call).Err? then NOTHING
    else
      var s, w' := w.store.value, Step(w, e);
      if (e.call.Approve? || e.call.Stream?) && e.call.id == id then
        var fees, nets := Gain(w, w', s.treasury), Gain(w, w', s.config.recipient);
        Receipt(0, fees, nets, if fees + nets == 0 then 0 else 1)
      else if e.call.Slash? && e.call.id == id then
        Receipt(Gain(w, w', s.config.funder), 0, 0, 0)
      else NOTHING
  }

  function RunReceipt(w: World, events: seq<Event>, id: U32): Receipt {
    if events == [] then NOTHING
    else
      var init := events[..|events| - 1];
      RunReceipt(w, init, id).Plus(StepReceipt(Run(w, init), events[|events| - 1], id))
  }

  /** One step accounts for its share: what the record lost is what the ledger shows was paid, and a
      disbursement splits into the floored fee and the rest. */
  lemma StepAccounts(w: World, now: U64, e: Event, id: U32)
    requires Inv(w, now) && Legal(w, now, e) && Funded(w) && id in w.store.value.milestones
    ensures Funded(Step(w, e)) && id in Step(w, e).store.value.milestones
    ensures var m, m' := w.store.value.milestones[id], Step(w, e).store.value.milestones[id];
            var r := StepReceipt(w, e, id);
            && m.payout - m.streamed == r.slash + r.fees + r.nets + (m'.payout - m'.streamed)
            && 0 <= r.slash && 0 <= r.fees && 0 <= r.nets && r.claims <= 1
            && (r.claims == 0 ==> r.fees == 0 && r.nets == 0)
            && (r.claims == 1 ==> r.fees == Fee(r.fees + r.nets, w.store.value.feeBps))
  {
    hide Inv, Exec, RecordOk, Share, VestedSoFar, Payable, Room, VestingFits, Ready;
    StepFrames(w, now, e);
    InvReadyFor(w, now, id);
    if e.Invoke? && Exec(w, e.env, e.call).Ok? {
      var env, call := e.env, e.call;
      if call.Approve? && call.id == id {
        ApproveAccounts(w, now, env, id);
      } else if call.Stream? && call.id == id {
        StreamAccounts(w, now, env, id);
      } else if call.Slash? && call.id == id {
        SlashAccounts(w, now, env, id);
      } else {
        ChangeOf(w, now, env, call);
        OthersKept(w.store.value, Step(w, e).store.value, env.now, call, id);
      }
    }
  }

  lemma OthersKept(s: Store, s': Store, now: U64, call: Call, id: U32)
    requires Change(s, s', now, call) && id in s.milestones
    requires (call.Approve? || call.Stream? || call.Slash?) ==> call.id != id
    ensures id in s'.milestones && s'.milestones[id].payout == s.milestones[id].payout
            && s'.milestones[id].streamed == s.milestones[id].streamed
  {
    hide Share, Claimable, ClaimedRecord, Totals;
  }

  lemma ApproveAccounts(w: World, now: U64, env: Env, id: U32)
    requires ReadyFor(w, now, id) && Exec(w, env, Approve(id)).Ok?
    ensures var w' := Exec(w, env, Approve(id)).value; var s := w.store.value;
            && id in s.milestones && w'.store.Some? && id in w'.store.value.milestones
            && (var m, m' := s.milestones[id], w'.store.value.milestones[id]; var fee := Fee(m'.streamed, s.feeBps);
                && m'.payout == m.payout && m.streamed == 0 && 0 <= fee <= m'.streamed
                && Gain(w, w', s.treasury) == fee
                && Gain(w, w', s.config.recipient) == m'.streamed - fee)
  {
    hide ApproveMilestone, Payable, Share, VestedSoFar, Surplus;
    ApproveExact(w, now, env, id);
    ApproveSurplus(w, now, env, id);
  }

  lemma StreamAccounts(w: World, now: U64, env: Env, id: U32)
    requires ReadyFor(w, now, id) && now <= env.now && Exec(w, env, Stream(id)).Ok?
    ensures var w' := Exec(w, env, Stream(id)).value; var s := w.store.value;
            && id in s.milestones && w'.store.Some? && id in w'.store.value.milestones
            && (var m, m' := s.milestones[id], w'.store.value.milestones[id];
                var gross := m'.streamed - m.streamed; var fee := Fee(gross, s.feeBps);
                && m'.payout == m.payout && 0 <= fee <= gross && 0 < gross
                && Gain(w, w', s.treasury) == fee
                && Gain(w, w', s.config.recipient) == gross - fee)
  {
    hide StreamMilestonePayout, Payable, Share, VestedSoFar, VestingFits, Surplus;
    StreamExact(w, now, env, id);
    StreamSurplus(w, now, env, id);
  }

  lemma SlashAccounts(w: World, now: U64, env: Env, id: U32)
    requires ReadyFor(w, now, id) && Exec(w, env, Slash(id)).Ok?
    ensures var w' := Exec(w, env, Slash(id)).value; var s := w.store.value;
            && id in s.milestones && w'.store.Some? && id in w'.store.value.milestones
            && (var m, m' := s.milestones[id], w'.store.value.milestones[id];
                m'.streamed == m.streamed && Gain(w, w', s.config.funder) == m.payout - m'.payout
                && m'.payout <= m.payout)
  {
    hide ApplyLatePenalty, Room, Share, VestedSoFar;
    SlashExact(w, now, env, id);
  }

  /** Fees over several disbursements of the same money lose at most one unit each but the first. */
  predicate FeesRounded(r: Receipt, bps: U32) {
    if r.claims == 0 then r.fees == 0 && r.nets == 0
    else Fee(r.fees + r.nets, bps) - (r.claims - 1) <= r.fees <= Fee(r.fees + r.nets, bps)
  }

  lemma FeesAccumulate(a: Receipt, b: Receipt, bps: U32)
    requires FeesRounded(a, bps) && FeesRounded(b, bps) && b.claims <= 1
    requires 0 <= a.fees && 0 <= a.nets && 0 <= b.fees && 0 <= b.nets
    ensures FeesRounded(a.Plus(b), bps)
  {
    hide Share;
    ShareSplits(a.fees + a.nets, b.fees + b.nets, bps);
  }

  /** Lifetime partition: over any run of a funded escrow, what a milestone had to give is exactly
      what was slashed, what the treasury took, what the recipient received and what remains
      unstreamed; and splitting the payout over `k` disbursements costs the treasury at most `k - 1`
      units against taking the fee once. */
  lemma {:induction false} LifetimePartition(w: World, now: U64, events: seq<Event>, id: U32)
    requires Inv(w, now) && LegalRun(w, now, events) && Funded(w) && id in w.store.value.milestones
    ensures Funded(Run(w, events)) && id in Run(w, events).store.value.milestones
    ensures var m, m' := w.store.value.milestones[id], Run(w, events).store.value.milestones[id];
            var r := RunReceipt(w, events, id);
            && m.payout - m.streamed == r.slash + r.fees + r.nets + (m'.payout - m'.streamed)
            && 0 <= r.slash && 0 <= r.fees && 0 <= r.nets
            && FeesRounded(r, w.store.value.feeBps)
  {
    hide Inv, Legal, Step, Clock, Exec, StepReceipt, FeesRounded, Share;
    if events != [] {
      var init, e := events[..|events| - 1], events[|events| - 1];
      var w1, now1 := Run(w, init), ClockAfter(now, init);
      LifetimePartition(w, now, init, id);
      RunKeeps(w, now, init);
      FundedRun(w, now, init);
      StepAccounts(w1, now1, e, id);
      var r1, r := RunReceipt(w, init, id), StepReceipt(w1, e, id);
      assert FeesRounded(r, w.store.value.feeBps) by { OneDisbursement(r, w.store.value.feeBps); }
      FeesAccumulate(r1, r, w.store.value.feeBps);
    } else {
      assert FeesRounded(NOTHING, w.store.value.feeBps) by { OneDisbursement(NOTHING, w.store.value.feeBps); }
    }
  }

  lemma OneDisbursement(r: Receipt, bps: U32)
    requires r.claims <= 1
    requires r.claims == 0 ==> r.fees == 0 && r.nets == 0
    requires r.claims == 1 ==> r.fees == Fee(r.fees + r.nets, bps)
    ensures FeesRounded(r, bps)
  {
  }
}
