/** For every entrypoint that moves money or approves work: exactly when it succeeds in a reachable
    state, and the whole state it leaves behind. */
module EntryLaws {
  import opened Numeric
  import opened Results
  import opened EscrowMath
  import opened Storage
  import opened Payments
  import opened PaymentLaws
  import opened Tallies
  import opened Schedules
  import opened Reordering
  import opened Committee
  import opened Lifecycle
  import opened Invariants

  /** The book still follows the milestone records. */
  predicate Live(s: Store) {
    s.state.Active? || s.state.Disputed? || (s.state.Completed? && !Settled(s))
  }

  /** The parts of the invariant that do not mention the milestone list. */
  predicate Ready(w: World) {
    w.store.Some? && Solvent(w) &&
    (var s := w.store.value; var c := s.config;
     && c.funder != c.recipient && c.funder != w.self
     && s.penaltyBps <= BPS_SCALE && s.feeBps <= BPS_SCALE && s.treasury != c.recipient
     && 0 < c.totalAmount && |s.ids| == c.releaseThreshold
     && (s.state.Pending? ==> s.book == EMPTY_BOOK)
     && (Live(s) ==> 0 < s.book.deposited)
     && (s.state.Active? || s.state.Disputed? ==> s.approved < |s.ids| && !Settled(s))
     && (s.state.Completed? && Settled(s) ==> s.book.Balance() == 0))
  }

  /** Together with what it says about one milestone. */
  predicate ReadyFor(w: World, now: U64, id: U32) {
    Ready(w) &&
    (var s := w.store.value;
     id in s.milestones ==>
       var m := s.milestones[id];
       && id in s.ids && m.id == id && RecordOk(m, now)
       && (Live(s) ==> m.payout - m.streamed <= s.book.Balance()))
  }

  lemma InvReady(w: World, now: U64)
    requires Inv(w, now) && w.store.Some?
    ensures Ready(w)
  {
    hide Totals, CommitteeOk, DocketOk, AmendmentOk, RecordOk;
  }

  lemma InvReadyFor(w: World, now: U64, id: U32)
    requires Inv(w, now) && w.store.Some?
    ensures ReadyFor(w, now, id)
  {
    hide Totals, TermsOk, RecordOk, Ready, Backed;
    InvReady(w, now);
    var s := w.store.value;
    if Live(s) {
      assert Backed(s) by { LiveBacked(s, now); }
      BackedBalance(s, now);
    }
  }

  lemma LiveBacked(s: Store, now: U64)
    requires StoreInv(s, now) && Live(s)
    ensures Backed(s)
  {
  }

  // ----- deposit -----

  /** When the deposit succeeds, what it stores, whose balances it moves and which allowance it spends. */
  lemma DepositExact(w: World, env: Env)
    requires Ready(w)
    ensures var s := w.store.value; var c := s.config; var r := DepositFunds(w, env);
            && (r.Ok? <==> !s.paused && c.funder in env.auths && s.state.Pending?
                           && c.totalAmount <= w.token.Allowance(c.funder, w.self)
                           && c.totalAmount <= w.token.Balance(c.funder)
                           && w.token.Balance(w.self) + c.totalAmount <= I128_MAX)
            && (r.Ok? ==>
                  var unlock := if env.now + c.lockSecs <= U64_MAX then env.now + c.lockSecs else U64_MAX;
                  && r.value.self == w.self && Solvent(r.value)
                  && r.value.store == Some(s.(book := s.book.(deposited := c.totalAmount), state := EscrowState.Active,
                                              lockUntil := unlock))
                  && (forall who :: r.value.token.Balance(who) == w.token.Balance(who)
                        - (if who == c.funder then c.totalAmount else 0) + (if who == w.self then c.totalAmount else 0))
                  && (forall owner, spender :: r.value.token.Allowance(owner, spender) ==
                        w.token.Allowance(owner, spender)
                        - (if owner == c.funder && spender == w.self then c.totalAmount else 0)))
  {
    hide Token.TransferFrom, Token.Allowance;
    var c := w.store.value.config;
    TransferFromExact(w.token, w.self, c.funder, w.self, c.totalAmount);
  }

  // ----- approval -----

  /** The party whose signature approves: the funder, or the arbitrator while disputed. */
  predicate SignedOff(s: Store, env: Env) {
    || (s.state.Active? && s.config.funder in env.auths)
    || (s.state.Disputed? && s.config.arbitrator in env.auths)
  }

  /** What approval pays at once. */
  function LumpSum(m: Milestone): I128 {
    if m.vestingSecs == 0 then m.payout else 0
  }

  function ApprovedRecord(m: Milestone, now: U64): Milestone {
    m.(isApproved := true, completedAt := now, streamed := LumpSum(m),
       status := if m.vestingSecs == 0 then MilestoneStatus.Released else MilestoneStatus.UnderReview)
  }

  /** The store after approving `id`, apart from the book. */
  function ApprovedStore(s: Store, now: U64, id: U32, book: Book): Store
    requires id in s.milestones && s.approved < |s.ids|
  {
    s.(milestones := s.milestones[id := ApprovedRecord(s.milestones[id], now)],
       approved := s.approved + 1,
       state := if s.approved + 1 == |s.ids| then EscrowState.Completed else EscrowState.Active,
       book := book)
  }

  /** In a reachable state approval fails only for want of a signature, on a finished milestone, or
      because a lump sum is not payable; the book always covers it.  It finishes the milestone,
      completes the escrow exactly at the last approval, and otherwise reactivates it. */
  lemma ApproveExact(w: World, now: U64, env: Env, id: U32)
    requires ReadyFor(w, now, id)
    ensures var s := w.store.value; var r := ApproveMilestone(w, env, id);
            && (r.Ok? <==>
                  && !s.paused && SignedOff(s, env)
                  && id in s.milestones && !s.milestones[id].isApproved
                  && (0 < s.milestones[id].vestingSecs || Payable(w, s, s.config.recipient, s.milestones[id].payout)))
            && (r.Ok? ==>
                  var m := s.milestones[id]; var fee := Fee(LumpSum(m), s.feeBps);
                  && r.value.self == w.self && Solvent(r.value)
                  && s.approved < |s.ids|
                  && 0 <= LumpSum(m) <= s.book.Balance() && s.book.released + LumpSum(m) <= I128_MAX
                  && r.value.store == Some(ApprovedStore(s, env.now, id,
                       s.book.(released := s.book.released + LumpSum(m))))
                  && Moved(w.token, r.value.token, w.self, s.treasury, fee, s.config.recipient, LumpSum(m) - fee))
  {
    hide PayWithFee, Payable;
    var s := w.store.value;
    if SignedOff(s, env) && id in s.milestones {
      PayWithFeeExact(w, s.config.recipient, s.milestones[id].payout);
    }
  }

  // ----- streaming -----

  /** The vesting end and the interpolation product stay within their machine types. */
  predicate VestingFits(m: Milestone, now: U64) {
    var end := m.completedAt + m.vestingSecs;
    && end <= U64_MAX
    && (m.completedAt < now < end ==> m.payout * (now - m.completedAt) <= I128_MAX)
  }

  /** An approved milestone that pays out over time. */
  predicate Streaming(s: Store, id: U32) {
    id in s.milestones && s.milestones[id].isApproved && 0 < s.milestones[id].vestingSecs
  }

  /** What a claim at time `now` is worth. */
  function Claimable(m: Milestone, now: U64): int
    requires 0 < m.vestingSecs
  {
    VestedSoFar(m, now) - m.streamed
  }

  function ClaimedRecord(m: Milestone, now: U64): Milestone
    requires 0 < m.vestingSecs && 0 <= m.payout
  {
    var vested := VestedSoFar(m, now);
    m.(streamed := vested, status := if vested == m.payout then MilestoneStatus.Released else m.status)
  }

  lemma ClaimBounds(m: Milestone, now: U64, later: U64)
    requires RecordOk(m, now) && m.isApproved && 0 < m.vestingSecs && now <= later
    ensures 0 <= m.streamed <= VestedSoFar(m, later) <= m.payout
  {
    VestedMonotone(m.payout, m.completedAt, m.completedAt + m.vestingSecs, now, later);
  }

  lemma VestingChecks(m: Milestone, now: U64)
    requires 0 <= m.payout && 0 < m.vestingSecs && m.completedAt + m.vestingSecs <= U64_MAX
    ensures VestedAmount(m.payout, m.completedAt, m.completedAt + m.vestingSecs, now) ==
            if VestingFits(m, now) then Ok(VestedSoFar(m, now)) else Err(FeeOverflow)
  {
    VestedAmountExact(m.payout, m.completedAt, m.completedAt + m.vestingSecs, now);
  }

  /** In a reachable state a claim succeeds exactly when something new has vested and is payable,
      and it brings `streamed` to what has vested by now: earlier claims leave no other trace.
      After a settlement nothing is left to claim. */
  lemma StreamExact(w: World, now: U64, env: Env, id: U32)
    requires ReadyFor(w, now, id) && now <= env.now
    ensures var s := w.store.value; var r := StreamMilestonePayout(w, env, id);
            && (r.Ok? <==>
                  && !s.paused && s.config.recipient in env.auths && (s.state.Active? || s.state.Completed?)
                  && !Settled(s) && Streaming(s, id)
                  && VestingFits(s.milestones[id], env.now)
                  && Payable(w, s, s.config.recipient, Claimable(s.milestones[id], env.now)))
            && (r.Ok? ==>
                  var m := s.milestones[id];
                  var gross := Claimable(m, env.now); var fee := Fee(gross, s.feeBps);
                  && r.value.self == w.self && Solvent(r.value)
                  && 0 <= m.payout && 0 < gross <= s.book.Balance() && s.book.released + gross <= I128_MAX
                  && r.value.store == Some(s.(
                       milestones := s.milestones[id := ClaimedRecord(m, env.now)],
                       book := s.book.(released := s.book.released + gross)))
                  && Moved(w.token, r.value.token, w.self, s.treasury, fee, s.config.recipient, gross - fee))
  {
    hide PayWithFee, VestedAmount, Vested, Share, VestingFits;
    var s := w.store.value;
    if Streaming(s, id) {
      ClaimBounds(s.milestones[id], now, env.now);
      var m := s.milestones[id];
      if m.completedAt + m.vestingSecs <= U64_MAX {
        VestingChecks(m, env.now);
      } else {
        assert !VestingFits(m, env.now) by { NoFit(m, env.now); }
      }
      PayWithFeeExact(w, s.config.recipient, Claimable(m, env.now));
    }
  }

  lemma NoFit(m: Milestone, now: U64)
    requires m.completedAt + m.vestingSecs > U64_MAX
    ensures !VestingFits(m, now)
  {
  }

  // ----- late penalty -----

  /** Submitted late, not yet slashed and not yet signed off. */
  predicate Slashable(m: Milestone) {
    && !m.latePenaltyApplied && !m.isApproved && m.status.UnderReview?
    && 0 < m.deadline < m.submittedAt
  }

  lemma PenaltyExact(gross: I128, bps: U32)
    requires 0 <= gross && bps <= BPS_SCALE
    ensures ApplyPenalty(gross, bps) ==
            if gross * bps <= I128_MAX then Ok((Share(gross, bps), gross - Share(gross, bps))) else Err(FeeOverflow)
  {
    ApplyBpsExact(gross, bps);
  }

  lemma SlashExact(w: World, now: U64, env: Env, id: U32)
    requires ReadyFor(w, now, id)
    ensures var s := w.store.value; var r := ApplyLatePenalty(w, env, id);
            && (r.Ok? <==>
                  && !s.paused && s.config.funder in env.auths && s.state.Active?
                  && id in s.milestones && Slashable(s.milestones[id])
                  && s.milestones[id].payout * s.penaltyBps <= I128_MAX
                  && (var slash := Share(s.milestones[id].payout, s.penaltyBps);
                      slash == 0 || Room(w, s.config.funder, slash)))
            && (r.Ok? ==>
                  var m := s.milestones[id]; var slash := Share(m.payout, s.penaltyBps);
                  && 0 <= slash <= m.payout
                  && r.value.self == w.self && Solvent(r.value)
                  && slash <= s.book.Balance() && s.book.refunded + slash <= I128_MAX
                  && r.value.store == Some(s.(
                       milestones := s.milestones[id := m.(payout := m.payout - slash, latePenaltyApplied := true)],
                       book := s.book.(refunded := s.book.refunded + slash)))
                  && Moved(w.token, r.value.token, w.self, s.config.funder, slash, s.config.funder, 0))
  {
    hide Refund, ApplyPenalty, Share;
    var s := w.store.value;
    if s.state.Active? && id in s.milestones {
      var m := s.milestones[id];
      PenaltyExact(m.payout, s.penaltyBps);
      if m.payout * s.penaltyBps <= I128_MAX {
        RefundExact(w, s.config.funder, Share(m.payout, s.penaltyBps));
      }
    }
  }

  // ----- timeout refund -----

  /** The obligation loop sums exactly what approval promised, and fails only when that sum overflows. */
  lemma {:induction false} ObligationExact(ids: seq<U32>, milestones: map<U32, Milestone>)
    requires AllSane(ids, milestones)
    ensures UnstreamedObligation(ids, milestones) ==
            if Sum(ids, milestones).owed <= I128_MAX then Ok(Sum(ids, milestones).owed) else Err(BadAmount)
  {
    if ids != [] {
      var init := ids[..|ids| - 1];
      assert ids[|ids| - 1] in ids;
      SumLaws(init, milestones);
      ObligationExact(init, milestones);
    }
  }

  /** Reordering does not change the outstanding obligation, whether it can be summed or not. */
  lemma ReorderKeepsObligation(ids: Vec<U32>, id: U32, position: U32, milestones: map<U32, Milestone>)
    requires NoDuplicates(ids) && AllSane(ids, milestones) && ReorderMilestone(ids, id, position).Ok?
    ensures UnstreamedObligation(ReorderMilestone(ids, id, position).value, milestones)
         == UnstreamedObligation(ids, milestones)
  {
    hide UnstreamedObligation, ReorderMilestone, NoDuplicates;
    ReorderExact(ids, id, position);
    ReorderKeepsSums(ids, id, position, milestones);
    ObligationExact(ids, milestones);
    ObligationExact(ReorderMilestone(ids, id, position).value, milestones);
  }

  /** The balance is what is owed plus what is open, and the obligation loop computes the former. */
  predicate Collectable(s: Store) {
    var t := Totals(s);
    && 0 <= t.owed && 0 <= t.open && s.book.Balance() == t.owed + t.open
    && UnstreamedObligation(s.ids, s.milestones) == Ok(t.owed)
  }

  lemma ActiveCollectable(w: World, now: U64)
    requires Inv(w, now) && w.store.Some? && w.store.value.state.Active?
    ensures Collectable(w.store.value)
  {
    hide TermsOk;
    var s := w.store.value;
    BackedBalance(s, now);
    SaneRecords(s, now);
    ObligationExact(s.ids, s.milestones);
  }

  /** The timeout refund returns to the funder exactly the payouts of the unapproved milestones,
      and leaves locked exactly what was approved but not yet streamed. */
  lemma TimeoutExact(w: World, env: Env)
    requires Ready(w) && (w.store.value.state.Active? ==> Collectable(w.store.value))
    ensures var s := w.store.value; var r := ClaimTimeoutRefund(w, env); var open := Totals(s).open;
            && (r.Ok? <==>
                  && !s.paused && s.config.funder in env.auths && s.state.Active? && s.lockUntil <= env.now
                  && 0 < open && Room(w, s.config.funder, open))
            && (r.Ok? ==>
                  && r.value.self == w.self && Solvent(r.value)
                  && open <= s.book.Balance() && s.book.refunded + open <= I128_MAX
                  && r.value.store == Some(s.(state := EscrowState.Cancelled,
                                              book := s.book.(refunded := s.book.refunded + open)))
                  && r.value.store.value.book.Balance() == Totals(s).owed
                  && Moved(w.token, r.value.token, w.self, s.config.funder, open, s.config.funder, 0))
  {
    hide Refund, Totals, UnstreamedObligation;
    var s := w.store.value;
    if s.state.Active? {
      SaturationHarmless(s.book);
      RefundExact(w, s.config.funder, Totals(s).open);
    }
  }

  // ----- settlement -----

  /** The book after splitting its whole balance. */
  function SplitBook(book: Book, funderBps: U32): (b: Book)
    requires Consistent(book) && funderBps <= BPS_SCALE
    ensures b.Balance() == 0 && b.deposited == book.deposited
    ensures book.released <= b.released && book.refunded <= b.refunded
  {
    var back := Share(book.Balance(), funderBps);
    book.(released := book.released + (book.Balance() - back), refunded := book.refunded + back)
  }

  /** Weights that sum to the scale and whose product with the balance fits, with room on both sides. */
  predicate Splittable(w: World, s: Store, funderBps: U32, recipientBps: U32) {
    var back := Share(s.book.Balance(), funderBps);
    && funderBps + recipientBps == BPS_SCALE
    && s.book.Balance() * funderBps <= I128_MAX
    && (back == 0 || Room(w, s.config.funder, back))
    && (s.book.Balance() == back || Room(w, s.config.recipient, s.book.Balance() - back))
  }

  function RefundAndRelease(w: World, to1: Address, a1: I128, to2: Address, a2: I128): Result<World> {
    var w1 :- Refund(w, to1, a1);
    Release(w1, to2, a2)
  }

  lemma RefundAndReleaseExact(w: World, to1: Address, a1: I128, to2: Address, a2: I128)
    requires w.store.Some? && Solvent(w) && to1 != to2 && 0 <= a1 && 0 <= a2
    requires a1 + a2 == w.store.value.book.Balance()
    ensures var s := w.store.value; var r := RefundAndRelease(w, to1, a1, to2, a2);
            && (r.Ok? <==> (a1 == 0 || Room(w, to1, a1)) && (a2 == 0 || Room(w, to2, a2)))
            && (r.Ok? ==>
                  && r.value.self == w.self && Solvent(r.value)
                  && r.value.store == Some(s.(book :=
                       s.book.(released := s.book.released + a2, refunded := s.book.refunded + a1)))
                  && Moved(w.token, r.value.token, w.self, to1, a1, to2, a2))
  {
    hide Refund, Release;
    RefundExact(w, to1, a1);
    var r1 := Refund(w, to1, a1);
    if r1.Ok? {
      ReleaseExact(r1.value, to2, a2);
      assert Room(r1.value, to2, a2) == Room(w, to2, a2);
    }
  }

  /** A settlement pays out the whole balance: the floored share to the funder, the rest to the
      recipient, nothing left over. */
  lemma PaySplitExact(w: World, dispute: DisputeRecord, funderBps: U32, recipientBps: U32)
    requires Ready(w)
    ensures var s := w.store.value; var r := PaySplit(w, s, dispute, funderBps, recipientBps);
            && (r.Ok? <==> Splittable(w, s, funderBps, recipientBps))
            && (r.Ok? ==>
                  var back := Share(s.book.Balance(), funderBps);
                  && r.value.self == w.self && Solvent(r.value)
                  && r.value.store == Some(s.(
                       state := EscrowState.Completed,
                       dispute := Some(dispute.(
                         funderBps := funderBps, recipientBps := recipientBps, resolved := true)),
                       book := SplitBook(s.book, funderBps)))
                  && Moved(w.token, r.value.token, w.self, s.config.funder, back,
                           s.config.recipient, s.book.Balance() - back))
  {
    hide Refund, Release, SplitAmount, Share;
    var s := w.store.value;
    SaturationHarmless(s.book);
    var balance: I128 := s.book.Balance();
    SplitExact(balance, funderBps, recipientBps);
    if funderBps + recipientBps == BPS_SCALE && balance * funderBps <= I128_MAX {
      var back := Share(balance, funderBps);
      RefundAndReleaseExact(w, s.config.funder, back, s.config.recipient, balance - back);
    }
  }

  /** Why a split is refused: weights that miss the scale, a product that overflows, or a payee without
      room; the book always covers it. */
  lemma PaySplitRefused(w: World, dispute: DisputeRecord, funderBps: U32, recipientBps: U32)
    requires Ready(w)
    ensures var s := w.store.value; var r := PaySplit(w, s, dispute, funderBps, recipientBps);
            var full := funderBps + recipientBps == BPS_SCALE;
            var fits := s.book.Balance() * funderBps <= I128_MAX;
            && (!full ==> r == Err(BadSplit))
            && (full && !fits ==> r == Err(FeeOverflow))
            && (full && fits && !Splittable(w, s, funderBps, recipientBps) ==> r == Err(HostTrap))
  {
    hide Refund, Release, SplitAmount, Share;
    var s := w.store.value;
    SaturationHarmless(s.book);
    var balance: I128 := s.book.Balance();
    SplitExact(balance, funderBps, recipientBps);
    if funderBps + recipientBps == BPS_SCALE && balance * funderBps <= I128_MAX {
      var back := Share(balance, funderBps);
      RefundAndReleaseRefused(w, s.config.funder, back, s.config.recipient, balance - back);
    }
  }

  lemma RefundAndReleaseRefused(w: World, to1: Address, a1: I128, to2: Address, a2: I128)
    requires w.store.Some? && Solvent(w) && to1 != to2 && 0 <= a1 && 0 <= a2 && a1 + a2 <= w.store.value.book.Balance()
    ensures var r := RefundAndRelease(w, to1, a1, to2, a2);
            !((a1 == 0 || Room(w, to1, a1)) && (a2 == 0 || Room(w, to2, a2))) ==> r == Err(HostTrap)
  {
    hide Refund, Release;
    LegsRefused(w, to1, a1);
    RefundExact(w, to1, a1);
    var r1 := Refund(w, to1, a1);
    if r1.Ok? {
      LegsRefused(r1.value, to2, a2);
      ReleaseExact(r1.value, to2, a2);
      assert Room(r1.value, to2, a2) == Room(w, to2, a2);
    }
  }
}
