/** Why a call is refused: in every reachable state, which error each entrypoint answers, said in terms of
    the state.  Where several reasons apply, the statements say which one is told. */
module Refusals {
  import opened Numeric
  import opened Results
  import opened EscrowMath
  import opened Storage
  import opened Payments
  import opened PaymentLaws
  import opened Schedules
  import opened Reordering
  import opened Committee
  import opened Lifecycle
  import opened Invariants
  import opened EntryLaws
  import opened Preservation
  import opened Runs
  import opened Disputes
  import opened Progress
  import opened Terms
  import opened Requests

  // ----- Deposit, fee and penalty rates -----

  /** A signed deposit is refused outside Pending, then for want of allowance, then by the token for want
      of funds or room.  It is never refused as paid twice or for tokens that did not arrive. */
  lemma DepositRefused(w: World, now: U64, env: Env)
    requires Reachable(w, now) && w.store.Some?
    ensures var s := w.store.value; var c := s.config; var r := Exec(w, env, Deposit);
            && (r == Err(Paused) <==> s.paused)
            && (!s.paused && c.funder !in env.auths ==> r == Err(HostTrap))
            && (!s.paused && c.funder in env.auths ==>
                  && (r == Err(BadState) <==> !s.state.Pending?)
                  && (r == Err(InsufficientAllowance) <==>
                        s.state.Pending? && w.token.Allowance(c.funder, w.self) < c.totalAmount)
                  && (r == Err(HostTrap) <==>
                        s.state.Pending? && c.totalAmount <= w.token.Allowance(c.funder, w.self)
                        && (w.token.Balance(c.funder) < c.totalAmount
                            || I128_MAX < w.token.Balance(w.self) + c.totalAmount))
                  && r != Err(AlreadyPaid) && r != Err(NoDeposit))
  {
    hide Reachable, Inv, Exec, Ready, Token.Balance, Token.Allowance;
    ReachableInv(w, now);
    InvReady(w, now);
    DepositGuarded(w, env);
    DepositPulls(w);
  }

  /** The checks before the token is called, and its answer. */
  lemma DepositGuarded(w: World, env: Env)
    requires w.store.Some?
    ensures var s := w.store.value; var c := s.config; var r := Exec(w, env, Deposit);
            var pulled := w.token.TransferFrom(w.self, c.funder, w.self, c.totalAmount);
            && (s.paused ==> r == Err(Paused))
            && (!s.paused && c.funder !in env.auths ==> r == Err(HostTrap))
            && (!s.paused && c.funder in env.auths ==>
                  && (!s.state.Pending? ==> r == Err(BadState))
                  && (s.state.Pending? && s.book.deposited <= 0 ==>
                        && (w.token.Allowance(c.funder, w.self) < c.totalAmount ==> r == Err(InsufficientAllowance))
                        && (c.totalAmount <= w.token.Allowance(c.funder, w.self) ==>
                              && (pulled.Err? ==> r == Err(pulled.error))
                              && (pulled.Ok? && c.totalAmount <= pulled.value.Balance(w.self) ==> r.Ok?))))
  {
    hide Token.TransferFrom, Token.Balance, Token.Allowance;
  }

  /** The token either traps, for want of funds or room, or delivers. */
  lemma DepositPulls(w: World)
    requires w.store.Some? && Ready(w)
    ensures w.store.value.state.Pending? ==> w.store.value.book.deposited <= 0
    ensures var c := w.store.value.config; var pulled := w.token.TransferFrom(w.self, c.funder, w.self, c.totalAmount);
            && (pulled.Ok? ==> c.totalAmount <= pulled.value.Balance(w.self))
            && (pulled.Err? ==> pulled.error.HostTrap?)
            && (pulled.Ok? <==>
                  && c.totalAmount <= w.token.Allowance(c.funder, w.self) && c.totalAmount <= w.token.Balance(c.funder)
                  && w.token.Balance(w.self) + c.totalAmount <= I128_MAX)
  {
    hide Solvent, Token.TransferFrom, Token.Balance, Token.Allowance;
    var c := w.store.value.config;
    TransferFromExact(w.token, w.self, c.funder, w.self, c.totalAmount);
    TransferFromTraps(w.token, w.self, c.funder, w.self, c.totalAmount);
  }

  lemma TransferFromTraps(t: Token, spender: Address, from: Address, to: Address, amount: I128)
    ensures var r := t.TransferFrom(spender, from, to, amount); r.Err? ==> r == Err(HostTrap)
  {
  }

  /** A signed rate is refused outside Pending, then beyond the scale; a treasury that is the recipient
      comes last. */
  lemma RatesRefused(w: World, now: U64, env: Env, bps: U32, treasury: Address)
    requires Reachable(w, now) && w.store.Some?
    ensures var s := w.store.value; var c := s.config;
            var penalty, fee := Exec(w, env, SetPenalty(bps)), Exec(w, env, SetFee(treasury, bps));
            && (penalty == Err(Paused) <==> s.paused) && (fee == Err(Paused) <==> s.paused)
            && (penalty == Err(HostTrap) <==> !s.paused && c.funder !in env.auths)
            && (fee == Err(HostTrap) <==> !s.paused && c.funder !in env.auths)
            && (!s.paused && c.funder in env.auths ==>
                  && (penalty == Err(BadState) <==> !s.state.Pending?) && (fee == Err(BadState) <==> !s.state.Pending?)
                  && (penalty == Err(PenaltyOverflow) <==> s.state.Pending? && 10_000 < bps)
                  && (fee == Err(FeeOverflow) <==> s.state.Pending? && 10_000 < bps)
                  && (fee == Err(BadRoles) <==> s.state.Pending? && bps <= 10_000 && treasury == c.recipient))
  {
    hide Reachable, StoreInv, Solvent;
    ReachableInv(w, now);
    PartiesDiffer(w.store.value, now);
  }

  // ----- Proofs, disputes, evidence, the switch -----

  /** A proof signed by the recipient is refused while paused, in a dispute, outside Active, for an unknown
      milestone, for an approved one, for one under review and for one marked by an earlier dispute. */
  lemma ProofRefused(w: World, now: U64, env: Env, id: U32, hash: Hash)
    requires Reachable(w, now) && w.store.Some?
    ensures var s := w.store.value; var r := Exec(w, env, Proof(id, hash));
            && (r == Err(HostTrap) <==> s.config.recipient !in env.auths)
            && (s.config.recipient in env.auths ==>
                  && (r == Err(Paused) <==> s.paused)
                  && (r == Err(DisputeLockActive) <==> !s.paused && s.state.Disputed?)
                  && (r == Err(NotFound) <==> !s.paused && s.state.Active? && id !in s.milestones)
                  && (!s.paused && s.state.Active? && id in s.milestones ==>
                        var m := s.milestones[id];
                        && (r == Err(MilestoneAlreadyCompleted) <==> m.isApproved)
                        && (r == Err(AlreadySubmitted) <==> !m.isApproved && m.status.UnderReview?)
                        && (r == Err(BadState) <==> !m.isApproved && m.status.Disputed?))
                  && (!s.paused && !s.state.Active? ==> (r == Err(BadState) <==> !s.state.Disputed?)))
  {
    hide Reachable, StoreInv, Solvent;
    ReachableInv(w, now);
    if id in w.store.value.milestones {
      ReleasedIsApproved(w.store.value, now, id);
    }
  }

  /** A dispute is refused while paused, without the funder's signature, and outside Active. */
  lemma RaiseRefused(w: World, now: U64, env: Env)
    requires Reachable(w, now) && w.store.Some?
    ensures var s := w.store.value; var r := Exec(w, env, Raise);
            && (r == Err(Paused) <==> s.paused)
            && (r == Err(HostTrap) <==> !s.paused && s.config.funder !in env.auths)
            && (r == Err(BadState) <==> !s.paused && s.config.funder in env.auths && !s.state.Active?)
  {
    hide Reachable, StoreInv, Solvent;
    ReachableInv(w, now);
    AllListed(w.store.value, now);
  }

  /** Evidence is refused to strangers before their signature is asked for, then outside a dispute, then
      for a zero hash, a full docket and a hash already on it, in this order. */
  lemma EvidenceRefused(w: World, now: U64, env: Env, actor: Address, hash: Hash)
    requires Reachable(w, now) && w.store.Some?
    ensures var s := w.store.value; var c := s.config; var r := Exec(w, env, AddEvidence(actor, hash));
            var party := actor == c.funder || actor == c.recipient;
            var signed := !s.paused && party && actor in env.auths;
            && (r == Err(Paused) <==> s.paused)
            && (r == Err(NotAuthorized) <==> !s.paused && !party)
            && (r == Err(HostTrap) <==> !s.paused && party && actor !in env.auths)
            && (r == Err(BadState) <==> signed && !s.state.Disputed?)
            && (r == Err(BadAmount) <==> signed && s.state.Disputed? && hash == Hash(0))
            && (r == Err(Locked) <==> signed && s.state.Disputed? && hash != Hash(0) && |s.evidence| == 32)
            && (r == Err(DupId) <==>
                  signed && s.state.Disputed? && hash != Hash(0) && |s.evidence| < 32
                  && exists i :: 0 <= i < |s.evidence| && s.evidence[i].contentHash == hash)
  {
    hide Reachable, StoreInv, Solvent;
    ReachableInv(w, now);
    OpenInDispute(w.store.value, now);
    assert |w.store.value.evidence| <= 32 by { DocketFits(w.store.value, now); }
  }

  lemma DocketFits(s: Store, now: U64)
    requires StoreInv(s, now)
    ensures |s.evidence| <= 32
  {
    hide ListOk, RecordsOk, BookOk, CommitteeOk, AmendmentOk;
  }

  /** The switch is refused without the funder's signature, and where it already stands. */
  lemma SwitchRefused(w: World, now: U64, env: Env)
    requires Reachable(w, now) && w.store.Some?
    ensures var s := w.store.value; var on, off := Exec(w, env, Pause), Exec(w, env, Unpause);
            && (on == Err(HostTrap) <==> s.config.funder !in env.auths)
            && (off == Err(HostTrap) <==> s.config.funder !in env.auths)
            && (on == Err(Paused) <==> s.config.funder in env.auths && s.paused)
            && (off == Err(BadState) <==> s.config.funder in env.auths && !s.paused)
  {
    hide Reachable, StoreInv, Solvent;
    ReachableInv(w, now);
    PartiesDiffer(w.store.value, now);
  }

  // ----- Approval, claims, penalty, timeout -----

  /** An approval is refused while paused, outside Active and Disputed, without the signature its state asks
      for, for an unknown milestone and for one approved before.  A lump sum is refused besides for a
      payout slashed to nothing, a fee product that overflows and a payee without room. */
  lemma ApprovalRefused(w: World, now: U64, env: Env, id: U32)
    requires Reachable(w, now) && w.store.Some?
    ensures var s := w.store.value; var r := Exec(w, env, Approve(id));
            && (r == Err(Paused) <==> s.paused)
            && (r == Err(BadState) <==> !s.paused && !s.state.Active? && !s.state.Disputed?)
            && (!s.paused && (s.state.Active? || s.state.Disputed?) && !SignedOff(s, env) ==> r == Err(HostTrap))
            && (r == Err(NotFound) <==> !s.paused && SignedOff(s, env) && id !in s.milestones)
            && (r == Err(MilestoneAlreadyCompleted) <==>
                  !s.paused && SignedOff(s, env) && id in s.milestones && s.milestones[id].isApproved)
            && (!s.paused && SignedOff(s, env) && id in s.milestones && !s.milestones[id].isApproved ==>
                  var m := s.milestones[id]; var lump := m.vestingSecs == 0;
                  && (r == Err(ZeroAmountAllocated) <==> lump && m.payout == 0)
                  && (r == Err(FeeOverflow) <==> lump && I128_MAX < m.payout * s.feeBps)
                  && (r == Err(HostTrap) <==>
                        lump && 0 < m.payout && m.payout * s.feeBps <= I128_MAX && !GoesThrough(w, s, m.payout)))
            && r != Err(NoDeposit) && r != Err(BadAmount)
  {
    hide Reachable, Inv, Exec, GoesThrough, ReadyFor;
    ReachableInv(w, now);
    InvReadyFor(w, now, id);
    ApprovalGuarded(w, now, env, id);
    var s := w.store.value;
    if !s.paused && SignedOff(s, env) && id in s.milestones && !s.milestones[id].isApproved {
      ApprovalPays(w, now, env, id);
    }
  }

  /** The checks before the payment. */
  lemma ApprovalGuarded(w: World, now: U64, env: Env, id: U32)
    requires w.store.Some? && ReadyFor(w, now, id)
    ensures var s := w.store.value; var r := Exec(w, env, Approve(id));
            var live := s.state.Active? || s.state.Disputed?;
            && (s.paused ==> r == Err(Paused))
            && (!s.paused && !live ==> r == Err(BadState))
            && (!s.paused && live && !SignedOff(s, env) ==> r == Err(HostTrap))
            && (!s.paused && SignedOff(s, env) && id !in s.milestones ==> r == Err(NotFound))
            && (!s.paused && SignedOff(s, env) && id in s.milestones && s.milestones[id].isApproved ==>
                  r == Err(MilestoneAlreadyCompleted))
  {
    hide PayWithFee, RecordOk, Solvent;
  }

  /** The payment of a lump sum decides; a stream is approved without one. */
  lemma ApprovalPays(w: World, now: U64, env: Env, id: U32)
    requires w.store.Some? && ReadyFor(w, now, id)
    requires var s := w.store.value;
             !s.paused && SignedOff(s, env) && id in s.milestones && !s.milestones[id].isApproved
    ensures var s := w.store.value; var m := s.milestones[id]; var r := Exec(w, env, Approve(id));
            && (0 < m.vestingSecs ==> r.Ok?)
            && (m.vestingSecs == 0 && m.payout == 0 ==> r == Err(ZeroAmountAllocated))
            && (m.vestingSecs == 0 && I128_MAX < m.payout * s.feeBps ==> r == Err(FeeOverflow))
            && (m.vestingSecs == 0 && 0 < m.payout && m.payout * s.feeBps <= I128_MAX ==>
                  if GoesThrough(w, s, m.payout) then r.Ok? else r == Err(HostTrap))
            && 0 <= m.payout
  {
    hide PayWithFee, Room, Share, RecordOk, Solvent;
    var s := w.store.value;
    var m := s.milestones[id];
    Released(m, now);
    if m.vestingSecs == 0 {
      assert Solvent(w);
      PayWithFeeExact(w, s.config.recipient, m.payout);
      PayWithFeeRefused(w, s.config.recipient, m.payout);
    }
  }

  lemma Released(m: Milestone, now: U64)
    requires RecordOk(m, now)
    ensures 0 <= m.streamed <= m.payout && (m.status.Released? ==> m.isApproved) && (!m.isApproved ==> m.streamed == 0)
  {
    hide VestedSoFar;
  }

  /** The first leg of a claim could be moved, if the book covered it. */
  predicate FirstLegMovable(w: World, s: Store, gross: int) {
    var fee := Fee(gross, s.feeBps);
    if 0 < fee then Movable(w, s.treasury, fee) else Movable(w, s.config.recipient, gross)
  }

  /** A signed claim is refused in a dispute, outside Active and Completed, for an unknown milestone, for a
      lump sum, and as complete exactly when everything was streamed; it is refused as incomplete exactly
      for an unapproved milestone or when nothing has vested beyond what was streamed.  What has vested is
      refused besides for an overflow, a payee without room, and after a settlement always. */
  lemma ClaimRefused(w: World, now: U64, env: Env, id: U32)
    requires Reachable(w, now) && w.store.Some? && now <= env.now
    ensures var s := w.store.value; var r := Exec(w, env, Stream(id));
            var open := s.state.Active? || s.state.Completed?;
            && (r == Err(Paused) <==> s.paused)
            && (!s.paused && s.config.recipient !in env.auths ==> r == Err(HostTrap))
            && (!s.paused && s.config.recipient in env.auths ==>
                  && (r == Err(DisputeLockActive) <==> s.state.Disputed?)
                  && (!open && !s.state.Disputed? ==> r == Err(BadState))
                  && (r == Err(NotFound) <==> open && id !in s.milestones)
                  && (open && id in s.milestones ==>
                        var m := s.milestones[id];
                        && (r == Err(BadState) <==> m.isApproved && m.vestingSecs == 0)
                        && (r == Err(MilestoneAlreadyCompleted) <==>
                              m.isApproved && 0 < m.vestingSecs && m.streamed == m.payout)
                        && (r == Err(VestingIncomplete) <==>
                              !m.isApproved
                              || (0 < m.vestingSecs && m.streamed < m.payout && VestingFits(m, env.now)
                                  && m.streamed == VestedSoFar(m, env.now)))
                        && (m.isApproved && 0 < m.vestingSecs && m.streamed < m.payout ==>
                              ClaimOverflows(w, s, m, env.now, r) && ClaimUnpayable(w, s, m, env.now, r))))
  {
    hide Reachable, Inv, Exec, VestingFits, VestedSoFar, ClaimOverflows, ClaimUnpayable, RecordOk;
    ReachableInv(w, now);
    InvReadyFor(w, now, id);
    var s := w.store.value;
    ClaimGuarded(w, env, id);
    if !s.paused && s.config.recipient in env.auths && (s.state.Active? || s.state.Completed?) && id in s.milestones {
      Released(s.milestones[id], now);
      if Streaming(s, id) && s.milestones[id].streamed < s.milestones[id].payout {
        ClaimOpen(w, now, env, id);
      }
    }
  }

  /** A claim on an unfinished stream overflows exactly where its end leaves u64, the interpolation leaves
      i128, or the fee product of what has newly vested does. */
  predicate ClaimOverflows(w: World, s: Store, m: Milestone, now: U64, r: Result<World>)
    requires 0 < m.vestingSecs
  {
    var gross := VestedSoFar(m, now) - m.streamed;
    && (U64_MAX < m.completedAt + m.vestingSecs ==> r == Err(BadAmount))
    && (r == Err(FeeOverflow) <==>
          m.completedAt + m.vestingSecs <= U64_MAX
          && (!VestingFits(m, now) || (0 < gross && I128_MAX < gross * s.feeBps)))
  }

  /** What has newly vested and does not overflow is refused by the token exactly when a payee has no room,
      and after a settlement, when nothing is locked, by the book if the first leg could be moved. */
  predicate ClaimUnpayable(w: World, s: Store, m: Milestone, now: U64, r: Result<World>)
    requires 0 < m.vestingSecs
  {
    var gross := VestedSoFar(m, now) - m.streamed;
    VestingFits(m, now) && 0 < gross && gross * s.feeBps <= I128_MAX ==>
      && (!Settled(s) ==> (r == Err(HostTrap) <==> !GoesThrough(w, s, gross)) && r != Err(BadAmount))
      && (Settled(s) ==> r == Err(if FirstLegMovable(w, s, gross) then BadAmount else HostTrap))
  }

  /** The checks before any arithmetic. */
  lemma ClaimGuarded(w: World, env: Env, id: U32)
    requires w.store.Some?
    ensures var s := w.store.value; var r := Exec(w, env, Stream(id));
            var open := s.state.Active? || s.state.Completed?;
            && (s.paused ==> r == Err(Paused))
            && (!s.paused && s.config.recipient !in env.auths ==> r == Err(HostTrap))
            && (!s.paused && s.config.recipient in env.auths ==>
                  && (s.state.Disputed? ==> r == Err(DisputeLockActive))
                  && (!open && !s.state.Disputed? ==> r == Err(BadState))
                  && (open && id !in s.milestones ==> r == Err(NotFound))
                  && (open && id in s.milestones ==>
                        var m := s.milestones[id];
                        && (!m.isApproved ==> r == Err(VestingIncomplete))
                        && (m.isApproved && m.vestingSecs == 0 ==> r == Err(BadState))
                        && (m.isApproved && 0 < m.vestingSecs && m.payout <= m.streamed ==>
                              r == Err(MilestoneAlreadyCompleted))))
  {
    hide PayWithFee, VestedAmount;
  }

  /** An unfinished stream: the arithmetic and the payment. */
  lemma ClaimOpen(w: World, now: U64, env: Env, id: U32)
    requires ReadyFor(w, now, id) && now <= env.now && Streaming(w.store.value, id)
    requires var s := w.store.value;
             && !s.paused && s.config.recipient in env.auths && (s.state.Active? || s.state.Completed?)
             && s.milestones[id].streamed < s.milestones[id].payout
    ensures var s := w.store.value; var m := s.milestones[id]; var r := Exec(w, env, Stream(id));
            && ClaimOverflows(w, s, m, env.now, r) && ClaimUnpayable(w, s, m, env.now, r)
            && (r == Err(VestingIncomplete) <==> VestingFits(m, env.now) && m.streamed == VestedSoFar(m, env.now))
            && (r.Err? ==> r.error.VestingIncomplete? || r.error.BadAmount? || r.error.FeeOverflow?
                           || r.error.HostTrap?)
  {
    hide PayWithFee, VestedAmount, VestedSoFar, Room, Share, RecordOk;
    var s := w.store.value;
    var m := s.milestones[id];
    ClaimBounds(m, now, env.now);
    if m.completedAt + m.vestingSecs <= U64_MAX {
      VestingChecks(m, env.now);
      var gross := VestedSoFar(m, env.now) - m.streamed;
      PayWithFeeExact(w, s.config.recipient, gross);
      PayWithFeeRefused(w, s.config.recipient, gross);
    }
  }

  /** A signed penalty is refused outside Active, for an unknown milestone, for one slashed before, for an
      approved one, for one without a proof under review or without a deadline, and for a proof in
      time; then for a product that overflows and for a funder without room. */
  lemma PenaltyRefused(w: World, now: U64, env: Env, id: U32)
    requires Reachable(w, now) && w.store.Some?
    ensures var s := w.store.value; var r := Exec(w, env, Slash(id));
            && (r == Err(Paused) <==> s.paused)
            && (!s.paused && s.config.funder !in env.auths ==> r == Err(HostTrap))
            && (!s.paused && s.config.funder in env.auths ==>
                  && (!s.state.Active? ==> r == Err(BadState))
                  && (r == Err(NotFound) <==> s.state.Active? && id !in s.milestones)
                  && (s.state.Active? && id in s.milestones ==>
                        var m := s.milestones[id]; var slash := Share(m.payout, s.penaltyBps);
                        var due := !m.latePenaltyApplied && !m.isApproved && m.status.UnderReview? && 0 < m.deadline;
                        && (r == Err(AlreadyPaid) <==> m.latePenaltyApplied)
                        && (r == Err(MilestoneAlreadyCompleted) <==> !m.latePenaltyApplied && m.isApproved)
                        && (r == Err(BadState) <==>
                              !m.latePenaltyApplied && !m.isApproved && (!m.status.UnderReview? || m.deadline == 0))
                        && (r == Err(DeadlineNotExceeded) <==> due && m.submittedAt <= m.deadline)
                        && (r == Err(FeeOverflow) <==>
                              due && m.deadline < m.submittedAt && I128_MAX < m.payout * s.penaltyBps)
                        && (r == Err(HostTrap) <==>
                              due && m.deadline < m.submittedAt && m.payout * s.penaltyBps <= I128_MAX
                              && 0 < slash && !Room(w, s.config.funder, slash))
                        && r != Err(BadAmount)))
  {
    hide Reachable, Inv, Refund, ApplyPenalty, Share, Room, RecordOk;
    ReachableInv(w, now);
    InvReadyFor(w, now, id);
    var s := w.store.value;
    if s.state.Active? && id in s.milestones {
      var m := s.milestones[id];
      Released(m, now);
      PenaltyExact(m.payout, s.penaltyBps);
      if m.payout * s.penaltyBps <= I128_MAX {
        RefundExact(w, s.config.funder, Share(m.payout, s.penaltyBps));
        LegsRefused(w, s.config.funder, Share(m.payout, s.penaltyBps));
      }
    }
  }

  /** A signed timeout refund is refused outside Active, before the lock runs out, when nothing is open, and
      by the token when the funder has no room. */
  lemma RefundRefused(w: World, now: U64, env: Env)
    requires Reachable(w, now) && w.store.Some?
    ensures var s := w.store.value; var r := Exec(w, env, TimeoutRefund); var open := Totals(s).open;
            && (r == Err(Paused) <==> s.paused)
            && (!s.paused && s.config.funder !in env.auths ==> r == Err(HostTrap))
            && (!s.paused && s.config.funder in env.auths ==>
                  && (r == Err(BadState) <==> !s.state.Active?)
                  && (r == Err(DeadlineNotExceeded) <==> s.state.Active? && env.now < s.lockUntil)
                  && (r == Err(NoDeposit) <==> s.state.Active? && s.lockUntil <= env.now && open == 0)
                  && (r == Err(HostTrap) <==>
                        s.state.Active? && s.lockUntil <= env.now && 0 < open && !Room(w, s.config.funder, open))
                  && r != Err(BadAmount))
  {
    hide Reachable, Inv, Refund, Totals, UnstreamedObligation, Room;
    ReachableInv(w, now);
    InvReady(w, now);
    var s := w.store.value;
    if s.state.Active? {
      ActiveCollectable(w, now);
      SaturationHarmless(s.book);
      RefundExact(w, s.config.funder, Totals(s).open);
      LegsRefused(w, s.config.funder, Totals(s).open);
    }
  }

  // ----- Settlement -----

  /** A payable split: the product fits, and each payee of a non-zero leg has room. */
  predicate SplitFits(s: Store, funderBps: U32) {
    s.book.Balance() * funderBps <= I128_MAX
  }

  /** The arbitrator's settlement is refused outside a dispute, for weights that miss the scale, for a product
      that overflows and for a payee without room; an open dispute is never found resolved. */
  lemma ResolveRefused(w: World, now: U64, env: Env, funderBps: U32, recipientBps: U32)
    requires Reachable(w, now) && w.store.Some?
    ensures var s := w.store.value; var r := Exec(w, env, Resolve(funderBps, recipientBps));
            && (r == Err(Paused) <==> s.paused)
            && (!s.paused && s.config.arbitrator !in env.auths ==> r == Err(HostTrap))
            && (!s.paused && s.config.arbitrator in env.auths ==>
                  && (r == Err(BadState) <==> !s.state.Disputed?)
                  && (s.state.Disputed? ==> SplitRefused(w, s, funderBps, recipientBps, r)))
  {
    hide Reachable, Inv, PaySplit, SplitFits, Splittable, Ready;
    ReachableInv(w, now);
    InvReady(w, now);
    OpenNow(w, now);
    if w.store.value.state.Disputed? {
      SplitDecided(w, w.store.value.dispute.value, funderBps, recipientBps);
    }
  }

  lemma OpenNow(w: World, now: U64)
    requires Inv(w, now) && w.store.Some?
    ensures w.store.value.state.Disputed? ==> w.store.value.dispute.Some? && !w.store.value.dispute.value.resolved
  {
    hide StoreInv;
    OpenInDispute(w.store.value, now);
  }

  predicate SplitRefused(w: World, s: Store, funderBps: U32, recipientBps: U32, r: Result<World>) {
    var full := funderBps + recipientBps == 10_000;
    && (r == Err(BadSplit) <==> !full)
    && (r == Err(FeeOverflow) <==> full && !SplitFits(s, funderBps))
    && (r == Err(HostTrap) <==> full && SplitFits(s, funderBps) && !Splittable(w, s, funderBps, recipientBps))
  }

  /** The signers of a list up to the first one that is a stranger or listed before. */
  predicate CleanSigners(s: Store, signers: seq<Address>) {
    NoDuplicates(signers) && forall x :: x in signers ==> x in s.arbitrators.members
  }

  /** The quorum's settlement is refused outside a dispute, for weights that miss the scale, for too few
      signers, at the first signer that is a stranger or a repetition, for a missing authorisation among
      the first `threshold`, and then like the arbitrator's. */
  lemma QuorumSettlementRefused(w: World, now: U64, env: Env, funderBps: U32, recipientBps: U32, signers: Vec<Address>)
    requires Reachable(w, now) && w.store.Some?
    ensures var s := w.store.value; var r := Exec(w, env, SettleQuorum(funderBps, recipientBps, signers));
            var enough := s.arbitrators.threshold <= |signers|;
            var asked := !s.paused && s.state.Disputed? && funderBps + recipientBps == 10_000;
            && (r == Err(Paused) <==> s.paused)
            && (r == Err(BadState) <==> !s.paused && !s.state.Disputed?)
            && (r == Err(BadSplit) <==> !s.paused && s.state.Disputed? && funderBps + recipientBps != 10_000)
            && (r == Err(QuorumNotMet) <==> asked && !enough)
            && (asked && enough ==>
                  && (forall k :: 0 <= k < |signers| && CleanSigners(s, signers[..k]) ==>
                        && (signers[k] !in s.arbitrators.members ==> r == Err(NotAuthorized))
                        && (signers[k] in s.arbitrators.members && signers[k] in signers[..k] ==> r == Err(DupId)))
                  && (!CleanSigners(s, signers) ==> r == Err(NotAuthorized) || r == Err(DupId))
                  && (CleanSigners(s, signers) ==>
                        && (!Quorum(s, env, signers) ==> r == Err(HostTrap))
                        && (Quorum(s, env, signers) ==> SplitRefused(w, s, funderBps, recipientBps, r))))
  {
    hide Reachable, Inv, Exec, SplitRefused, Quorum, CleanSigners, Ready, RequireQuorum, SplitFits, Splittable;
    ReachableInv(w, now);
    InvReady(w, now);
    var s := w.store.value;
    assert s.state.Disputed? ==> s.dispute.Some? && !s.dispute.value.resolved by { OpenNow(w, now); }
    SettleGuarded(w, env, funderBps, recipientBps, signers);
    if !s.paused && s.state.Disputed? && funderBps + recipientBps == 10_000 && s.arbitrators.threshold <= |signers| {
      forall k | 0 <= k < |signers| && CleanSigners(s, signers[..k])
        ensures signers[k] !in s.arbitrators.members ==> ScreenSigners(signers, s.arbitrators) == Fail(NotAuthorized)
        ensures signers[k] in s.arbitrators.members && signers[k] in signers[..k]
                ==> ScreenSigners(signers, s.arbitrators) == Fail(DupId)
      {
        SignerOffends(s, signers, k);
      }
      ScreenErrors(signers, s.arbitrators);
      CleanScreen(s, signers);
      if CleanSigners(s, signers) {
        CleanQuorum(w, now, env, signers);
        SplitDecided(w, s.dispute.value, funderBps, recipientBps);
      }
    }
  }

  lemma CleanScreen(s: Store, signers: seq<Address>)
    ensures CleanSigners(s, signers) <==> ScreenSigners(signers, s.arbitrators).Pass?
  {
    ScreenedSigners(signers, s.arbitrators);
  }

  lemma {:induction false} ScreenErrors(signers: seq<Address>, committee: ArbitratorSet)
    ensures var screen := ScreenSigners(signers, committee);
            screen.Fail? ==> screen.error.NotAuthorized? || screen.error.DupId?
  {
    if signers != [] {
      ScreenErrors(signers[..|signers| - 1], committee);
    }
  }

  lemma SignerOffends(s: Store, signers: seq<Address>, k: nat)
    requires k < |signers| && CleanSigners(s, signers[..k])
    ensures signers[k] !in s.arbitrators.members ==> ScreenSigners(signers, s.arbitrators) == Fail(NotAuthorized)
    ensures signers[k] in s.arbitrators.members && signers[k] in signers[..k]
            ==> ScreenSigners(signers, s.arbitrators) == Fail(DupId)
  {
    hide CleanSigners;
    CleanScreen(s, signers[..k]);
    assert signers[..k + 1][..k] == signers[..k];
    ScreenSignersPrefix(signers, k + 1, s.arbitrators);
  }

  lemma CleanQuorum(w: World, now: U64, env: Env, signers: Vec<Address>)
    requires Inv(w, now) && w.store.Some? && CleanSigners(w.store.value, signers)
    requires w.store.value.arbitrators.threshold <= |signers|
    ensures var s := w.store.value;
            RequireQuorum(signers, s.arbitrators.threshold, env) ==
            if Quorum(s, env, signers) then Pass else Fail(HostTrap)
  {
    hide StoreInv, Solvent, Distinct;
    var s := w.store.value;
    assert 1 <= s.arbitrators.threshold by { ThresholdPositive(s, now); }
    DistinctLaws(signers);
  }

  lemma ThresholdPositive(s: Store, now: U64)
    requires StoreInv(s, now)
    ensures 1 <= s.arbitrators.threshold
  {
    hide ListOk, RecordsOk, BookOk, DocketOk, AmendmentOk;
  }

  lemma SplitDecided(w: World, dispute: DisputeRecord, funderBps: U32, recipientBps: U32)
    requires w.store.Some? && Ready(w)
    ensures var s := w.store.value; var r := PaySplit(w, s, dispute, funderBps, recipientBps);
            && SplitRefused(w, s, funderBps, recipientBps, r)
            && (r.Err? ==> r.error.BadSplit? || r.error.FeeOverflow? || r.error.HostTrap?)
  {
    hide Ready, PaySplit, Splittable;
    PaySplitExact(w, dispute, funderBps, recipientBps);
    PaySplitRefused(w, dispute, funderBps, recipientBps);
    SplittableFits(w, w.store.value, funderBps, recipientBps);
  }

  lemma SplittableFits(w: World, s: Store, funderBps: U32, recipientBps: U32)
    ensures Splittable(w, s, funderBps, recipientBps) ==> funderBps + recipientBps == 10_000 && SplitFits(s, funderBps)
  {
  }

  lemma SettleGuarded(w: World, env: Env, funderBps: U32, recipientBps: U32, signers: Vec<Address>)
    requires w.store.Some?
    requires w.store.value.state.Disputed? ==> w.store.value.dispute.Some? && !w.store.value.dispute.value.resolved
    ensures var s := w.store.value; var r := Exec(w, env, SettleQuorum(funderBps, recipientBps, signers));
            var screen := ScreenSigners(signers, s.arbitrators);
            var quorum := RequireQuorum(signers, s.arbitrators.threshold, env);
            var asked := !s.paused && s.state.Disputed? && funderBps + recipientBps == 10_000;
            && (s.paused ==> r == Err(Paused))
            && (!s.paused && !s.state.Disputed? ==> r == Err(BadState))
            && (!s.paused && s.state.Disputed? && funderBps + recipientBps != 10_000 ==> r == Err(BadSplit))
            && (asked && |signers| < s.arbitrators.threshold ==> r == Err(QuorumNotMet))
            && (asked && s.arbitrators.threshold <= |signers| ==>
                  && (screen.Fail? ==> r == Err(screen.error))
                  && (screen.Pass? && quorum.Fail? ==> r == Err(quorum.error))
                  && (screen.Pass? && quorum.Pass? ==> r == PaySplit(w, s, s.dispute.value, funderBps, recipientBps)))
  {
    hide PaySplit, ScreenSigners, RequireQuorum;
  }

  // ----- Committee -----

  /** The proposed members up to the first one that is a party or listed before. */
  predicate CleanMembers(c: Config, members: seq<Address>) {
    NoDuplicates(members) && c.funder !in members && c.recipient !in members
  }

  /** A committee signed by both parties is refused once a dispute, completion or cancellation came, for a
      threshold nobody or not everybody could meet, and at the first member that is a party or a
      repetition. */
  lemma CommitteeRefused(w: World, now: U64, env: Env, members: Vec<Address>, threshold: U32)
    requires Reachable(w, now) && w.store.Some?
    ensures var s := w.store.value; var c := s.config; var r := Exec(w, env, SetCommittee(members, threshold));
            var signed := !s.paused && c.funder in env.auths && c.recipient in env.auths;
            var open := s.state.Pending? || s.state.Active?;
            && (r == Err(Paused) <==> s.paused)
            && (r == Err(HostTrap) <==> !s.paused && !(c.funder in env.auths && c.recipient in env.auths))
            && (r == Err(BadState) <==> signed && !open)
            && (r == Err(QuorumNotMet) <==> signed && open && !(1 <= threshold <= |members|))
            && (signed && open && 1 <= threshold <= |members| ==>
                  && (forall k :: 0 <= k < |members| && CleanMembers(c, members[..k]) ==>
                        && (members[k] == c.funder || members[k] == c.recipient ==> r == Err(ArbitratorCollision))
                        && (members[k] != c.funder && members[k] != c.recipient && members[k] in members[..k]
                            ==> r == Err(DupId)))
                  && (!CleanMembers(c, members) ==> r == Err(ArbitratorCollision) || r == Err(DupId)))
  {
    hide Reachable, StoreInv, Solvent, ScreenMembers, CleanMembers;
    ReachableInv(w, now);
    var s := w.store.value;
    PartiesDiffer(s, now);
    forall k | 0 <= k < |members| && CleanMembers(s.config, members[..k])
      ensures members[k] == s.config.funder || members[k] == s.config.recipient
              ==> ScreenMembers(members, s.config) == Fail(ArbitratorCollision)
      ensures members[k] != s.config.funder && members[k] != s.config.recipient && members[k] in members[..k]
              ==> ScreenMembers(members, s.config) == Fail(DupId)
    {
      MemberOffends(s.config, members, k);
    }
    MemberErrors(members, s.config);
    assert CleanMembers(s.config, members) <==> ScreenMembers(members, s.config).Pass? by {
      CleanMembersScreen(s.config, members);
    }
  }

  lemma CleanMembersScreen(c: Config, members: seq<Address>)
    ensures CleanMembers(c, members) <==> ScreenMembers(members, c).Pass?
  {
    ScreenedMembers(members, c);
  }

  lemma {:induction false} MemberErrors(members: seq<Address>, config: Config)
    ensures var screen := ScreenMembers(members, config);
            screen.Fail? ==> screen.error.ArbitratorCollision? || screen.error.DupId?
  {
    if members != [] {
      MemberErrors(members[..|members| - 1], config);
    }
  }

  lemma MemberOffends(c: Config, members: seq<Address>, k: nat)
    requires k < |members| && CleanMembers(c, members[..k])
    ensures members[k] == c.funder || members[k] == c.recipient
            ==> ScreenMembers(members, c) == Fail(ArbitratorCollision)
    ensures members[k] != c.funder && members[k] != c.recipient && members[k] in members[..k]
            ==> ScreenMembers(members, c) == Fail(DupId)
  {
    hide CleanMembers;
    CleanMembersScreen(c, members[..k]);
    assert members[..k + 1][..k] == members[..k];
    ScreenMembersPrefix(members, k + 1, c);
  }

  // ----- Amendments -----

  /** A proposal is refused to strangers before their signature is asked for, then in a dispute and outside
      Pending and Active, for an unknown milestone, for an approved one, for a payout that is not
      positive, for a position outside the list, and for a new payout once funded, in this order.  An
      earlier proposal never stands in its way. */
  lemma ProposalRefused(w: World, now: U64, env: Env, actor: Address, id: U32, payout: I128, description: Hash,
                        newPosition: U32)
    requires Reachable(w, now) && w.store.Some?
    ensures var s := w.store.value; var c := s.config;
            var r := Exec(w, env, ProposeAmendment(actor, id, payout, description, newPosition));
            var party := actor == c.funder || actor == c.recipient;
            && (r == Err(Paused) <==> s.paused)
            && (r == Err(NotAuthorized) <==> !s.paused && !party)
            && (r == Err(HostTrap) <==> !s.paused && party && actor !in env.auths)
            && (!s.paused && party && actor in env.auths ==>
                  && (r == Err(DisputeLockActive) <==> s.state.Disputed?)
                  && (r == Err(BadState) <==> s.state.Completed? || s.state.Cancelled?)
                  && (r == Err(NotFound) <==> (s.state.Pending? || s.state.Active?) && id !in s.milestones)
                  && ((s.state.Pending? || s.state.Active?) && id in s.milestones ==>
                        var m := s.milestones[id];
                        && (r == Err(MilestoneAlreadyCompleted) <==> m.isApproved)
                        && (r == Err(ZeroAmountAllocated) <==> !m.isApproved && payout == 0)
                        && (r == Err(InvalidMilestoneSequence) <==>
                              !m.isApproved && 0 < payout && |s.ids| <= newPosition)
                        && (r == Err(BadAmount) <==>
                              !m.isApproved
                              && (payout < 0 || (0 < payout && newPosition < |s.ids|
                                                 && s.state.Active? && payout != m.payout)))))
            && r != Err(AmendmentPending)
  {
    hide Reachable, StoreInv, Solvent;
    ReachableInv(w, now);
    var s := w.store.value;
    PartiesDiffer(s, now);
    if id in s.milestones {
      ReleasedIsApproved(s, now, id);
    }
  }

  /** An acceptance is refused while paused, with nothing pending, without both signatures, for a milestone
      approved meanwhile, and before funding for a new total that leaves i128. */
  lemma AcceptanceRefused(w: World, now: U64, env: Env)
    requires Reachable(w, now) && w.store.Some?
    ensures var s := w.store.value; var c := s.config; var r := Exec(w, env, AcceptAmendment);
            var signed := c.funder in env.auths && c.recipient in env.auths;
            && (r == Err(Paused) <==> s.paused)
            && (r == Err(NotFound) <==> !s.paused && s.amendment.None?)
            && (r == Err(HostTrap) <==> !s.paused && s.amendment.Some? && !signed)
            && (!s.paused && s.amendment.Some? && signed ==>
                  && s.amendment.value.milestoneId in s.milestones
                  && (var m := s.milestones[s.amendment.value.milestoneId];
                      && (r == Err(MilestoneAlreadyCompleted) <==> m.isApproved)
                      && (r == Err(BadAmount) <==>
                            !m.isApproved && s.state.Pending?
                            && I128_MAX < s.config.totalAmount - m.payout + s.amendment.value.payout)))
  {
    hide Reachable, StoreInv, ReorderMilestone, Solvent, NoDuplicates;
    ReachableInv(w, now);
    ReachablePlaced(w, now);
    var s := w.store.value;
    if s.amendment.Some? {
      var a := s.amendment.value;
      assert NoDuplicates(s.ids) && a.milestoneId in s.ids by { Listed(s, now, a.milestoneId); }
      ReorderExact(s.ids, a.milestoneId, a.newPosition);
      ProposalSound(s, now);
      if s.state.Pending? {
        PriceCovered(s, now, a.milestoneId);
      }
    }
  }

  // ----- Initialisation -----

  /** At the first milestone where the schedule stops being sound: a wrong number is told first, then an
      amount that is not positive, then an overflow of the total. */
  lemma ScheduleRefused(input: seq<Milestone>, k: nat)
    requires k < |input| && SoundSchedule(input[..k])
    ensures var m := input[k]; var numbered := m.id == k + 1 < U32_MAX;
            && (!numbered ==> PlanOf(input) == Err(InvalidMilestoneSequence))
            && (numbered && m.payout == 0 ==> PlanOf(input) == Err(ZeroAmountAllocated))
            && (numbered && m.payout < 0 ==> PlanOf(input) == Err(BadAmount))
            && (numbered && I128_MAX < PayoutsOf(input[..k]) + m.payout ==> PlanOf(input) == Err(BadAmount))
  {
    hide SoundSchedule;
    PlanExact(input[..k]);
    SoundPayouts(input[..k]);
    assert input[..k + 1][..k] == input[..k];
    PlanPrefix(input, k + 1);
  }

  lemma SoundPayouts(input: seq<Milestone>)
    requires SoundSchedule(input)
    ensures 0 <= PayoutsOf(input)
  {
    PositivePayouts(input);
  }

  /** Initialisation is refused without the funder's signature, the second time, for an arbitrator that is a
      party, for equal parties, for an asset that is one of them or does not answer plausibly, for an
      empty schedule, and otherwise with the error of the schedule. */
  lemma InitializeRefused(w: World, env: Env, funder: Address, recipient: Address, arbitrator: Address,
                          asset: Address, decimals: Option<U32>, milestones: Vec<Milestone>)
    ensures var r := Exec(w, env, Init(funder, recipient, arbitrator, asset, decimals, milestones));
            var first := funder in env.auths && w.store.None?;
            var collision := funder == arbitrator || recipient == arbitrator;
            var plausible := decimals.Some? && 1 <= decimals.value <= 18 && asset !in {funder, recipient, arbitrator};
            && (funder !in env.auths ==> r == Err(HostTrap))
            && (funder in env.auths && w.store.Some? ==> r == Err(AlreadyInit))
            && (first && collision ==> r == Err(ArbitratorCollision))
            && (first && !collision && funder == recipient ==> r == Err(BadRoles))
            && (first && !collision && funder != recipient && !plausible ==> r == Err(BadToken))
            && (first && !collision && funder != recipient && plausible ==>
                  && (milestones == [] ==> r == Err(ZeroAmountAllocated))
                  && (milestones != [] && !SoundSchedule(milestones) ==>
                        PlanOf(milestones).Err? && r == Err(PlanOf(milestones).error)))
  {
    hide PlanOf, SoundSchedule, Follows;
    PlanExact(milestones);
  }

  /** Before initialisation every other call is refused as not initialised. */
  lemma UninitialisedRefused(w: World, env: Env, call: Call)
    requires w.store.None? && !call.Init?
    ensures Exec(w, env, call) == Err(NotInit)
  {
    NotInitialised(w, env, call);
  }
}
