/** lib.rs: the entrypoints that drive the lifecycle, and the state machine they form. */
module Lifecycle {
  import opened Numeric
  import opened Results
  import opened Storage
  import opened Payments
  import opened Schedules
  import opened Committee

  // ----- initialize -----

  datatype Plan = Plan(ids: seq<U32>, milestones: map<U32, Milestone>, total: I128)

  function Fresh(m: Milestone): Milestone {
    Milestone(m.id, m.payout, m.description, false, 0, MilestoneStatus.Pending, 0, m.vestingSecs, 0, m.deadline, false)
  }

  /** Numbers the milestones 1, 2, ... and totals their payouts. */
  function PlanOf(input: seq<Milestone>): Result<Plan> {
    if input == [] then Ok(Plan([], map[], 0))
    else
      var m := input[|input| - 1];
      var plan :- PlanOf(input[..|input| - 1]);
      :- Need(m.id == |input|, InvalidMilestoneSequence);
      :- Need(|input| + 1 <= U32_MAX, InvalidMilestoneSequence);
      :- PositiveAmount(m.payout);
      var total :- Checked(plan.total + m.payout, BadAmount);
      Ok(Plan(plan.ids + [m.id], plan.milestones[m.id := Fresh(m)], total))
  }

  lemma PlanLength(input: seq<Milestone>)
    ensures PlanOf(input).Ok? ==> |PlanOf(input).value.ids| == |input|
  {
  }

  /** A bad milestone makes the whole schedule bad, with the same error. */
  lemma {:induction false} PlanPrefix(input: seq<Milestone>, k: nat)
    requires k <= |input|
    ensures PlanOf(input[..k]).Err? ==> PlanOf(input) == PlanOf(input[..k])
  {
    if k < |input| {
      PlanPrefix(input[..|input| - 1], k);
      assert input[..|input| - 1][..k] == input[..k];
    } else {
      assert input[..k] == input;
    }
  }

  function ValidateRoles(funder: Address, recipient: Address, arbitrator: Address, token: Address): Outcome {
    if funder == arbitrator || recipient == arbitrator then Fail(ArbitratorCollision)
    else if funder == recipient then Fail(BadRoles)
    else if token == funder || token == recipient || token == arbitrator then Fail(BadToken)
    else Pass
  }

  /** `decimals` is the token contract's answer, `None` when the call fails. */
  function Initialize(w: World, env: Env, funder: Address, recipient: Address, arbitrator: Address,
                      asset: Address, decimals: Option<U32>, milestones: Vec<Milestone>): Result<World> {
    if funder !in env.auths then Err(HostTrap)
    else if w.store.Some? then Err(AlreadyInit)
    else
      :- ValidateRoles(funder, recipient, arbitrator, asset);
      :- Need(decimals.Some? && 0 < decimals.value <= 18, BadToken);
      :- Need(milestones != [], ZeroAmountAllocated);
      var plan :- PlanOf(milestones);
      PlanLength(milestones);
      Ok(w.Put(Store(
        funder,
        Config(funder, recipient, arbitrator, asset, plan.total, |plan.ids|, DEFAULT_LOCK_WINDOW),
        EscrowState.Pending, EMPTY_BOOK, plan.ids, plan.milestones, map[], 0, 0, None, false, None, [],
        DefaultSet(arbitrator), DEFAULT_PENALTY_BPS, funder, 0)))
  }

  // ----- the other lifecycle entrypoints -----

  function AssertMutable(s: Store): Outcome {
    match s.state
    case Active => Pass
    case Disputed => Fail(DisputeLockActive)
    case _ => Fail(BadState)
  }

  function SubmitMilestoneProof(w: World, env: Env, id: U32, proof: Hash): Result<World> {
    var s :- w.Opened();
    :- env.RequireAuth(s.config.recipient);
    :- NotPaused(s);
    :- AssertMutable(s);
    var m :- s.GetMilestone(id);
    :- Need(!m.Finished(), MilestoneAlreadyCompleted);
    :- Need(!m.status.UnderReview?, AlreadySubmitted);
    :- Need(m.status.Pending?, BadState);
    Ok(w.Put(s.SetMilestone(m.(status := MilestoneStatus.UnderReview, submittedAt := env.now))
             .(proofs := s.proofs[id := proof])))
  }

  function ApproveMilestone(w: World, env: Env, id: U32): Result<World> {
    var s :- w.Opened();
    :- NotPaused(s);
    :- RequireReleaser(s, env);
    :- Need(s.book.deposited != 0, NoDeposit);
    var m :- s.GetMilestone(id);
    :- Need(!m.Finished(), MilestoneAlreadyCompleted);
    var streaming := m.vestingSecs > 0;
    var w1 :- if streaming then Ok(w) else PayWithFee(w, s.config.recipient, m.payout);
    var s1 :- w1.Opened();
    var m' := m.(
      isApproved := true,
      completedAt := env.now,
      status := if streaming then MilestoneStatus.UnderReview else MilestoneStatus.Released,
      streamed := if streaming then 0 else m.payout);
    var approved := SatIncU32(s1.approved);
    var state := if s.config.releaseThreshold <= approved then EscrowState.Completed
                 else if s.state.Disputed? then EscrowState.Active else s.state;
    Ok(w1.Put(s1.SetMilestone(m').(approved := approved, state := state)))
  }

  function MarkDisputed(m: Milestone): Milestone {
    if m.status.Released? then m else m.(status := MilestoneStatus.Disputed)
  }

  function MarkOpenMilestonesDisputed(ids: seq<U32>, milestones: map<U32, Milestone>): Result<map<U32, Milestone>> {
    if exists id :: id in ids && id !in milestones then Err(NotFound)
    else Ok(map id | id in milestones :: if id in ids then MarkDisputed(milestones[id]) else milestones[id])
  }

  function RaiseDispute(w: World, env: Env): Result<World> {
    var s :- w.Opened();
    :- NotPaused(s);
    :- env.RequireAuth(s.config.funder);
    :- Need(s.state.Active?, BadState);
    var milestones :- MarkOpenMilestonesDisputed(s.ids, s.milestones);
    Ok(w.Put(s.(
      dispute := Some(DisputeRecord(s.config.funder, env.now, 0, 0, false)),
      milestones := milestones,
      state := EscrowState.Disputed)))
  }

  function ClaimTimeoutRefund(w: World, env: Env): Result<World> {
    var s :- w.Opened();
    :- NotPaused(s);
    :- env.RequireAuth(s.config.funder);
    :- Need(s.state.Active?, BadState);
    :- Need(s.lockUntil <= env.now, DeadlineNotExceeded);
    var reserved :- UnstreamedObligation(s.ids, s.milestones);
    var refund :- Checked(s.book.Locked() - reserved, BadAmount);
    :- Need(refund > 0, NoDeposit);
    var w1 :- Refund(w, s.config.funder, refund);
    var s1 :- w1.Opened();
    Ok(w1.Put(s1.(state := EscrowState.Cancelled)))
  }

  function EmergencyPause(w: World, env: Env): Result<World> {
    var s :- w.Opened();
    :- env.RequireAuth(s.admin);
    :- Need(!s.paused, Paused);
    Ok(w.Put(s.(paused := true)))
  }

  function EmergencyUnpause(w: World, env: Env): Result<World> {
    var s :- w.Opened();
    :- env.RequireAuth(s.admin);
    :- Need(s.paused, BadState);
    Ok(w.Put(s.(paused := false)))
  }

  // ----- the state machine -----

  datatype Call =
    | Init(funder: Address, recipient: Address, arbitrator: Address, asset: Address, decimals: Option<U32>,
           milestones: Vec<Milestone>)
    | Deposit
    | Proof(id: U32, proof: Hash)
    | Approve(id: U32)
    | Raise
    | Resolve(funderBps: U32, recipientBps: U32)
    | TimeoutRefund
    | Pause
    | Unpause
    | ProposeAmendment(actor: Address, id: U32, payout: I128, description: Hash, newPosition: U32)
    | AcceptAmendment
    | AddEvidence(actor: Address, contentHash: Hash)
    | Stream(id: U32)
    | SetCommittee(members: Vec<Address>, threshold: U32)
    | SettleQuorum(funderBps: U32, recipientBps: U32, signers: Vec<Address>)
    | SetPenalty(bps: U32)
    | Slash(id: U32)
    | SetFee(treasury: Address, feeBps: U32)

  /** One invocation: the new world, or the error that leaves the old one in place. */
  function Exec(w: World, env: Env, call: Call): Result<World> {
    match call
    case Init(funder, recipient, arbitrator, asset, decimals, milestones) =>
      Initialize(w, env, funder, recipient, arbitrator, asset, decimals, milestones)
    case Deposit => DepositFunds(w, env)
    case Proof(id, proof) => SubmitMilestoneProof(w, env, id, proof)
    case Approve(id) => ApproveMilestone(w, env, id)
    case Raise => RaiseDispute(w, env)
    case Resolve(funderBps, recipientBps) => ResolveDispute(w, env, funderBps, recipientBps)
    case TimeoutRefund => ClaimTimeoutRefund(w, env)
    case Pause => EmergencyPause(w, env)
    case Unpause => EmergencyUnpause(w, env)
    case ProposeAmendment(actor, id, payout, description, newPosition) =>
      RequestAmendment(w, env, actor, id, payout, description, newPosition)
    case AcceptAmendment => ApproveAmendment(w, env)
    case AddEvidence(actor, contentHash) => AppendEvidence(w, env, actor, contentHash)
    case Stream(id) => StreamMilestonePayout(w, env, id)
    case SetCommittee(members, threshold) => ConfigureArbitrators(w, env, members, threshold)
    case SettleQuorum(funderBps, recipientBps, signers) => SettleWithQuorum(w, env, funderBps, recipientBps, signers)
    case SetPenalty(bps) => SetLatePenaltyBps(w, env, bps)
    case Slash(id) => ApplyLatePenalty(w, env, id)
    case SetFee(treasury, feeBps) => ConfigureProtocolFee(w, env, treasury, feeBps)
  }

  /** Something that happens on the ledger: an invocation of the contract, or token activity of
      others, which can change any balance but never debit the contract's own. */
  datatype Event = Invoke(env: Env, call: Call) | Elsewhere(token: Token)

  function Step(w: World, e: Event): World {
    match e
    case Invoke(env, call) =>
      var r := Exec(w, env, call);
      if r.Ok? then r.value else w
    case Elsewhere(token) => w.(token := token)
  }

  /** What the host and an honest token guarantee about an event, given the time reached so far:
      the clock does not run backwards, the contract's own address never authorises, and nobody
      else spends the contract's tokens. */
  predicate Legal(w: World, now: U64, e: Event) {
    match e
    case Invoke(env, _) => now <= env.now && w.self !in env.auths
    case Elsewhere(token) => w.token.Balance(w.self) <= token.Balance(w.self)
  }

  function Clock(now: U64, e: Event): U64 {
    if e.Invoke? then e.env.now else now
  }

  function Run(w: World, events: seq<Event>): World {
    if events == [] then w else Step(Run(w, events[..|events| - 1]), events[|events| - 1])
  }

  function ClockAfter(now: U64, events: seq<Event>): U64 {
    if events == [] then now else Clock(ClockAfter(now, events[..|events| - 1]), events[|events| - 1])
  }

  predicate LegalRun(w: World, now: U64, events: seq<Event>) {
    events == [] ||
    (var init := events[..|events| - 1];
     LegalRun(w, now, init) && Legal(Run(w, init), ClockAfter(now, init), events[|events| - 1]))
  }
}
