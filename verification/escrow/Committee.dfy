/** access.rs, multisig.rs and dispute.rs: who may act, how a dispute is settled, and its docket. */
module Committee {
  import opened Numeric
  import opened Results
  import opened EscrowMath
  import opened Storage
  import opened Payments

  // ----- access.rs -----

  function RequireReleaser(s: Store, env: Env): Outcome {
    match s.state
    case Active => env.RequireAuth(s.config.funder)
    case Disputed => env.RequireAuth(s.config.arbitrator)
    case _ => Fail(BadState)
  }

  /** The distinct elements, in order of first appearance. */
  function Distinct(xs: seq<Address>): seq<Address> {
    if xs == [] then []
    else
      var rest := Distinct(xs[..|xs| - 1]);
      if xs[|xs| - 1] in rest then rest else rest + [xs[|xs| - 1]]
  }

  /** The first `threshold` distinct signers must all have authorised. */
  function RequireQuorum(signers: seq<Address>, threshold: U32, env: Env): Outcome {
    var distinct := Distinct(signers);
    if threshold == 0 || |signers| < threshold then Fail(QuorumNotMet)
    else if exists i :: 0 <= i < |distinct| && i < threshold && distinct[i] !in env.auths then Fail(HostTrap)
    else if |distinct| < threshold then Fail(QuorumNotMet)
    else Pass
  }

  // ----- multisig.rs -----

  function DefaultSet(arbitrator: Address): ArbitratorSet {
    ArbitratorSet([arbitrator], 1)
  }

  /** Scan of the proposed members, left to right: first offence wins. */
  function ScreenMembers(members: seq<Address>, config: Config): Outcome {
    if members == [] then Pass
    else
      var init, last := members[..|members| - 1], members[|members| - 1];
      var before := ScreenMembers(init, config);
      if before.Fail? then before
      else if last == config.funder || last == config.recipient then Fail(ArbitratorCollision)
      else if last in init then Fail(DupId)
      else Pass
  }

  /** The first offence of a list is the offence of the whole. */
  lemma {:induction false} ScreenMembersPrefix(members: seq<Address>, k: nat, config: Config)
    requires k <= |members|
    ensures var part := ScreenMembers(members[..k], config);
            part.Fail? ==> ScreenMembers(members, config) == part
  {
    if k < |members| {
      ScreenMembersPrefix(members[..|members| - 1], k, config);
      assert members[..|members| - 1][..k] == members[..k];
    } else {
      assert members[..k] == members;
    }
  }

  function ConfigureArbitrators(w: World, env: Env, members: Vec<Address>, threshold: U32): Result<World> {
    var s :- w.Opened();
    :- NotPaused(s);
    :- Need(s.config.funder != s.config.recipient, BadRoles);
    :- env.RequireAuth(s.config.funder);
    :- env.RequireAuth(s.config.recipient);
    :- Need(s.state.Pending? || s.state.Active?, BadState);
    :- Need(members != [] && threshold != 0 && threshold <= |members|, QuorumNotMet);
    :- ScreenMembers(members, s.config);
    Ok(w.Put(s.(arbitrators := ArbitratorSet(members, threshold))))
  }

  /** Scan of the signers of a settlement, left to right: first offence wins. */
  function ScreenSigners(signers: seq<Address>, committee: ArbitratorSet): Outcome {
    if signers == [] then Pass
    else
      var init, last := signers[..|signers| - 1], signers[|signers| - 1];
      var before := ScreenSigners(init, committee);
      if before.Fail? then before
      else if last !in committee.members then Fail(NotAuthorized)
      else if last in init then Fail(DupId)
      else Pass
  }

  lemma {:induction false} ScreenSignersPrefix(signers: seq<Address>, k: nat, committee: ArbitratorSet)
    requires k <= |signers|
    ensures var part := ScreenSigners(signers[..k], committee);
            part.Fail? ==> ScreenSigners(signers, committee) == part
  {
    if k < |signers| {
      ScreenSignersPrefix(signers[..|signers| - 1], k, committee);
      assert signers[..|signers| - 1][..k] == signers[..k];
    } else {
      assert signers[..k] == signers;
    }
  }

  /** Split the locked balance, pay both legs and close the dispute. */
  function PaySplit(w: World, s: Store, dispute: DisputeRecord, funderBps: U32, recipientBps: U32): Result<World> {
    var (funderAmount, recipientAmount) :- SplitAmount(s.book.Locked(), funderBps, recipientBps);
    var w1 :- Refund(w, s.config.funder, funderAmount);
    var w2 :- Release(w1, s.config.recipient, recipientAmount);
    var s2 :- w2.Opened();
    Ok(w2.Put(s2.(
      dispute := Some(dispute.(funderBps := funderBps, recipientBps := recipientBps, resolved := true)),
      state := EscrowState.Completed)))
  }

  function ResolveDispute(w: World, env: Env, funderBps: U32, recipientBps: U32): Result<World> {
    var s :- w.Opened();
    :- NotPaused(s);
    :- env.RequireAuth(s.config.arbitrator);
    :- Need(s.state.Disputed?, BadState);
    :- RequireFullBps(funderBps, recipientBps);
    var dispute :- s.GetDispute();
    :- Need(!dispute.resolved, AlreadyPaid);
    PaySplit(w, s, dispute, funderBps, recipientBps)
  }

  function SettleWithQuorum(w: World, env: Env, funderBps: U32, recipientBps: U32,
                            signers: Vec<Address>): Result<World> {
    var s :- w.Opened();
    :- NotPaused(s);
    :- Need(s.state.Disputed?, BadState);
    :- RequireFullBps(funderBps, recipientBps);
    var dispute :- s.GetDispute();
    :- Need(!dispute.resolved, AlreadyPaid);
    :- Need(s.arbitrators.threshold <= |signers|, QuorumNotMet);
    :- ScreenSigners(signers, s.arbitrators);
    :- RequireQuorum(signers, s.arbitrators.threshold, env);
    PaySplit(w, s, dispute, funderBps, recipientBps)
  }

  // ----- dispute.rs -----

  function AppendEvidence(w: World, env: Env, actor: Address, contentHash: Hash): Result<World> {
    var s :- w.Opened();
    :- NotPaused(s);
    :- Need(actor == s.config.funder || actor == s.config.recipient, NotAuthorized);
    :- env.RequireAuth(actor);
    :- Need(s.state.Disputed?, BadState);
    var dispute :- s.GetDispute();
    :- Need(!dispute.resolved, AlreadyPaid);
    :- Need(contentHash != ZERO_HASH, BadAmount);
    :- Need(|s.evidence| < MAX_EVIDENCE, Locked);
    :- Need(forall e :: e in s.evidence ==> e.contentHash != contentHash, DupId);
    Ok(w.Put(s.(evidence := s.evidence + [Evidence(actor, contentHash, env.now)])))
  }
}
