/** The contract as it is written: storage fields overwritten step by step, some of them before later
    checks, and the host that undoes everything when an entrypoint fails. */
module Contract {
  import opened Numeric
  import opened Results
  import opened EscrowMath
  import opened Storage
  import Payments
  import Schedules
  import Committee
  import opened Lifecycle
  import opened Invariants
  import Disputes
  import Preservation

  /** A method's result and final state agree with its specification; after an error the state is
      whatever had been written so far. */
  predicate Agrees<T>(spec: Result<World>, r: Result<T>, after: World) {
    match r
    case Ok(_) => spec == Ok(after)
    case Err(e) => spec == Err(e)
  }

  class EscrowContract {
    const self: Address

    // Storage; everything but `config` is meaningless until `initialize` has stored it.
    var config: Option<Config>
    var admin: Address
    var state: EscrowState
    var book: Book
    var ids: Vec<U32>
    var milestones: map<U32, Milestone>
    var proofs: map<U32, Hash>
    var approved: U32
    var lockUntil: U64
    var dispute: Option<DisputeRecord>
    var paused: bool
    var amendment: Option<Amendment>
    var evidence: Vec<Evidence>
    var arbitrators: ArbitratorSet
    var penaltyBps: U32
    var treasury: Address
    var feeBps: U32

    // The ledger of the escrowed asset.
    var token: Token

    function Stored(): Store
      reads this
      requires config.Some?
    {
      Store(admin, config.value, state, book, ids, milestones, proofs, approved, lockUntil, dispute, paused,
            amendment, evidence, arbitrators, penaltyBps, treasury, feeBps)
    }

    function View(): World
      reads this
    {
      World(self, if config.None? then None else Some(Stored()), token)
    }

    /** Before `initialize` nothing is stored. */
    predicate Blank()
      reads this
    {
      config.None? ==>
        milestones == map[] && proofs == map[] && lockUntil == 0 && dispute.None? && amendment.None? && evidence == []
    }

    constructor (self: Address, token: Token)
      ensures View() == World(self, None, token) && Blank()
    {
      this.self, this.token := self, token;
      config, milestones, proofs, lockUntil, dispute, amendment, evidence := None, map[], map[], 0, None, None, [];
      admin, state, book, ids, approved, paused := self, EscrowState.Pending, EMPTY_BOOK, [], 0, false;
      arbitrators, penaltyBps, treasury, feeBps := ArbitratorSet([], 0), DEFAULT_PENALTY_BPS, self, 0;
    }

    // ----- storage.rs -----

    function GetConfig(): Result<Config>
      reads this
    {
      match config case None => Err(NotInit) case Some(c) => Ok(c)
    }

    function IsPaused(): bool
      reads this
    {
      config.Some? && paused
    }

    function GetMilestone(id: U32): Result<Milestone>
      reads this
    {
      if id in milestones then Ok(milestones[id]) else Err(NotFound)
    }

    method SetMilestone(m: Milestone)
      modifies this`milestones
      ensures milestones == old(milestones)[m.id := m]
    {
      milestones := milestones[m.id := m];
    }

    // ----- token.rs -----

    method TransferTo(to: Address, amount: I128) returns (r: Result<()>)
      modifies this`token
      ensures Agrees(Payments.TransferTo(old(View()), to, amount), r, View())
    {
      var sign := PositiveAmount(amount);
      :- sign;
      var _ :- GetConfig();
      var moved :- token.Transfer(self, to, amount);
      token := moved;
      return Ok(());
    }

    method CreditReleased(amount: I128) returns (r: Result<Book>)
      requires config.Some?
      modifies this`book
      ensures Agrees(Payments.CreditReleased(old(View()), amount), r, View())
      ensures r.Ok? ==> r.value == book
    {
      var released :- Checked(book.released + amount, BadAmount);
      var credited := book.(released := released);
      if credited.Locked() < 0 {
        return Err(BadAmount);
      }
      book := credited;
      return Ok(credited);
    }

    method CreditRefunded(amount: I128) returns (r: Result<Book>)
      requires config.Some?
      modifies this`book
      ensures Agrees(Payments.CreditRefunded(old(View()), amount), r, View())
      ensures r.Ok? ==> r.value == book
    {
      if amount > book.Locked() {
        return Err(BadAmount);
      }
      var refunded :- Checked(book.refunded + amount, BadAmount);
      book := book.(refunded := refunded);
      return Ok(book);
    }

    method DepositFunds(env: Env) returns (r: Result<()>)
      modifies this
      ensures Agrees(Payments.DepositFunds(old(View()), env), r, View())
      ensures config == old(config)
    {
      hide Token.TransferFrom, Token.Balance, Token.Allowance, SatAddU64;
      if IsPaused() {
        return Err(Paused);
      }
      var c :- GetConfig();
      :- env.RequireAuth(c.funder);
      :- Need(state == EscrowState.Pending, BadState);
      :- Need(book.deposited <= 0, AlreadyPaid);
      if token.Allowance(c.funder, self) < c.totalAmount {
        return Err(InsufficientAllowance);
      }
      var pulled :- token.TransferFrom(self, c.funder, self, c.totalAmount);
      token := pulled;
      if token.Balance(self) < c.totalAmount {
        return Err(NoDeposit);
      }
      book := book.(deposited := c.totalAmount);
      state := EscrowState.Active;
      lockUntil := SatAddU64(env.now, c.lockSecs);
      return Ok(());
    }

    // ----- fees.rs -----

    method ConfigureProtocolFee(env: Env, newTreasury: Address, newFeeBps: U32) returns (r: Result<()>)
      modifies this
      ensures Agrees(Payments.ConfigureProtocolFee(old(View()), env, newTreasury, newFeeBps), r, View())
      ensures config == old(config)
    {
      if IsPaused() {
        return Err(Paused);
      }
      var c :- GetConfig();
      :- env.RequireAuth(admin);
      :- Need(state == EscrowState.Pending, BadState);
      :- Need(newFeeBps <= BPS_SCALE, FeeOverflow);
      :- Need(newTreasury != c.recipient, BadRoles);
      treasury := newTreasury;
      feeBps := newFeeBps;
      return Ok(());
    }

    /** Fee first, then the recipient's net; the fee is already paid when the net fails. */
    method PayWithFee(recipient: Address, gross: I128) returns (r: Result<I128>)
      requires config.Some?
      modifies this`token, this`book
      ensures Agrees(Payments.PayWithFee(old(View()), recipient, gross), r, View())
      ensures r.Ok? ==> r.value == gross - Share(gross, feeBps) && book.released == old(book.released) + gross
    {
      hide Payments.TransferTo, Payments.CreditRefunded;
      LegsAddUp(Stored(), gross);
      var split :- Payments.DisbursementSplit(Stored(), gross);
      if split.0 > 0 {
        var _ :- TransferTo(treasury, split.0);
        var _ :- CreditReleased(split.0);
      }
      if split.1 > 0 {
        var _ :- TransferTo(recipient, split.1);
        var _ :- CreditReleased(split.1);
      }
      return Ok(split.1);
    }

    // ----- vesting.rs -----

    method StreamMilestonePayout(env: Env, id: U32) returns (r: Result<I128>)
      modifies this
      ensures Agrees(Schedules.StreamMilestonePayout(old(View()), env, id), r, View())
      ensures config == old(config)
      ensures r.Ok? ==> 0 < r.value && book.released == old(book.released) + r.value
    {
      hide Payments.PayWithFee, VestedAmount, Checked;
      :- Need(!IsPaused(), Paused);
      var c :- GetConfig();
      :- env.RequireAuth(c.recipient);
      if state == EscrowState.Disputed {
        return Err(DisputeLockActive);
      }
      if state != EscrowState.Active && state != EscrowState.Completed {
        return Err(BadState);
      }
      var m :- GetMilestone(id);
      :- Need(m.isApproved, VestingIncomplete);
      :- Need(m.vestingSecs != 0, BadState);
      :- Need(m.streamed < m.payout, MilestoneAlreadyCompleted);
      :- Need(m.completedAt + m.vestingSecs <= U64_MAX, BadAmount);
      var vested :- VestedAmount(m.payout, m.completedAt, m.completedAt + m.vestingSecs, env.now);
      var unpaid :- Checked(vested - m.streamed, BadAmount);
      :- Need(unpaid > 0, VestingIncomplete);
      var _ :- PayWithFee(c.recipient, unpaid);
      var streamed :- Checked(m.streamed + unpaid, BadAmount);
      SetMilestone(m.(
        streamed := streamed,
        status := if streamed >= m.payout then MilestoneStatus.Released else m.status));
      return Ok(unpaid);
    }

    method UnstreamedObligation() returns (r: Result<I128>)
      ensures r == Schedules.UnstreamedObligation(ids, milestones)
    {
      var owed: I128 := 0;
      for i := 0 to |ids|
        invariant Schedules.UnstreamedObligation(ids[..i], milestones) == Ok(owed)
      {
        ObligationPrefix(ids, i + 1, milestones);
        assert ids[..i + 1][..i] == ids[..i];
        var m :- GetMilestone(ids[i]);
        if m.isApproved {
          var rest :- Checked(m.payout - m.streamed, BadAmount);
          owed :- Checked(owed + rest, BadAmount);
        }
      }
      assert ids[..|ids|] == ids;
      return Ok(owed);
    }

    // ----- penalty.rs -----

    method SetLatePenaltyBps(env: Env, bps: U32) returns (r: Result<U32>)
      modifies this
      ensures Agrees(Schedules.SetLatePenaltyBps(old(View()), env, bps), r, View())
      ensures r.Ok? ==> r.value == bps
      ensures config == old(config)
    {
      if IsPaused() {
        return Err(Paused);
      }
      var c :- GetConfig();
      :- env.RequireAuth(c.funder);
      :- Need(state == EscrowState.Pending, BadState);
      :- Need(bps <= BPS_SCALE, PenaltyOverflow);
      penaltyBps := bps;
      return Ok(bps);
    }

    method ApplyLatePenalty(env: Env, id: U32) returns (r: Result<I128>)
      modifies this
      ensures Agrees(Schedules.ApplyLatePenalty(old(View()), env, id), r, View())
      ensures config == old(config)
      ensures r.Ok? ==> book.refunded == old(book.refunded) + r.value
    {
      hide Payments.TransferTo;
      :- Need(!IsPaused(), Paused);
      var c :- GetConfig();
      :- env.RequireAuth(c.funder);
      :- Need(state == EscrowState.Active, BadState);
      var m :- GetMilestone(id);
      :- Need(!m.latePenaltyApplied, AlreadyPaid);
      :- Need(!m.Finished(), MilestoneAlreadyCompleted);
      :- Need(m.status == MilestoneStatus.UnderReview, BadState);
      :- Need(m.deadline != 0, BadState);
      if m.submittedAt == 0 || m.submittedAt <= m.deadline {
        return Err(DeadlineNotExceeded);
      }
      var cut :- ApplyPenalty(m.payout, penaltyBps);
      if cut.0 == 0 {
        SetMilestone(m.(latePenaltyApplied := true));
        return Ok(0);
      }
      PenaltyPositive(m.payout, penaltyBps);
      var _ :- TransferTo(c.funder, cut.0);
      var _ :- CreditRefunded(cut.0);
      SetMilestone(m.(payout := cut.1, latePenaltyApplied := true));
      return Ok(cut.0);
    }

    // ----- milestone.rs -----

    /** Whether `actor` is the funder (true) or the recipient (false); the actor must have signed. */
    function AssertParty(env: Env, actor: Address): Result<bool>
      reads this
    {
      var c :- GetConfig();
      if actor == c.funder then
        :- env.RequireAuth(actor);
        Ok(true)
      else if actor == c.recipient then
        :- env.RequireAuth(actor);
        Ok(false)
      else
        Err(NotAuthorized)
    }

    method RequestMilestoneAmendment(env: Env, actor: Address, id: U32, payout: I128, description: Hash,
                                     newPosition: U32) returns (r: Result<()>)
      modifies this
      ensures Agrees(Schedules.RequestAmendment(old(View()), env, actor, id, payout, description, newPosition),
                     r, View())
      ensures config == old(config)
    {
      if IsPaused() {
        return Err(Paused);
      }
      var isFunder :- AssertParty(env, actor);
      if state == EscrowState.Disputed {
        return Err(DisputeLockActive);
      }
      if state != EscrowState.Pending && state != EscrowState.Active {
        return Err(BadState);
      }
      var m :- GetMilestone(id);
      :- Need(!m.Finished(), MilestoneAlreadyCompleted);
      :- PositiveAmount(payout);
      :- Need(newPosition < |ids|, InvalidMilestoneSequence);
      if state == EscrowState.Active && payout != m.payout {
        return Err(BadAmount);
      }
      if amendment.Some? && amendment.value.funderApproved && amendment.value.recipientApproved {
        return Err(AmendmentPending);
      }
      amendment := Some(Amendment(id, payout, description, newPosition, actor, isFunder, !isFunder));
      return Ok(());
    }

    method ApproveAmendment(env: Env) returns (r: Result<Amendment>)
      modifies this
      ensures Agrees(Schedules.ApproveAmendment(old(View()), env), r, View())
      ensures old(config).Some? == config.Some?
      ensures r.Ok? ==> old(amendment).Some? && amendment.None?
                        && r.value == old(amendment).value.(funderApproved := true, recipientApproved := true)
    {
      hide Schedules.ApplyAmendment;
      if IsPaused() {
        return Err(Paused);
      }
      var c :- GetConfig();
      :- Need(amendment.Some?, NotFound);
      var proposal := amendment.value;
      :- Need(!(proposal.funderApproved && proposal.recipientApproved), AlreadyPaid);
      :- Need(c.funder != c.recipient, BadRoles);
      :- env.RequireAuth(c.funder);
      :- env.RequireAuth(c.recipient);
      proposal := proposal.(funderApproved := true, recipientApproved := true);
      var _ :- ApplyAmendment(proposal);
      amendment := None;
      return Ok(proposal);
    }

    /** Reprices while Pending, rewrites the text and reorders; the total and the record are already
        overwritten when reordering fails. */
    method ApplyAmendment(proposal: Amendment) returns (r: Result<()>)
      requires config.Some?
      modifies this`config, this`milestones, this`ids
      ensures config.Some?
      ensures Agrees(Schedules.ApplyAmendment(old(View()), proposal), r, View())
    {
      hide Schedules.ReorderMilestone;
      var m :- GetMilestone(proposal.milestoneId);
      :- Need(!m.Finished(), MilestoneAlreadyCompleted);
      if state == EscrowState.Pending && proposal.payout != m.payout {
        var rest :- Checked(config.value.totalAmount - m.payout, BadAmount);
        var newTotal :- Checked(rest + proposal.payout, BadAmount);
        :- PositiveAmount(newTotal);
        config := Some(config.value.(totalAmount := newTotal));
        m := m.(payout := proposal.payout);
      }
      m := m.(description := proposal.description);
      SetMilestone(m);
      var _ :- ReorderMilestone(proposal.milestoneId, proposal.newPosition);
      return Ok(());
    }

    /** Takes the id out of the list in one pass and puts it back at its new position in another. */
    method ReorderMilestone(id: U32, newPosition: U32) returns (r: Result<()>)
      modifies this`ids
      ensures r.Ok? ==> Schedules.ReorderMilestone(old(ids), id, newPosition) == Ok(ids)
      ensures r.Err? ==> Schedules.ReorderMilestone(old(ids), id, newPosition) == Err(r.error)
    {
      var ordered: seq<U32> := [];
      var found := false;
      for i := 0 to |ids|
        invariant ordered == Schedules.Without(ids[..i], id)
        invariant found == (id in ids[..i])
      {
        assert ids[..i + 1][..i] == ids[..i];
        if ids[i] == id {
          found := true;
          continue;
        }
        ordered := ordered + [ids[i]];
      }
      assert ids[..|ids|] == ids;
      Schedules.WithoutShorter(ids, id);
      :- Need(found, NotFound);
      :- Need(newPosition <= |ordered|, InvalidMilestoneSequence);
      var result: seq<U32> := [];
      for i := 0 to |ordered|
        invariant result == if i <= newPosition then ordered[..i]
                            else ordered[..newPosition] + [id] + ordered[newPosition..i]
      {
        if i == newPosition {
          result := result + [id];
        }
        result := result + [ordered[i]];
      }
      if newPosition == |ordered| {
        result := result + [id];
      }
      assert result == ordered[..newPosition] + [id] + ordered[newPosition..];
      ids := result;
      return Ok(());
    }

    // ----- multisig.rs -----

    method MemberIndex(who: Address) returns (r: Result<U32>)
      ensures r.Ok? ==> r.value < |arbitrators.members| && arbitrators.members[r.value] == who
      ensures r.Err? ==> r.error == NotAuthorized && who !in arbitrators.members
    {
      for i := 0 to |arbitrators.members|
        invariant who !in arbitrators.members[..i]
      {
        if arbitrators.members[i] == who {
          return Ok(i);
        }
      }
      return Err(NotAuthorized);
    }

    method ConfigureArbitrators(env: Env, members: Vec<Address>, threshold: U32) returns (r: Result<ArbitratorSet>)
      modifies this
      ensures Agrees(Committee.ConfigureArbitrators(old(View()), env, members, threshold), r, View())
      ensures config == old(config)
      ensures r.Ok? ==> r.value == arbitrators
    {
      hide Committee.ScreenMembers;
      :- Need(!IsPaused(), Paused);
      var c :- GetConfig();
      :- Need(c.funder != c.recipient, BadRoles);
      :- env.RequireAuth(c.funder);
      :- env.RequireAuth(c.recipient);
      if state != EscrowState.Pending && state != EscrowState.Active {
        return Err(BadState);
      }
      if members == [] || threshold == 0 || threshold > |members| {
        return Err(QuorumNotMet);
      }
      var unique :- UniqueMembers(c, members);
      arbitrators := ArbitratorSet(unique, threshold);
      return Ok(arbitrators);
    }

    method UniqueMembers(c: Config, members: Vec<Address>) returns (r: Result<seq<Address>>)
      ensures r.Ok? ==> r.value == members && Committee.ScreenMembers(members, c).Pass?
      ensures r.Err? ==> Committee.ScreenMembers(members, c) == Fail(r.error)
    {
      var unique: seq<Address> := [];
      for i := 0 to |members|
        invariant unique == members[..i]
        invariant Committee.ScreenMembers(members[..i], c).Pass?
      {
        Committee.ScreenMembersPrefix(members, i + 1, c);
        assert members[..i + 1][..i] == members[..i];
        var member := members[i];
        if member == c.funder || member == c.recipient {
          return Err(ArbitratorCollision);
        }
        for k := 0 to |unique|
          invariant member !in unique[..k]
        {
          if unique[k] == member {
            return Err(DupId);
          }
        }
        unique := unique + [member];
      }
      assert members[..|members|] == members;
      return Ok(unique);
    }

    method SettleWithQuorum(env: Env, funderBps: U32, recipientBps: U32, signers: Vec<Address>) returns (r: Result<()>)
      modifies this
      ensures Agrees(Committee.SettleWithQuorum(old(View()), env, funderBps, recipientBps, signers), r, View())
      ensures config == old(config)
    {
      hide Committee.RequireQuorum, Committee.PaySplit, Committee.ScreenSigners;
      :- Need(!IsPaused(), Paused);
      var c :- GetConfig();
      :- Need(state == EscrowState.Disputed, BadState);
      :- RequireFullBps(funderBps, recipientBps);
      :- Need(dispute.Some?, NotFound);
      :- Need(!dispute.value.resolved, AlreadyPaid);
      :- Need(|signers| >= arbitrators.threshold, QuorumNotMet);
      var unique :- UniqueSigners(signers);
      var accepted := RequireQuorum(unique, arbitrators.threshold, env);
      :- accepted;
      r := PaySplit(dispute.value, funderBps, recipientBps);
    }

    method UniqueSigners(signers: Vec<Address>) returns (r: Result<seq<Address>>)
      ensures r.Ok? ==> r.value == signers && Committee.ScreenSigners(signers, arbitrators).Pass?
      ensures r.Err? ==> Committee.ScreenSigners(signers, arbitrators) == Fail(r.error)
    {
      var unique: seq<Address> := [];
      for i := 0 to |signers|
        invariant unique == signers[..i]
        invariant Committee.ScreenSigners(signers[..i], arbitrators).Pass?
      {
        Committee.ScreenSignersPrefix(signers, i + 1, arbitrators);
        assert signers[..i + 1][..i] == signers[..i];
        var signer := signers[i];
        var _ :- MemberIndex(signer);
        for k := 0 to |unique|
          invariant signer !in unique[..k]
        {
          if unique[k] == signer {
            return Err(DupId);
          }
        }
        unique := unique + [signer];
      }
      assert signers[..|signers|] == signers;
      return Ok(unique);
    }

    /** One refund leg, one release leg, then the record; both settlement entrypoints end this way. */
    method PaySplit(record: DisputeRecord, funderBps: U32, recipientBps: U32) returns (r: Result<()>)
      requires config.Some?
      modifies this
      ensures Agrees(Committee.PaySplit(old(View()), old(Stored()), record, funderBps, recipientBps), r, View())
      ensures config == old(config)
    {
      hide SplitAmount, Payments.TransferTo, Payments.CreditRefunded, Payments.CreditReleased;
      var legs :- SplitAmount(book.Locked(), funderBps, recipientBps);
      if legs.0 > 0 {
        var _ :- TransferTo(config.value.funder, legs.0);
        var _ :- CreditRefunded(legs.0);
      }
      if legs.1 > 0 {
        var _ :- TransferTo(config.value.recipient, legs.1);
        var _ :- CreditReleased(legs.1);
      }
      dispute := Some(record.(funderBps := funderBps, recipientBps := recipientBps, resolved := true));
      state := EscrowState.Completed;
      return Ok(());
    }

    // ----- access.rs -----

    /** Walks the signers, skipping repeats, until `threshold` distinct ones have authorised. */
    method RequireQuorum(signers: seq<Address>, threshold: U32, env: Env) returns (r: Outcome)
      requires |signers| <= U32_MAX
      ensures r == Committee.RequireQuorum(signers, threshold, env)
    {
      hide Committee.RequireQuorum;
      if threshold == 0 || |signers| < threshold {
        QuorumShort(signers, threshold, env);
        return Fail(QuorumNotMet);
      }
      var accepted: U32 := 0;
      var seen: seq<Address> := [];
      for i := 0 to |signers|
        invariant seen == Committee.Distinct(signers[..i]) && accepted == |seen| < threshold
        invariant forall k :: 0 <= k < |seen| ==> seen[k] in env.auths
      {
        var signer := signers[i];
        assert signers[..i + 1][..i] == signers[..i];
        Disputes.DistinctInOrder(signers, i + 1);
        var duplicate := false;
        for k := 0 to |seen|
          invariant !duplicate && signer !in seen[..k]
        {
          if seen[k] == signer {
            duplicate := true;
            break;
          }
        }
        if duplicate {
          continue;
        }
        if signer !in env.auths {
          QuorumRefused(signers, |seen|, threshold, env);
          return Fail(HostTrap);
        }
        seen := seen + [signer];
        accepted := SatIncU32(accepted);
        if accepted >= threshold {
          QuorumReached(signers, threshold, env);
          return Pass;
        }
      }
      assert signers[..|signers|] == signers;
      QuorumShort(signers, threshold, env);
      return Fail(QuorumNotMet);
    }

    // ----- dispute.rs -----

    method AppendDisputeEvidence(env: Env, actor: Address, contentHash: Hash) returns (r: Result<U32>)
      modifies this
      ensures Agrees(Committee.AppendEvidence(old(View()), env, actor, contentHash), r, View())
      ensures config == old(config)
      ensures r.Ok? ==> r.value == |evidence|
    {
      if IsPaused() {
        return Err(Paused);
      }
      var c :- GetConfig();
      :- Need(actor == c.funder || actor == c.recipient, NotAuthorized);
      :- env.RequireAuth(actor);
      :- Need(state == EscrowState.Disputed, BadState);
      :- Need(dispute.Some?, NotFound);
      :- Need(!dispute.value.resolved, AlreadyPaid);
      :- Need(contentHash != ZERO_HASH, BadAmount);
      :- Need(|evidence| < MAX_EVIDENCE, Locked);
      for i := 0 to |evidence|
        invariant forall e :: e in evidence[..i] ==> e.contentHash != contentHash
      {
        if evidence[i].contentHash == contentHash {
          return Err(DupId);
        }
      }
      evidence := evidence + [Evidence(actor, contentHash, env.now)];
      return Ok(|evidence|);
    }

    // ----- lib.rs -----

    method Initialize(env: Env, funder: Address, recipient: Address, arbitrator: Address, asset: Address,
                      decimals: Option<U32>, schedule: Vec<Milestone>) returns (r: Result<()>)
      requires Blank()
      modifies this
      ensures Agrees(Lifecycle.Initialize(old(View()), env, funder, recipient, arbitrator, asset, decimals, schedule),
                     r, View())
    {
      hide PlanOf, ValidateRoles;
      :- env.RequireAuth(funder);
      :- Need(config.None?, AlreadyInit);
      :- ValidateRoles(funder, recipient, arbitrator, asset);
      :- Need(decimals.Some? && 0 < decimals.value <= 18, BadToken);
      :- Need(schedule != [], ZeroAmountAllocated);
      var plan :- StoreSchedule(schedule);
      PlanLength(schedule);
      StoreEscrow(Config(funder, recipient, arbitrator, asset, plan.1, |plan.0|, DEFAULT_LOCK_WINDOW), plan.0);
      return Ok(());
    }

    method StoreEscrow(c: Config, listed: Vec<U32>)
      modifies this
      ensures config.Some? && token == old(token)
      ensures Stored() == Store(
                c.funder, c, EscrowState.Pending, EMPTY_BOOK, listed, old(milestones), old(proofs), 0, old(lockUntil),
                old(dispute), false, old(amendment), old(evidence), Committee.DefaultSet(c.arbitrator),
                DEFAULT_PENALTY_BPS, c.funder, 0)
    {
      StoreConfiguration(c);
      StoreRecords(listed, c.arbitrator);
    }

    method StoreConfiguration(c: Config)
      modifies this`admin, this`config, this`state, this`approved, this`paused, this`penaltyBps, this`treasury,
               this`feeBps
      ensures admin == c.funder && config == Some(c) && state == EscrowState.Pending && approved == 0 && !paused
      ensures penaltyBps == DEFAULT_PENALTY_BPS && treasury == c.funder && feeBps == 0
    {
      admin := c.funder;
      config := Some(c);
      state := EscrowState.Pending;
      approved := 0;
      paused := false;
      penaltyBps := DEFAULT_PENALTY_BPS;
      treasury := c.funder;
      feeBps := 0;
    }

    method StoreRecords(listed: Vec<U32>, arbitrator: Address)
      modifies this`book, this`ids, this`arbitrators
      ensures book == EMPTY_BOOK && ids == listed && arbitrators == Committee.DefaultSet(arbitrator)
    {
      book := EMPTY_BOOK;
      ids := listed;
      arbitrators := Committee.DefaultSet(arbitrator);
    }

    /** Checks, numbers and totals the schedule.  Milestones are stored as they are checked, so a bad
        schedule fails with some already written. */
    method StoreSchedule(schedule: Vec<Milestone>) returns (r: Result<(seq<U32>, I128)>)
      requires milestones == map[]
      modifies this`milestones
      ensures r.Ok? ==> PlanOf(schedule) == Ok(Plan(r.value.0, milestones, r.value.1))
      ensures r.Err? ==> PlanOf(schedule) == Err(r.error)
    {
      var total: I128 := 0;
      var listed: seq<U32> := [];
      var expectedId: U32 := 1;
      for i := 0 to |schedule|
        invariant expectedId == i + 1
        invariant PlanOf(schedule[..i]) == Ok(Plan(listed, milestones, total))
      {
        PlanPrefix(schedule, i + 1);
        assert schedule[..i + 1][..i] == schedule[..i];
        var m := schedule[i];
        :- Need(m.id == expectedId, InvalidMilestoneSequence);
        :- Need(expectedId + 1 <= U32_MAX, InvalidMilestoneSequence);
        expectedId := expectedId + 1;
        :- PositiveAmount(m.payout);
        listed := listed + [m.id];
        total :- Checked(total + m.payout, BadAmount);
        SetMilestone(Fresh(m));
      }
      assert schedule[..|schedule|] == schedule;
      return Ok((listed, total));
    }

    method SubmitMilestoneProof(env: Env, id: U32, proof: Hash) returns (r: Result<()>)
      modifies this
      ensures Agrees(Lifecycle.SubmitMilestoneProof(old(View()), env, id, proof), r, View())
      ensures config == old(config)
    {
      var c :- GetConfig();
      :- env.RequireAuth(c.recipient);
      :- Need(!IsPaused(), Paused);
      :- AssertMutable(Stored());
      var m :- GetMilestone(id);
      :- Need(!m.Finished(), MilestoneAlreadyCompleted);
      :- Need(m.status != MilestoneStatus.UnderReview, AlreadySubmitted);
      :- Need(m.status == MilestoneStatus.Pending, BadState);
      SetMilestone(m.(status := MilestoneStatus.UnderReview, submittedAt := env.now));
      proofs := proofs[id := proof];
      return Ok(());
    }

    method ApproveMilestone(env: Env, id: U32) returns (r: Result<()>)
      modifies this
      ensures Agrees(Lifecycle.ApproveMilestone(old(View()), env, id), r, View())
      ensures config == old(config)
    {
      hide Payments.PayWithFee;
      :- Need(!IsPaused(), Paused);
      var c :- GetConfig();
      :- Committee.RequireReleaser(Stored(), env);
      :- Need(book.deposited != 0, NoDeposit);
      var m :- GetMilestone(id);
      :- Need(!m.Finished(), MilestoneAlreadyCompleted);
      m := m.(isApproved := true, completedAt := env.now);
      if m.vestingSecs > 0 {
        m := m.(status := MilestoneStatus.UnderReview, streamed := 0);
        SetMilestone(m);
      } else {
        var _ :- PayWithFee(c.recipient, m.payout);
        m := m.(status := MilestoneStatus.Released, streamed := m.payout);
        SetMilestone(m);
      }
      approved := SatIncU32(approved);
      if approved >= c.releaseThreshold {
        state := EscrowState.Completed;
      } else if state == EscrowState.Disputed {
        state := EscrowState.Active;
      }
      return Ok(());
    }

    /** Every stored milestone is filed under its own id. */
    predicate Keyed()
      reads this
    {
      forall id :: id in milestones ==> milestones[id].id == id
    }

    method MarkOpenMilestonesDisputed() returns (r: Result<()>)
      requires Keyed()
      modifies this`milestones
      ensures r.Ok? ==> Lifecycle.MarkOpenMilestonesDisputed(ids, old(milestones)) == Ok(milestones)
      ensures r.Err? ==> Lifecycle.MarkOpenMilestonesDisputed(ids, old(milestones)) == Err(r.error)
    {
      for i := 0 to |ids|
        invariant Keyed() && milestones.Keys == old(milestones).Keys
        invariant forall id :: id in ids[..i] ==> id in milestones
        invariant forall id :: id in milestones ==>
                    milestones[id] == if id in ids[..i] then MarkDisputed(old(milestones)[id]) else old(milestones)[id]
      {
        assert ids[i] in ids;
        var m :- GetMilestone(ids[i]);
        if m.status != MilestoneStatus.Released {
          SetMilestone(m.(status := MilestoneStatus.Disputed));
        }
      }
      assert ids[..|ids|] == ids;
      assert Lifecycle.MarkOpenMilestonesDisputed(ids, old(milestones)).value == milestones;
      return Ok(());
    }

    method RaiseDispute(env: Env) returns (r: Result<()>)
      requires Keyed()
      modifies this
      ensures Agrees(Lifecycle.RaiseDispute(old(View()), env), r, View())
      ensures config == old(config)
    {
      hide Lifecycle.MarkOpenMilestonesDisputed;
      :- Need(!IsPaused(), Paused);
      var c :- GetConfig();
      :- env.RequireAuth(c.funder);
      :- Need(state == EscrowState.Active, BadState);
      dispute := Some(DisputeRecord(c.funder, env.now, 0, 0, false));
      var _ :- MarkOpenMilestonesDisputed();
      state := EscrowState.Disputed;
      return Ok(());
    }

    method ResolveDispute(env: Env, funderBps: U32, recipientBps: U32) returns (r: Result<()>)
      modifies this
      ensures Agrees(Committee.ResolveDispute(old(View()), env, funderBps, recipientBps), r, View())
      ensures config == old(config)
    {
      hide Committee.PaySplit;
      :- Need(!IsPaused(), Paused);
      var c :- GetConfig();
      :- env.RequireAuth(c.arbitrator);
      :- Need(state == EscrowState.Disputed, BadState);
      :- RequireFullBps(funderBps, recipientBps);
      :- Need(dispute.Some?, NotFound);
      :- Need(!dispute.value.resolved, AlreadyPaid);
      r := PaySplit(dispute.value, funderBps, recipientBps);
    }

    method ClaimTimeoutRefund(env: Env) returns (r: Result<()>)
      modifies this
      ensures Agrees(Lifecycle.ClaimTimeoutRefund(old(View()), env), r, View())
      ensures config == old(config)
    {
      hide Payments.TransferTo, Payments.CreditRefunded, Schedules.UnstreamedObligation;
      :- Need(!IsPaused(), Paused);
      var c :- GetConfig();
      :- env.RequireAuth(c.funder);
      :- Need(state == EscrowState.Active, BadState);
      :- Need(env.now >= lockUntil, DeadlineNotExceeded);
      var reserved :- UnstreamedObligation();
      var refund :- Checked(book.Locked() - reserved, BadAmount);
      :- Need(refund > 0, NoDeposit);
      var _ :- TransferTo(c.funder, refund);
      var _ :- CreditRefunded(refund);
      state := EscrowState.Cancelled;
      return Ok(());
    }

    method EmergencyPause(env: Env) returns (r: Result<()>)
      modifies this`paused
      ensures Agrees(Lifecycle.EmergencyPause(old(View()), env), r, View())
    {
      var _ :- GetConfig();
      :- env.RequireAuth(admin);
      :- Need(!IsPaused(), Paused);
      paused := true;
      return Ok(());
    }

    method EmergencyUnpause(env: Env) returns (r: Result<()>)
      modifies this`paused
      ensures Agrees(Lifecycle.EmergencyUnpause(old(View()), env), r, View())
    {
      var _ :- GetConfig();
      :- env.RequireAuth(admin);
      :- Need(IsPaused(), BadState);
      paused := false;
      return Ok(());
    }

    // ----- the host -----

    /** Discards everything a failed invocation has written. */
    method Rollback(w: World)
      requires w.self == self
      modifies this
      ensures View() == w && Blank()
    {
      token := w.token;
      match w.store {
        case None =>
          config, milestones, proofs, lockUntil, dispute, amendment, evidence := None, map[], map[], 0, None, None, [];
        case Some(s) =>
          Restore(s);
      }
    }

    method Restore(s: Store)
      modifies this
      ensures config.Some? && Stored() == s && token == old(token)
    {
      RestoreInstance(s);
      RestorePersistent(s);
    }

    method RestoreInstance(s: Store)
      modifies this`admin, this`config, this`state, this`approved, this`lockUntil, this`paused, this`penaltyBps,
               this`treasury, this`feeBps
      ensures admin == s.admin && config == Some(s.config) && state == s.state && approved == s.approved
      ensures lockUntil == s.lockUntil && paused == s.paused
      ensures penaltyBps == s.penaltyBps && treasury == s.treasury && feeBps == s.feeBps
    {
      admin, config, state, approved := s.admin, Some(s.config), s.state, s.approved;
      lockUntil, paused := s.lockUntil, s.paused;
      penaltyBps, treasury, feeBps := s.penaltyBps, s.treasury, s.feeBps;
    }

    method RestorePersistent(s: Store)
      modifies this`book, this`ids, this`milestones, this`proofs, this`dispute, this`amendment, this`evidence,
               this`arbitrators
      ensures book == s.book && ids == s.ids && milestones == s.milestones && proofs == s.proofs
      ensures dispute == s.dispute && amendment == s.amendment && evidence == s.evidence
      ensures arbitrators == s.arbitrators
    {
      book, ids, milestones, proofs := s.book, s.ids, s.milestones, s.proofs;
      dispute, amendment, evidence := s.dispute, s.amendment, s.evidence;
      arbitrators := s.arbitrators;
    }

    /** Runs the entrypoint a call names. */
    method Dispatch(env: Env, call: Call) returns (r: Result<()>)
      requires Blank() && Keyed()
      modifies this
      ensures Agrees(Exec(old(View()), env, call), r, View())
    {
      hide Stored, Lifecycle.Initialize, Lifecycle.SubmitMilestoneProof, Lifecycle.ApproveMilestone,
           Lifecycle.RaiseDispute, Lifecycle.ClaimTimeoutRefund, Lifecycle.EmergencyPause,
           Lifecycle.EmergencyUnpause, Payments.DepositFunds, Payments.ConfigureProtocolFee,
           Schedules.StreamMilestonePayout, Schedules.SetLatePenaltyBps, Schedules.ApplyLatePenalty,
           Schedules.RequestAmendment, Schedules.ApproveAmendment, Committee.ResolveDispute,
           Committee.ConfigureArbitrators, Committee.SettleWithQuorum, Committee.AppendEvidence;
      match call {
        case Init(funder, recipient, arbitrator, asset, decimals, schedule) =>
          r := Initialize(env, funder, recipient, arbitrator, asset, decimals, schedule);
        case Deposit => r := DepositFunds(env);
        case Proof(id, proof) => r := SubmitMilestoneProof(env, id, proof);
        case Approve(id) => r := ApproveMilestone(env, id);
        case Raise => r := RaiseDispute(env);
        case Resolve(funderBps, recipientBps) => r := ResolveDispute(env, funderBps, recipientBps);
        case TimeoutRefund => r := ClaimTimeoutRefund(env);
        case Pause => r := EmergencyPause(env);
        case Unpause => r := EmergencyUnpause(env);
        case ProposeAmendment(actor, id, payout, description, newPosition) =>
          r := RequestMilestoneAmendment(env, actor, id, payout, description, newPosition);
        case AcceptAmendment =>
          var a := ApproveAmendment(env);
          r := Unit(a);
        case AddEvidence(actor, contentHash) =>
          var n := AppendDisputeEvidence(env, actor, contentHash);
          r := Unit(n);
        case Stream(id) =>
          var paid := StreamMilestonePayout(env, id);
          r := Unit(paid);
        case SetCommittee(members, threshold) =>
          var set' := ConfigureArbitrators(env, members, threshold);
          r := Unit(set');
        case SettleQuorum(funderBps, recipientBps, signers) =>
          r := SettleWithQuorum(env, funderBps, recipientBps, signers);
        case SetPenalty(bps) =>
          var stored := SetLatePenaltyBps(env, bps);
          r := Unit(stored);
        case Slash(id) =>
          var slash := ApplyLatePenalty(env, id);
          r := Unit(slash);
        case SetFee(newTreasury, newFeeBps) => r := ConfigureProtocolFee(env, newTreasury, newFeeBps);
      }
    }

    /** One invocation as the host performs it: it takes the contract exactly where the state machine
        goes, leaves no trace of a failure, and keeps the invariant. */
    method Invoke(ghost now: U64, env: Env, call: Call) returns (r: Result<()>)
      requires Blank() && Inv(View(), now)
      requires now <= env.now && self !in env.auths
      modifies this
      ensures View() == Step(old(View()), Event.Invoke(env, call))
      ensures r.Ok? <==> Exec(old(View()), env, call).Ok?
      ensures r.Err? ==> r.error == Exec(old(View()), env, call).error && View() == old(View())
      ensures Blank() && Inv(View(), env.now)
    {
      hide Exec, Inv;
      var before := View();
      assert Keyed() by { KeyedRecords(before, now); }
      r := Dispatch(env, call);
      if r.Err? {
        Rollback(before);
      } else {
        ExecStores(before, env, call);
      }
      InvLater(before, now, env.now);
      Preservation.ExecKeeps(before, now, env, call);
    }
  }

  /** A failure on a prefix of the list is the failure of the whole sum. */
  lemma {:induction false} ObligationPrefix(ids: seq<U32>, k: nat, milestones: map<U32, Milestone>)
    requires k <= |ids|
    ensures var part := Schedules.UnstreamedObligation(ids[..k], milestones);
            part.Err? ==> Schedules.UnstreamedObligation(ids, milestones) == part
  {
    if k < |ids| {
      ObligationPrefix(ids[..|ids| - 1], k, milestones);
      assert ids[..|ids| - 1][..k] == ids[..k];
    } else {
      assert ids[..k] == ids;
    }
  }

  lemma LegsAddUp(s: Store, gross: I128)
    ensures var split := Payments.DisbursementSplit(s, gross);
            split.Ok? ==> && 0 <= split.value.0 && 0 <= split.value.1 && split.value.0 + split.value.1 == gross
                          && split.value.0 == Share(gross, s.feeBps)
  {
    if 0 < gross && s.feeBps <= BPS_SCALE {
      ApplyBpsExact(gross, s.feeBps);
    }
  }

  lemma PenaltyPositive(gross: I128, bps: U32)
    requires ApplyPenalty(gross, bps).Ok?
    ensures 0 <= ApplyPenalty(gross, bps).value.0
  {
    ApplyBpsExact(gross, bps);
  }

  lemma QuorumRefused(signers: seq<Address>, k: nat, threshold: U32, env: Env)
    requires threshold <= |signers| && k < |Committee.Distinct(signers)| && k < threshold
    requires Committee.Distinct(signers)[k] !in env.auths
    ensures Committee.RequireQuorum(signers, threshold, env) == Fail(HostTrap)
  {
  }

  lemma QuorumReached(signers: seq<Address>, threshold: U32, env: Env)
    requires 0 < threshold <= |signers| && threshold <= |Committee.Distinct(signers)|
    requires forall i :: 0 <= i < threshold ==> Committee.Distinct(signers)[i] in env.auths
    ensures Committee.RequireQuorum(signers, threshold, env) == Pass
  {
  }

  lemma QuorumShort(signers: seq<Address>, threshold: U32, env: Env)
    requires threshold == 0 || |signers| < threshold
             || (|Committee.Distinct(signers)| < threshold
                 && forall i :: 0 <= i < |Committee.Distinct(signers)| ==> Committee.Distinct(signers)[i] in env.auths)
    ensures Committee.RequireQuorum(signers, threshold, env) == Fail(QuorumNotMet)
  {
  }

  function Unit<T>(r: Result<T>): Result<()> {
    match r
    case Ok(_) => Ok(())
    case Err(e) => Err(e)
  }

  lemma ExecStores(w: World, env: Env, call: Call)
    ensures Exec(w, env, call).Ok? ==> Exec(w, env, call).value.store.Some?
  {
    hide PlanOf, Schedules.ReorderMilestone, Committee.RequireQuorum, Committee.ScreenSigners,
         Committee.ScreenMembers, Payments.PayWithFee, Payments.Refund, Payments.Release;
  }

  lemma KeyedRecords(w: World, now: U64)
    requires Inv(w, now)
    ensures w.store.Some? ==> forall id :: id in w.store.value.milestones ==> w.store.value.milestones[id].id == id
  {
  }
}
