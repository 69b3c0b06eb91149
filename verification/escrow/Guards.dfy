/** Who may change the escrow, and what the emergency switch stops. */
module Guards {
  import opened Numeric
  import opened EscrowMath
  import opened Storage
  import opened Payments
  import opened PaymentLaws
  import opened Schedules
  import opened Committee
  import opened Lifecycle
  import opened Invariants
  import opened EntryLaws
  import opened Preservation
  import opened Runs
  import opened Disputes

  // ----- The emergency switch -----

  /** While paused only the admin's unpausing succeeds, and it changes nothing but the switch. */
  lemma PausedFreezes(w: World, env: Env, call: Call)
    requires w.store.Some? && w.store.value.paused && Exec(w, env, call).Ok?
    ensures call.Unpause? && w.store.value.admin in env.auths
    ensures Exec(w, env, call).value == w.Put(w.store.value.(paused := false))
  {
    hide PlanOf, ReorderMilestone, MarkOpenMilestonesDisputed, UnstreamedObligation, PayWithFee, PaySplit, Refund,
         ScreenMembers, ScreenSigners, RequireQuorum, VestedAmount, ApplyPenalty, Token.TransferFrom;
  }

  /** Until the admin signs again, no run changes anything a paused escrow has stored. */
  lemma {:induction false} PausedOverRuns(w: World, events: seq<Event>)
    requires w.store.Some? && w.store.value.paused
    requires forall i :: 0 <= i < |events| && events[i].Invoke? ==> w.store.value.admin !in events[i].env.auths
    ensures Run(w, events).store == w.store
  {
    hide Exec;
    if events != [] {
      var init, e := events[..|events| - 1], events[|events| - 1];
      PausedOverRuns(w, init);
      var w1 := Run(w, init);
      assert e == events[|events| - 1];
      if e.Invoke? && Exec(w1, e.env, e.call).Ok? {
        PausedFreezes(w1, e.env, e.call);
      }
    }
  }

  // ----- Authority -----

  /** The signatures a successful call carries. */
  predicate Authorised(s: Store, env: Env, call: Call) {
    var funder, recipient := s.config.funder in env.auths, s.config.recipient in env.auths;
    match call
    case Init(_, _, _, _, _, _) => false
    case Deposit => funder
    case Proof(_, _) => recipient
    case Approve(_) => SignedOff(s, env)
    case Raise => funder
    case Resolve(_, _) => s.config.arbitrator in env.auths
    case TimeoutRefund => funder
    case Pause => funder
    case Unpause => funder
    case ProposeAmendment(actor, _, _, _, _) =>
      actor in env.auths && (actor == s.config.funder || actor == s.config.recipient)
    case AcceptAmendment => funder && recipient
    case AddEvidence(actor, _) =>
      actor in env.auths && (actor == s.config.funder || actor == s.config.recipient)
    case Stream(_) => recipient
    case SetCommittee(_, _) => funder && recipient
    case SettleQuorum(_, _, signers) => Quorum(s, env, signers)
    case SetPenalty(_) => funder
    case Slash(_) => funder
    case SetFee(_, _) => funder
  }

  lemma PlainAuthority(w: World, env: Env, call: Call)
    requires w.store.Some? && w.store.value.admin == w.store.value.config.funder && !call.SettleQuorum?
    requires Exec(w, env, call).Ok?
    ensures Authorised(w.store.value, env, call)
  {
    hide PlanOf, ReorderMilestone, MarkOpenMilestonesDisputed, UnstreamedObligation, PayWithFee, PaySplit, Refund,
         ScreenMembers, VestedAmount, ApplyPenalty, Token.TransferFrom;
  }

  /** Every successful call is signed by those whose business it is. */
  lemma NothingUnsigned(w: World, now: U64, env: Env, call: Call)
    requires Inv(w, now) && w.store.Some? && Exec(w, env, call).Ok?
    ensures Authorised(w.store.value, env, call)
  {
    hide StoreInv, Quorum, SettleWithQuorum, Splittable, PaySplit, Solvent;
    if call.SettleQuorum? {
      QuorumExact(w, now, env, call.funderBps, call.recipientBps, call.signers);
    } else {
      assert w.store.value.admin == w.store.value.config.funder by { TermsOfInv(w, now); }
      hide Exec;
      PlainAuthority(w, env, call);
    }
  }

  /** Everyone with a say in the escrow. */
  function Insiders(s: Store): set<Address> {
    {s.config.funder, s.config.recipient, s.config.arbitrator} + Range(s.arbitrators.members)
  }

  lemma AuthorityIsInside(s: Store, env: Env, call: Call)
    requires CommitteeOk(s.config, s.arbitrators) && Authorised(s, env, call)
    ensures exists who :: who in Insiders(s) && who in env.auths
  {
    var c := s.config;
    if call.SettleQuorum? {
      var first := call.signers[0];
      assert first in call.signers && first in Insiders(s) && first in env.auths;
    } else {
      assert c.funder in Insiders(s) && c.recipient in Insiders(s) && c.arbitrator in Insiders(s);
    }
  }

  /** Without the signature of an insider no run changes anything the escrow has stored, whatever is
      called, in whatever order, and whatever happens to the token meanwhile. */
  lemma {:induction false} OutsidersChangeNothing(w: World, now: U64, events: seq<Event>)
    requires Inv(w, now) && w.store.Some? && LegalRun(w, now, events)
    requires forall i :: 0 <= i < |events| && events[i].Invoke? ==> events[i].env.auths !! Insiders(w.store.value)
    ensures Run(w, events).store == w.store
  {
    hide Exec, Inv, Legal, Clock, Authorised, Insiders, CommitteeOk;
    if events != [] {
      var init, e := events[..|events| - 1], events[|events| - 1];
      OutsidersChangeNothing(w, now, init);
      RunKeeps(w, now, init);
      var w1, now1 := Run(w, init), ClockAfter(now, init);
      assert e == events[|events| - 1];
      if e.Invoke? && Exec(w1, e.env, e.call).Ok? {
        NothingUnsigned(w1, now1, e.env, e.call);
        assert CommitteeOk(w1.store.value.config, w1.store.value.arbitrators) by { CommitteeOfInv(w1, now1); }
        AuthorityIsInside(w1.store.value, e.env, e.call);
        assert false;
      }
    }
  }

  lemma CommitteeOfInv(w: World, now: U64)
    requires Inv(w, now) && w.store.Some?
    ensures CommitteeOk(w.store.value.config, w.store.value.arbitrators)
  {
    hide Solvent, ListOk, RecordsOk, BookOk, CommitteeOk;
  }
}
