/** Dispute settlement: who can bring it about, what it pays, and the evidence docket. */
module Disputes {
  import opened Numeric
  import opened EscrowMath
  import opened Storage
  import opened PaymentLaws
  import opened Committee
  import opened Lifecycle
  import opened Invariants
  import opened EntryLaws
  import opened Effects
  import opened Runs

  // ----- Quorum -----

  /** `Distinct` lists exactly the same addresses, each once. */
  lemma {:induction false} DistinctLaws(xs: seq<Address>)
    ensures NoDuplicates(Distinct(xs)) && |Distinct(xs)| <= |xs|
    ensures forall x :: x in Distinct(xs) <==> x in xs
    ensures NoDuplicates(xs) ==> Distinct(xs) == xs
  {
    if xs != [] {
      var init, last := xs[..|xs| - 1], xs[|xs| - 1];
      DistinctLaws(init);
      assert xs == init + [last];
      assert NoDuplicates(xs) ==> last !in init;
    }
  }

  /** It lists them in the order of their first appearance: a prefix of the input gives a prefix. */
  lemma {:induction false} DistinctInOrder(xs: seq<Address>, k: nat)
    requires k <= |xs|
    ensures Distinct(xs[..k]) <= Distinct(xs)
  {
    if k < |xs| {
      DistinctInOrder(xs[..|xs| - 1], k);
      assert xs[..|xs| - 1][..k] == xs[..k];
    } else {
      assert xs[..k] == xs;
    }
  }

  /** A quorum is accepted exactly when the threshold is positive, at least that many distinct
      signers are listed, and the first that many of them authorised. */
  lemma RequireQuorumExact(signers: seq<Address>, threshold: U32, env: Env)
    ensures RequireQuorum(signers, threshold, env).Pass? <==>
            && 1 <= threshold <= |Distinct(signers)|
            && forall i :: 0 <= i < threshold ==> Distinct(signers)[i] in env.auths
  {
    DistinctLaws(signers);
  }

  /** Signers pass the screen exactly when they are distinct members of the committee. */
  lemma {:induction false} ScreenedSigners(signers: seq<Address>, committee: ArbitratorSet)
    ensures ScreenSigners(signers, committee).Pass? <==>
            NoDuplicates(signers) && forall x :: x in signers ==> x in committee.members
  {
    if signers != [] {
      var init, last := signers[..|signers| - 1], signers[|signers| - 1];
      ScreenedSigners(init, committee);
      assert signers == init + [last];
    }
  }

  function Range(xs: seq<Address>): set<Address> {
    set x | x in xs
  }

  lemma {:induction false} RangeSize(xs: seq<Address>)
    requires NoDuplicates(xs)
    ensures |Range(xs)| == |xs|
  {
    if xs != [] {
      var init, last := xs[..|xs| - 1], xs[|xs| - 1];
      RangeSize(init);
      assert xs == init + [last];
      assert Range(xs) == Range(init) + {last};
    }
  }

  /** The signers of a settlement: distinct committee members, at least the threshold of them, the
      first of whom have authorised. */
  predicate Quorum(s: Store, env: Env, signers: seq<Address>) {
    && NoDuplicates(signers) && (forall x :: x in signers ==> x in s.arbitrators.members)
    && s.arbitrators.threshold <= |signers|
    && forall i :: 0 <= i < s.arbitrators.threshold ==> signers[i] in env.auths
  }

  /** The quorum route succeeds exactly on an open dispute with a quorum and a payable split. */
  lemma QuorumExact(w: World, now: U64, env: Env, funderBps: U32, recipientBps: U32, signers: Vec<Address>)
    requires Inv(w, now) && w.store.Some?
    ensures var s := w.store.value; var r := SettleWithQuorum(w, env, funderBps, recipientBps, signers);
            && (r.Ok? <==> !s.paused && s.state.Disputed? && Quorum(s, env, signers)
                           && Splittable(w, s, funderBps, recipientBps))
            && (r.Ok? ==> s.dispute.Some? && r == PaySplit(w, s, s.dispute.value, funderBps, recipientBps))
  {
    hide PaySplit, RequireQuorum, ScreenSigners, Distinct, Solvent, Room, Moved, Totals, Share;
    InvReady(w, now);
    ScreenedSigners(signers, w.store.value.arbitrators);
    DistinctLaws(signers);
    RequireQuorumExact(signers, w.store.value.arbitrators.threshold, env);
    if w.store.value.dispute.Some? {
      PaySplitExact(w, w.store.value.dispute.value, funderBps, recipientBps);
    }
  }

  /** The single-arbitrator route succeeds exactly on an open dispute, signed by the arbitrator, with
      a payable split. */
  lemma ResolveExact(w: World, now: U64, env: Env, funderBps: U32, recipientBps: U32)
    requires Inv(w, now) && w.store.Some?
    ensures var s := w.store.value; var r := ResolveDispute(w, env, funderBps, recipientBps);
            && (r.Ok? <==> !s.paused && s.state.Disputed? && s.config.arbitrator in env.auths
                           && Splittable(w, s, funderBps, recipientBps))
            && (r.Ok? ==> s.dispute.Some? && r == PaySplit(w, s, s.dispute.value, funderBps, recipientBps))
  {
    hide PaySplit, Solvent, Room, Moved, Totals, Share, CommitteeOk, DocketOk;
    InvReady(w, now);
    if w.store.value.dispute.Some? {
      PaySplitExact(w, w.store.value.dispute.value, funderBps, recipientBps);
    }
  }

  /** Both settlement routes lead from the same dispute with the same weights to the very same world,
      book, record and token ledger included; with each properly signed, one is open exactly when
      the other is. */
  lemma SettlementRoutesAgree(w: World, now: U64, one: Env, other: Env, funderBps: U32, recipientBps: U32,
                              signers: Vec<Address>)
    requires Inv(w, now) && w.store.Some?
    ensures var s := w.store.value;
            var single := ResolveDispute(w, one, funderBps, recipientBps);
            var quorum := SettleWithQuorum(w, other, funderBps, recipientBps, signers);
            && (single.Ok? && quorum.Ok? ==> single == quorum)
            && (s.config.arbitrator in one.auths && Quorum(s, other, signers) ==> (single.Ok? <==> quorum.Ok?))
  {
    hide Inv, ResolveDispute, SettleWithQuorum, Quorum, Splittable;
    ResolveExact(w, now, one, funderBps, recipientBps);
    QuorumExact(w, now, other, funderBps, recipientBps, signers);
  }

  /** What either route pays: two non-negative legs that exhaust the locked balance to the unit. */
  lemma SettlementPaysEverything(w: World, now: U64, env: Env, call: Call)
    requires Inv(w, now) && w.store.Some? && (call.Resolve? || call.SettleQuorum?) && Exec(w, env, call).Ok?
    ensures var s := w.store.value; var w' := Exec(w, env, call).value;
            var locked := s.book.Locked(); var back := Share(locked, call.funderBps);
            && w'.self == w.self && w'.store.Some? && w'.store.value.state.Completed? && Settled(w'.store.value)
            && 0 <= back <= locked
            && w'.store.value.book.deposited == s.book.deposited
            && w'.store.value.book.refunded == s.book.refunded + back
            && w'.store.value.book.released == s.book.released + (locked - back)
            && w'.store.value.book.Locked() == 0
            && Moved(w.token, w'.token, w.self, s.config.funder, back, s.config.recipient, locked - back)
  {
    hide Inv, PaySplit, Quorum, ResolveDispute, SettleWithQuorum, Share, Moved, Room;
    InvReady(w, now);
    SaturationHarmless(w.store.value.book);
    if call.Resolve? {
      ResolveExact(w, now, env, call.funderBps, call.recipientBps);
    } else {
      QuorumExact(w, now, env, call.funderBps, call.recipientBps, call.signers);
    }
    PaySplitExact(w, w.store.value.dispute.value, call.funderBps, call.recipientBps);
    SaturationHarmless(Exec(w, env, call).value.store.value.book);
  }

  lemma SplitBacked(s: Store, s': Store, funderBps: U32, recipientBps: U32)
    requires SettledChange(s, s', funderBps, recipientBps) && Backed(s)
    ensures Backed(s') <==> s.book.Balance() == 0
  {
    assert Totals(s') == Totals(s);
  }

  lemma OpenDispute(w: World, env: Env, call: Call)
    requires w.store.Some? && (call.Resolve? || call.SettleQuorum?) && Exec(w, env, call).Ok?
    ensures w.store.value.state.Disputed?
  {
    hide PaySplit, ScreenSigners, RequireQuorum;
  }

  /** A settlement leaves the book in agreement with the milestone records if and only if there was
      nothing left to split. */
  lemma SettlementBacked(w: World, now: U64, env: Env, call: Call)
    requires Reachable(w, now) && w.store.Some? && (call.Resolve? || call.SettleQuorum?) && Exec(w, env, call).Ok?
    ensures var s := w.store.value; var w' := Exec(w, env, call).value;
            w'.store.Some? && (Backed(w'.store.value) <==> s.book.Locked() == 0)
  {
    hide Reachable, Inv, Exec, Totals, SettledChange;
    ReachableInv(w, now);
    OpenDispute(w, env, call);
    EndingEffects(w, now, env, call);
    LiveBook(w, now);
    SplitBacked(w.store.value, Exec(w, env, call).value.store.value, call.funderBps, call.recipientBps);
    SaturationHarmless(w.store.value.book);
  }

  lemma LiveBook(w: World, now: U64)
    requires Inv(w, now) && w.store.Some? && Live(w.store.value)
    ensures Backed(w.store.value) && Consistent(w.store.value.book)
  {
    hide Solvent, ListOk, RecordsOk, TermsOk, Totals;
  }

  /** Every quorum settlement in every reachable state is backed by `threshold` distinct committee
      members who authorised it, none of them a party to the escrow. */
  lemma QuorumSoundness(w: World, now: U64, env: Env, call: Call)
    requires Reachable(w, now) && w.store.Some? && call.SettleQuorum? && Exec(w, env, call).Ok?
    ensures var s := w.store.value;
            && 1 <= s.arbitrators.threshold <= |s.arbitrators.members|
            && NoDuplicates(s.arbitrators.members)
            && exists backers: set<Address> ::
                 && |backers| == s.arbitrators.threshold
                 && backers <= env.auths && backers <= Range(s.arbitrators.members)
                 && s.config.funder !in backers && s.config.recipient !in backers
  {
    hide Reachable, SettleWithQuorum, Splittable, PaySplit, Solvent, Totals, DocketOk, RecordOk;
    ReachableInv(w, now);
    var s := w.store.value;
    QuorumExact(w, now, env, call.funderBps, call.recipientBps, call.signers);
    var first := call.signers[..s.arbitrators.threshold];
    RangeSize(first);
    assert Range(first) <= Range(s.arbitrators.members) by {
      assert forall x :: x in first ==> x in call.signers;
    }
  }

  // ----- Docket -----

  /** The docket changes only by one entry at a time, appended by an authorised party to an open,
      unresolved dispute. */
  lemma DocketStep(w: World, now: U64, e: Event)
    requires Inv(w, now) && Legal(w, now, e) && Funded(w)
    ensures Funded(Step(w, e))
    ensures var s, s' := w.store.value, Step(w, e).store.value;
            s'.evidence != s.evidence ==>
              && s.state.Disputed? && s.dispute.Some? && !s.dispute.value.resolved
              && e.Invoke? && e.call.AddEvidence? && e.call.actor in e.env.auths
              && s'.evidence == s.evidence + [Evidence(e.call.actor, e.call.contentHash, e.env.now)]
  {
    hide StoreInv, Claimable, ClaimedRecord, Share, Totals, Exec;
    FundedStep(w, now, e);
    if e.Invoke? && e.call.AddEvidence? && Exec(w, e.env, e.call).Ok? {
      EvidenceGuard(w, e.env, e.call);
    }
  }

  lemma EvidenceGuard(w: World, env: Env, call: Call)
    requires w.store.Some? && call.AddEvidence? && Exec(w, env, call).Ok?
    ensures var s := w.store.value;
            s.state.Disputed? && s.dispute.Some? && !s.dispute.value.resolved && call.actor in env.auths
  {
  }

  /** In every reachable state the docket holds at most 32 entries with pairwise distinct, non-zero
      hashes, all submitted by the funder or the recipient; and no later run removes or alters one,
      however many disputes follow. */
  lemma DocketOverRuns(w: World, now: U64, events: seq<Event>)
    requires Reachable(w, now) && Funded(w) && LegalRun(w, now, events)
    ensures Funded(Run(w, events))
    ensures var c := w.store.value.config; var docket := Run(w, events).store.value.evidence;
            && w.store.value.evidence <= docket
            && |docket| <= 32
            && (forall i, j :: 0 <= i < j < |docket| ==> docket[i].contentHash != docket[j].contentHash)
            && (forall i :: 0 <= i < |docket| ==>
                  docket[i].contentHash != ZERO_HASH
                  && (docket[i].submitter == c.funder || docket[i].submitter == c.recipient))
  {
    hide Reachable, LegalRun, Run, Solvent, BookOk, ListOk, RecordsOk, CommitteeOk, AmendmentOk, AllDevelop;
    ReachableInv(w, now);
    RunKeeps(w, now, events);
    FundedRun(w, now, events);
  }
}
