/** When requests are granted: the exact conditions of proofs, disputes, evidence, proposals, their
    acceptance and the emergency switch in every reachable state. */
module Requests {
  import opened Numeric
  import opened Results
  import opened Storage
  import opened PaymentLaws
  import opened Tallies
  import opened Schedules
  import opened Reordering
  import opened Lifecycle
  import opened Invariants
  import opened Runs
  import opened Terms

  // ----- A stored proposal refers to something -----

  predicate Placed(s: Store) {
    s.amendment.Some? ==>
      s.amendment.value.milestoneId in s.milestones && s.amendment.value.newPosition < |s.ids|
  }

  lemma ProposalPlaced(w: World, env: Env, call: Call)
    requires w.store.Some? && Negotiates(call) && Exec(w, env, call).Ok?
    ensures Exec(w, env, call).value.store.Some? && Placed(Exec(w, env, call).value.store.value)
  {
    hide ReorderMilestone;
  }

  lemma InitPlaced(w: World, env: Env, call: Call)
    requires w.store.None? && Exec(w, env, call).Ok?
    ensures Exec(w, env, call).value.store.Some? && Placed(Exec(w, env, call).value.store.value)
  {
    hide PlanOf, ValidateRoles;
  }

  lemma {:induction false} RunPlaced(w: World, events: seq<Event>)
    requires w.store.None?
    ensures Run(w, events).store.Some? ==> Placed(Run(w, events).store.value)
  {
    hide Exec, Negotiates;
    if events != [] {
      var init, e := events[..|events| - 1], events[|events| - 1];
      var w1 := Run(w, init);
      RunPlaced(w, init);
      if e.Invoke? && Exec(w1, e.env, e.call).Ok? {
        if w1.store.None? {
          InitPlaced(w1, e.env, e.call);
        } else if Negotiates(e.call) {
          ProposalPlaced(w1, e.env, e.call);
        } else {
          AmendmentStays(w1, e.env, e.call);
        }
      }
    }
  }

  lemma ReachablePlaced(w: World, now: U64)
    requires Reachable(w, now) && w.store.Some?
    ensures Placed(w.store.value)
  {
    hide Run, ClockAfter, LegalRun, Placed;
    var w0: World, start: U64, events: seq<Event> :|
      w0.store.None? && LegalRun(w0, start, events) && w == Run(w0, events) && now == ClockAfter(start, events);
    RunPlaced(w0, events);
  }

  // ----- Amendments -----

  lemma PriceCovered(s: Store, now: U64, id: U32)
    requires StoreInv(s, now) && s.state.Pending? && id in s.milestones
    ensures 0 < s.milestones[id].payout <= s.config.totalAmount
  {
    hide TermsOk, RecordOk;
    SaneRecords(s, now);
    SumCovers(s.ids, s.milestones, id);
  }

  /** Acceptance succeeds exactly when unpaused, signed by both parties, with a proposal pending for a
      milestone not yet approved and, while unfunded, a new total within i128.  The checks on the
      position, on the listing and on the sign of the new total never fail. */
  lemma AcceptanceExact(w: World, now: U64, env: Env)
    requires Reachable(w, now) && w.store.Some?
    ensures var s := w.store.value; var r := Exec(w, env, AcceptAmendment);
            && (r.Ok? <==>
                  && !s.paused && s.config.funder in env.auths && s.config.recipient in env.auths
                  && s.amendment.Some?
                  && (var a := s.amendment.value;
                      && a.milestoneId in s.milestones && !s.milestones[a.milestoneId].isApproved
                      && (s.state.Pending? ==>
                            s.config.totalAmount - s.milestones[a.milestoneId].payout + a.payout <= I128_MAX)))
            && (r.Ok? ==>
                  var a := s.amendment.value;
                  && r.value.store.Some? && r.value == w.(store := r.value.store)
                  && TookEffect(s, r.value.store.value, a.milestoneId, a.payout, a.description, a.newPosition))
  {
    hide Reachable, Inv, Exec, TookEffect;
    ReachableInv(w, now);
    ReachablePlaced(w, now);
    if w.store.value.amendment.Some? {
      AcceptanceChecks(w, now, env);
      if Exec(w, env, AcceptAmendment).Ok? {
        AcceptedAsProposed(w, now, env);
      }
    } else {
      NothingToAccept(w, env);
    }
  }

  lemma NothingToAccept(w: World, env: Env)
    requires w.store.Some? && w.store.value.amendment.None?
    ensures Exec(w, env, AcceptAmendment).Err?
  {
  }

  lemma AcceptanceChecks(w: World, now: U64, env: Env)
    requires Inv(w, now) && w.store.Some? && w.store.value.amendment.Some? && Placed(w.store.value)
    ensures var s := w.store.value; var a := s.amendment.value; var m := s.milestones[a.milestoneId];
            Exec(w, env, AcceptAmendment).Ok? <==>
              && !s.paused && s.config.funder in env.auths && s.config.recipient in env.auths && !m.isApproved
              && (s.state.Pending? ==> s.config.totalAmount - m.payout + a.payout <= I128_MAX)
  {
    hide StoreInv, ReorderMilestone, Solvent, NoDuplicates;
    var s := w.store.value;
    var a := s.amendment.value;
    assert NoDuplicates(s.ids) && a.milestoneId in s.ids by { Listed(s, now, a.milestoneId); }
    ReorderExact(s.ids, a.milestoneId, a.newPosition);
    ProposalSound(s, now);
    if s.state.Pending? {
      PriceCovered(s, now, a.milestoneId);
    }
  }

  lemma Listed(s: Store, now: U64, id: U32)
    requires StoreInv(s, now) && id in s.milestones
    ensures NoDuplicates(s.ids) && id in s.ids
  {
    hide RecordsOk, BookOk, TermsOk;
  }

  lemma ProposalSound(s: Store, now: U64)
    requires StoreInv(s, now) && s.amendment.Some? && s.amendment.value.milestoneId in s.milestones
    ensures 0 < s.amendment.value.payout && s.config.funder != s.config.recipient
    ensures !(s.amendment.value.funderApproved && s.amendment.value.recipientApproved)
    ensures var m := s.milestones[s.amendment.value.milestoneId]; m.status.Released? ==> m.isApproved
  {
    hide ListOk, BookOk, CommitteeOk, DocketOk;
  }

  /** A proposal is taken exactly from a signed party, unpaused, before any dispute, for a milestone not
      yet approved, with a positive payout that stays frozen once funded, and a position in the list;
      an earlier proposal is simply replaced. */
  lemma ProposalExact(w: World, now: U64, env: Env, actor: Address, id: U32, payout: I128, description: Hash,
                      newPosition: U32)
    requires Reachable(w, now) && w.store.Some?
    ensures var s := w.store.value; var c := s.config;
            var r := Exec(w, env, ProposeAmendment(actor, id, payout, description, newPosition));
            && (r.Ok? <==>
                  && !s.paused && actor in env.auths && (actor == c.funder || actor == c.recipient)
                  && (s.state.Pending? || s.state.Active?) && id in s.milestones && !s.milestones[id].isApproved
                  && 0 < payout && newPosition < |s.ids|
                  && (s.state.Active? ==> payout == s.milestones[id].payout))
            && (r.Ok? ==> r.value == w.Put(s.(amendment := Some(
                  Amendment(id, payout, description, newPosition, actor, actor == c.funder, actor == c.recipient)))))
  {
    hide Reachable, StoreInv, Solvent;
    ReachableInv(w, now);
    var s := w.store.value;
    PartiesDiffer(s, now);
    if id in s.milestones {
      ReleasedIsApproved(s, now, id);
    }
  }

  lemma PartiesDiffer(s: Store, now: U64)
    requires StoreInv(s, now)
    ensures s.config.funder != s.config.recipient && s.admin == s.config.funder
    ensures s.amendment.Some? ==> !(s.amendment.value.funderApproved && s.amendment.value.recipientApproved)
  {
    hide ListOk, RecordsOk, BookOk, CommitteeOk, DocketOk;
  }

  lemma ReleasedIsApproved(s: Store, now: U64, id: U32)
    requires StoreInv(s, now) && id in s.milestones
    ensures var m := s.milestones[id]; m.id == id && (m.status.Released? ==> m.isApproved)
    ensures s.milestones[id].status.Pending? ==> !s.milestones[id].isApproved
  {
    hide ListOk, BookOk, TermsOk;
  }

  // ----- Proofs, disputes, evidence and the switch -----

  /** A proof is taken exactly from the recipient, unpaused, while Active, for a milestone that has not
      had one; it goes under review as of now. */
  lemma ProofExact(w: World, now: U64, env: Env, id: U32, hash: Hash)
    requires Reachable(w, now) && w.store.Some?
    ensures var s := w.store.value; var r := Exec(w, env, Proof(id, hash));
            && (r.Ok? <==>
                  && !s.paused && s.config.recipient in env.auths && s.state.Active?
                  && id in s.milestones && s.milestones[id].status.Pending?)
            && (r.Ok? ==> r.value == w.Put(s.(
                  milestones := s.milestones[id :=
                    s.milestones[id].(status := MilestoneStatus.UnderReview, submittedAt := env.now)],
                  proofs := s.proofs[id := hash])))
  {
    hide Reachable, StoreInv, Solvent;
    ReachableInv(w, now);
    if id in w.store.value.milestones {
      ReleasedIsApproved(w.store.value, now, id);
    }
  }

  /** A dispute is raised exactly by the funder, unpaused, while Active: marking the milestones, which
      touches all but the released ones, never fails. */
  lemma RaiseExact(w: World, now: U64, env: Env)
    requires Reachable(w, now) && w.store.Some?
    ensures var s := w.store.value; var r := Exec(w, env, Raise);
            && (r.Ok? <==> !s.paused && s.config.funder in env.auths && s.state.Active?)
            && (r.Ok? ==>
                  && r.value.store.Some? && r.value == w.(store := r.value.store)
                  && (var s' := r.value.store.value;
                      && s' == s.(state := EscrowState.Disputed, milestones := s'.milestones,
                                  dispute := Some(DisputeRecord(s.config.funder, env.now, 0, 0, false)))
                      && s'.milestones.Keys == s.milestones.Keys
                      && forall id :: id in s.milestones ==>
                           s'.milestones[id] == if s.milestones[id].status.Released? then s.milestones[id]
                                                else s.milestones[id].(status := MilestoneStatus.Disputed)))
  {
    hide Reachable, StoreInv, Solvent;
    ReachableInv(w, now);
    AllListed(w.store.value, now);
  }

  lemma AllListed(s: Store, now: U64)
    requires StoreInv(s, now)
    ensures forall id :: id in s.ids <==> id in s.milestones
  {
    hide RecordsOk, BookOk, TermsOk;
  }

  /** Evidence is taken exactly from a signed party, unpaused, in a dispute, with a non-zero hash not yet
      on the docket and room for it: in that state the dispute is always unresolved. */
  lemma EvidenceExact(w: World, now: U64, env: Env, actor: Address, hash: Hash)
    requires Reachable(w, now) && w.store.Some?
    ensures var s := w.store.value; var c := s.config; var r := Exec(w, env, AddEvidence(actor, hash));
            && (r.Ok? <==>
                  && !s.paused && actor in env.auths && (actor == c.funder || actor == c.recipient)
                  && s.state.Disputed? && hash != ZERO_HASH && |s.evidence| < 32
                  && forall e :: e in s.evidence ==> e.contentHash != hash)
            && (r.Ok? ==> r.value == w.Put(s.(evidence := s.evidence + [Evidence(actor, hash, env.now)])))
  {
    hide Reachable, StoreInv, Solvent;
    ReachableInv(w, now);
    OpenInDispute(w.store.value, now);
  }

  lemma OpenInDispute(s: Store, now: U64)
    requires StoreInv(s, now)
    ensures s.state.Disputed? ==> s.dispute.Some? && !s.dispute.value.resolved
  {
    hide ListOk, RecordsOk, TermsOk, Totals;
  }

  /** The switch is the funder's, in both directions, and always moves. */
  lemma SwitchExact(w: World, now: U64, env: Env)
    requires Reachable(w, now) && w.store.Some?
    ensures var s := w.store.value; var on, off := Exec(w, env, Pause), Exec(w, env, Unpause);
            && (on.Ok? <==> s.config.funder in env.auths && !s.paused)
            && (off.Ok? <==> s.config.funder in env.auths && s.paused)
            && (on.Ok? ==> on.value == w.Put(s.(paused := true)))
            && (off.Ok? ==> off.value == w.Put(s.(paused := false)))
  {
    hide Reachable, StoreInv, Solvent;
    ReachableInv(w, now);
    PartiesDiffer(w.store.value, now);
  }
}
