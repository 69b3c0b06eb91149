/** What holds of the stored escrow in every reachable state. */
module Invariants {
  import opened Numeric
  import opened Results
  import opened EscrowMath
  import opened Storage
  import opened Tallies
  import opened PaymentLaws

  /** What has vested of an approved streaming milestone. */
  function VestedSoFar(m: Milestone, now: U64): int
    requires 0 < m.vestingSecs
  {
    Vested(m.payout, m.completedAt, m.completedAt + m.vestingSecs, now)
  }

  /** Record consistency: nothing is paid before approval, a lump sum is paid in full at approval,
      a stream never runs ahead of the clock, and `Released` means paid in full. */
  predicate RecordOk(m: Milestone, now: U64) {
    && Sane(m)
    && (m.status.Released? ==> m.isApproved && m.streamed == m.payout)
    && (m.isApproved ==>
          && m.completedAt <= now
          && !m.status.Pending?
          && (m.vestingSecs == 0 ==> m.status.Released?)
          && (m.vestingSecs > 0 ==> m.streamed <= VestedSoFar(m, now))
          && (m.streamed == m.payout && 0 < m.payout ==> m.status.Released?))
  }

  ghost predicate RecordsOk(s: Store, now: U64) {
    forall id :: id in s.milestones ==> s.milestones[id].id == id && RecordOk(s.milestones[id], now)
  }

  /** The id list is a duplicate-free listing of exactly the stored milestones. */
  ghost predicate ListOk(s: Store) {
    && NoDuplicates(s.ids)
    && s.ids != [] && |s.ids| == s.config.releaseThreshold
    && forall id :: id in s.ids <==> id in s.milestones
  }

  function Totals(s: Store): Tally {
    Sum(s.ids, s.milestones)
  }

  predicate Settled(s: Store) {
    s.dispute.Some? && s.dispute.value.resolved
  }

  /** The book agrees with the milestone records. */
  predicate Backed(s: Store) {
    && s.book.released == Totals(s).streamed
    && s.book.deposited - s.book.refunded == Totals(s).payout
  }

  ghost predicate BookOk(s: Store) {
    var t := Totals(s);
    && s.approved == t.approved
    && Consistent(s.book)
    && (Settled(s) ==> s.state.Completed?)
    && (if s.state.Pending? then s.book == EMPTY_BOOK else s.book.deposited == s.config.totalAmount)
    && match s.state
       case Pending =>
         && t.approved == 0
         && s.dispute.None?
         && s.config.totalAmount == t.payout
         && forall id :: id in s.milestones ==> 0 < s.milestones[id].payout
       case Active => Backed(s) && t.approved < |s.ids|
       case Disputed => Backed(s) && t.approved < |s.ids| && s.dispute.Some?
       case Completed => if Settled(s) then s.book.Balance() == 0 else Backed(s) && t.approved == |s.ids|
       case Cancelled => s.book.released == t.streamed && s.book.Balance() == t.owed
  }

  predicate CommitteeOk(c: Config, committee: ArbitratorSet) {
    && NoDuplicates(committee.members)
    && 1 <= committee.threshold <= |committee.members|
    && c.funder !in committee.members && c.recipient !in committee.members
  }

  predicate DocketOk(c: Config, docket: seq<Evidence>) {
    && |docket| <= MAX_EVIDENCE
    && (forall i, j :: 0 <= i < j < |docket| ==> docket[i].contentHash != docket[j].contentHash)
    && (forall e :: e in docket ==>
          e.contentHash != ZERO_HASH && (e.submitter == c.funder || e.submitter == c.recipient))
  }

  /** A pending proposal is signed by its proposer and by nobody else. */
  predicate AmendmentOk(c: Config, amendment: Option<Amendment>) {
    amendment.Some? ==>
      var a := amendment.value;
      && a.funderApproved == !a.recipientApproved
      && a.proposedBy == (if a.funderApproved then c.funder else c.recipient)
      && 0 < a.payout
  }

  predicate TermsOk(s: Store) {
    var c := s.config;
    && c.funder != c.recipient && c.funder != c.arbitrator && c.recipient != c.arbitrator
    && s.admin == c.funder
    && 0 < c.totalAmount
    && s.penaltyBps <= BPS_SCALE && s.feeBps <= BPS_SCALE
    && s.treasury != c.recipient
    && CommitteeOk(c, s.arbitrators)
    && DocketOk(c, s.evidence)
    && AmendmentOk(c, s.amendment)
  }

  ghost predicate StoreInv(s: Store, now: U64) {
    ListOk(s) && RecordsOk(s, now) && BookOk(s) && TermsOk(s)
  }

  /** The invariant of the world at ledger time `now`. */
  ghost predicate Inv(w: World, now: U64) {
    && Solvent(w)
    && (w.store.Some? ==> StoreInv(w.store.value, now) && w.store.value.config.funder != w.self)
  }

  lemma RecordOkLater(m: Milestone, now: U64, later: U64)
    requires RecordOk(m, now) && now <= later
    ensures RecordOk(m, later)
  {
    if m.isApproved && m.vestingSecs > 0 {
      VestedMonotone(m.payout, m.completedAt, m.completedAt + m.vestingSecs, now, later);
    }
  }

  /** The invariant survives the passing of time. */
  lemma InvLater(w: World, now: U64, later: U64)
    requires Inv(w, now) && now <= later
    ensures Inv(w, later)
  {
    if w.store.Some? {
      var s := w.store.value;
      forall id | id in s.milestones ensures s.milestones[id].id == id && RecordOk(s.milestones[id], later) {
        RecordOkLater(s.milestones[id], now, later);
      }
    }
  }

  lemma SaneRecords(s: Store, now: U64)
    requires ListOk(s) && RecordsOk(s, now)
    ensures AllSane(s.ids, s.milestones)
  {
  }

  /** While the book is backed, the balance is exactly what is owed plus what is still open, so it
      covers any single milestone. */
  lemma BackedBalance(s: Store, now: U64)
    requires ListOk(s) && RecordsOk(s, now) && Backed(s)
    ensures s.book.Balance() == Totals(s).owed + Totals(s).open
    ensures 0 <= Totals(s).owed && 0 <= Totals(s).open
    ensures forall id :: id in s.milestones ==>
              s.milestones[id].payout - s.milestones[id].streamed <= s.book.Balance()
  {
    SaneRecords(s, now);
    SumLaws(s.ids, s.milestones);
    forall id | id in s.milestones
      ensures s.milestones[id].payout - s.milestones[id].streamed <= s.book.Balance()
    {
      SumCovers(s.ids, s.milestones, id);
    }
  }
}
