/** All sums over the milestone list, taken in one pass. */
module Tallies {
  import opened Numeric
  import opened Storage

  /** `owed` counts approved but unstreamed money, `open` the payouts not yet approved. */
  datatype Tally = Tally(
    payout: int, streamed: int, owed: int, open: int, approved: int, pending: int, unpenalised: int)
  {
    function Plus(t: Tally): Tally {
      Tally(payout + t.payout, streamed + t.streamed, owed + t.owed, open + t.open,
            approved + t.approved, pending + t.pending, unpenalised + t.unpenalised)
    }

    function Minus(t: Tally): Tally {
      Tally(payout - t.payout, streamed - t.streamed, owed - t.owed, open - t.open,
            approved - t.approved, pending - t.pending, unpenalised - t.unpenalised)
    }
  }

  const ZERO := Tally(0, 0, 0, 0, 0, 0, 0)

  function Weight(m: Milestone): Tally {
    Tally(m.payout, m.streamed,
          if m.isApproved then m.payout - m.streamed else 0,
          if m.isApproved then 0 else m.payout,
          if m.isApproved then 1 else 0,
          if m.status.Pending? then 1 else 0,
          if m.latePenaltyApplied then 0 else 1)
  }

  function Weights(milestones: map<U32, Milestone>): map<U32, Tally> {
    map id | id in milestones :: Weight(milestones[id])
  }

  function At(weights: map<U32, Tally>, id: U32): Tally {
    if id in weights then weights[id] else ZERO
  }

  function Total(ids: seq<U32>, weights: map<U32, Tally>): Tally {
    if ids == [] then ZERO
    else Total(ids[..|ids| - 1], weights).Plus(At(weights, ids[|ids| - 1]))
  }

  function Sum(ids: seq<U32>, milestones: map<U32, Milestone>): Tally {
    Total(ids, Weights(milestones))
  }

  // ----- Sums of arbitrary weights -----

  lemma {:induction false} TotalCongruent(ids: seq<U32>, before: map<U32, Tally>, after: map<U32, Tally>)
    requires forall k :: 0 <= k < |ids| ==> At(before, ids[k]) == At(after, ids[k])
    ensures Total(ids, before) == Total(ids, after)
  {
    if ids != [] {
      TotalCongruent(ids[..|ids| - 1], before, after);
    }
  }

  /** Taking one entry out of a list takes exactly its weight out of the sum. */
  lemma {:induction false} TotalRemove(ids: seq<U32>, i: nat, weights: map<U32, Tally>)
    requires i < |ids|
    ensures Total(ids, weights) == Total(ids[..i] + ids[i + 1..], weights).Plus(At(weights, ids[i]))
  {
    var rest := ids[..i] + ids[i + 1..];
    if i == |ids| - 1 {
      assert rest == ids[..i];
    } else {
      var init := ids[..|ids| - 1];
      TotalRemove(init, i, weights);
      assert rest[..|rest| - 1] == init[..i] + init[i + 1..];
    }
  }

  lemma TotalUpdate(ids: seq<U32>, i: nat, weights: map<U32, Tally>, weight: Tally)
    requires i < |ids|
    requires forall k :: 0 <= k < |ids| && k != i ==> ids[k] != ids[i]
    ensures Total(ids, weights[ids[i] := weight]) == Total(ids, weights).Minus(At(weights, ids[i])).Plus(weight)
  {
    var after := weights[ids[i] := weight];
    var rest := ids[..i] + ids[i + 1..];
    TotalRemove(ids, i, weights);
    TotalRemove(ids, i, after);
    forall k | 0 <= k < |rest| ensures At(weights, rest[k]) == At(after, rest[k]) {
      assert rest[k] == ids[if k < i then k else k + 1];
    }
    TotalCongruent(rest, weights, after);
  }

  // ----- Sums over milestones -----

  /** Rewriting one listed milestone changes the sum by the difference of its weights. */
  lemma SumUpdate(ids: seq<U32>, milestones: map<U32, Milestone>, id: U32, m: Milestone)
    requires NoDuplicates(ids) && id in ids && id in milestones
    ensures Sum(ids, milestones[id := m]) == Sum(ids, milestones).Minus(Weight(milestones[id])).Plus(Weight(m))
  {
    var i :| 0 <= i < |ids| && ids[i] == id;
    assert Weights(milestones[id := m]) == Weights(milestones)[id := Weight(m)];
    TotalUpdate(ids, i, Weights(milestones), Weight(m));
  }

  lemma NonEmptyHasMember(ids: seq<U32>)
    ensures ids == [] || exists id :: id in ids
  {
    if ids != [] {
      assert ids[0] in ids;
    }
  }

  lemma DropAt(ids: seq<U32>, i: nat)
    requires NoDuplicates(ids) && i < |ids|
    ensures var rest := ids[..i] + ids[i + 1..];
            && NoDuplicates(rest)
            && forall id :: id in rest <==> id in ids && id != ids[i]
  {
    var rest := ids[..i] + ids[i + 1..];
    forall id ensures id in rest <==> id in ids && id != ids[i] {
      assert ids == ids[..i] + [ids[i]] + ids[i + 1..];
      if id in rest {
        var j :| 0 <= j < |rest| && rest[j] == id;
        assert id == ids[if j < i then j else j + 1];
      }
    }
  }

  /** The sum over a duplicate-free listing depends only on which milestones are listed, so it is
      the sum over the milestone map whatever the display order. */
  lemma {:induction false} SumOrderIrrelevant(a: seq<U32>, b: seq<U32>, milestones: map<U32, Milestone>)
    requires NoDuplicates(a) && NoDuplicates(b)
    requires forall id :: id in a <==> id in b
    ensures |a| == |b|
    ensures Sum(a, milestones) == Sum(b, milestones)
    decreases |a|
  {
    if a == [] {
      NonEmptyHasMember(b);
    } else {
      var last := a[|a| - 1];
      var a' := a[..|a| - 1];
      assert last in b;
      var i :| 0 <= i < |b| && b[i] == last;
      var b' := b[..i] + b[i + 1..];
      DropAt(a, |a| - 1);
      DropAt(b, i);
      assert a' == a[..|a| - 1] + a[|a|..];
      SumOrderIrrelevant(a', b', milestones);
      TotalRemove(b, i, Weights(milestones));
    }
  }

  /** A record whose amounts make sense on their own. */
  predicate Sane(m: Milestone) {
    0 <= m.streamed <= m.payout && (!m.isApproved ==> m.streamed == 0)
  }

  predicate AllSane(ids: seq<U32>, milestones: map<U32, Milestone>) {
    forall id :: id in ids ==> id in milestones && Sane(milestones[id])
  }

  /** What is not yet streamed is owed or open; every component is a sum of non-negative terms. */
  lemma {:induction false} SumLaws(ids: seq<U32>, milestones: map<U32, Milestone>)
    requires AllSane(ids, milestones)
    ensures var t := Sum(ids, milestones);
            && t.payout - t.streamed == t.owed + t.open
            && 0 <= t.streamed <= t.payout && 0 <= t.owed && 0 <= t.open
            && 0 <= t.approved <= |ids| && 0 <= t.pending <= |ids| && 0 <= t.unpenalised <= |ids|
  {
    if ids != [] {
      assert ids[|ids| - 1] in ids;
      SumLaws(ids[..|ids| - 1], milestones);
    }
  }

  /** Each component of the sum is at least the share of any one listed milestone. */
  lemma SumCovers(ids: seq<U32>, milestones: map<U32, Milestone>, id: U32)
    requires AllSane(ids, milestones) && id in ids
    ensures var t := Sum(ids, milestones); var x := Weight(milestones[id]);
            && x.owed <= t.owed && x.open <= t.open && x.payout <= t.payout && x.streamed <= t.streamed
            && t.approved <= |ids| - 1 + x.approved && t.pending >= x.pending && t.unpenalised >= x.unpenalised
  {
    var i :| 0 <= i < |ids| && ids[i] == id;
    TotalRemove(ids, i, Weights(milestones));
    SumLaws(ids[..i] + ids[i + 1..], milestones);
  }

  /** Every milestone is approved exactly when the count says so. */
  lemma {:induction false} AllApproved(ids: seq<U32>, milestones: map<U32, Milestone>)
    requires AllSane(ids, milestones)
    ensures Sum(ids, milestones).approved == |ids| <==> forall id :: id in ids ==> milestones[id].isApproved
  {
    if ids != [] {
      var init := ids[..|ids| - 1];
      assert ids[|ids| - 1] in ids;
      assert ids == init + [ids[|ids| - 1]];
      AllApproved(init, milestones);
      SumLaws(init, milestones);
    }
  }
}
