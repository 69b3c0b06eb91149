/** Reordering the id list is a stable move, and undoable. */
module Reordering {
  import opened Numeric
  import opened Results
  import opened Storage
  import opened Schedules
  import opened Tallies

  lemma {:induction false} WithoutAbsent(ids: seq<U32>, id: U32)
    requires forall k :: 0 <= k < |ids| ==> ids[k] != id
    ensures Without(ids, id) == ids
  {
    if ids != [] {
      WithoutAbsent(ids[..|ids| - 1], id);
    }
  }

  /** In a duplicate-free list, filtering an id out removes its one occurrence and nothing else. */
  lemma {:induction false} WithoutDrops(ids: seq<U32>, i: nat)
    requires NoDuplicates(ids) && i < |ids|
    ensures Without(ids, ids[i]) == ids[..i] + ids[i + 1..]
  {
    var init := ids[..|ids| - 1];
    if i == |ids| - 1 {
      WithoutAbsent(init, ids[i]);
    } else {
      WithoutDrops(init, i);
      assert ids[i + 1..] == init[i + 1..] + [ids[|ids| - 1]];
    }
  }

  function Inserted(rest: seq<U32>, id: U32, position: nat): seq<U32>
    requires position <= |rest|
  {
    rest[..position] + [id] + rest[position..]
  }

  lemma InsertedLaws(rest: seq<U32>, id: U32, position: nat)
    requires NoDuplicates(rest) && id !in rest && position <= |rest|
    ensures var r := Inserted(rest, id, position);
            && NoDuplicates(r) && r[position] == id && r[..position] + r[position + 1..] == rest
            && forall x :: x in r <==> x in rest || x == id
  {
    var r := Inserted(rest, id, position);
    forall i, j | 0 <= i < j < |r| ensures r[i] != r[j] {
      assert i < position ==> r[i] == rest[i];
      assert i > position ==> r[i] == rest[i - 1];
      assert j < position ==> r[j] == rest[j];
      assert j > position ==> r[j] == rest[j - 1];
    }
    assert rest == rest[..position] + rest[position..];
  }

  /** Reordering succeeds exactly for a listed id and a position within the list.  The result is a
      permutation of the list with the id at the new position and all others in unchanged order. */
  lemma ReorderExact(ids: Vec<U32>, id: U32, position: U32)
    requires NoDuplicates(ids)
    ensures var r := ReorderMilestone(ids, id, position);
            && (r.Ok? <==> id in ids && position < |ids|)
            && (r.Ok? ==>
                  && |r.value| == |ids| && r.value[position] == id
                  && Without(r.value, id) == Without(ids, id)
                  && NoDuplicates(r.value)
                  && (forall x :: x in r.value <==> x in ids))
  {
    if id in ids {
      var i :| 0 <= i < |ids| && ids[i] == id;
      WithoutDrops(ids, i);
      DropAt(ids, i);
      var rest := Without(ids, id);
      if position < |ids| {
        InsertedLaws(rest, id, position);
        WithoutDrops(Inserted(rest, id, position), position);
      }
    }
  }

  /** Moving the id back to where it was restores the list. */
  lemma ReorderBack(ids: Vec<U32>, i: U32, position: U32)
    requires NoDuplicates(ids) && i < |ids| && position < |ids|
    ensures var moved := ReorderMilestone(ids, ids[i], position);
            moved.Ok? && ReorderMilestone(moved.value, ids[i], i) == Ok(ids)
  {
    ReorderExact(ids, ids[i], position);
    WithoutDrops(ids, i);
    assert ids == ids[..i] + [ids[i]] + ids[i + 1..];
  }

  /** Every sum over the list is blind to the order. */
  lemma ReorderKeepsSums(ids: Vec<U32>, id: U32, position: U32, milestones: map<U32, Milestone>)
    requires NoDuplicates(ids) && ReorderMilestone(ids, id, position).Ok?
    ensures Sum(ReorderMilestone(ids, id, position).value, milestones) == Sum(ids, milestones)
  {
    ReorderExact(ids, id, position);
    SumOrderIrrelevant(ReorderMilestone(ids, id, position).value, ids, milestones);
  }
}
