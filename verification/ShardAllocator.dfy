/** The allocator on shard objects, whose ownership tags it sets and deletes in place. */
module ShardAllocator {
  import opened Wrappers
  import opened Sequences
  import opened ShardPools

  class Shard {
    const id: string
    var allocatedTo: Option<string>
    var allocatedAt: Option<string>
    var tokenId: Option<string>

    constructor (id: string)
      ensures Record() == ShardRecord(id, None, None, None)
    {
      this.id := id;
      allocatedTo, allocatedAt, tokenId := None, None, None;
    }

    function Record(): ShardRecord
      reads this
    {
      ShardRecord(id, allocatedTo, allocatedAt, tokenId)
    }

    method SetTags(nodeId: string, at: string, token: string)
      modifies this
      ensures Record() == Tag(old(Record()), nodeId, at, token)
    {
      allocatedTo, allocatedAt, tokenId := Some(nodeId), Some(at), Some(token);
    }

    method DeleteTags()
      modifies this
      ensures Record() == Untag(old(Record()))
    {
      allocatedTo, allocatedAt, tokenId := None, None, None;
    }
  }

  function Records(shards: seq<Shard>): (r: seq<ShardRecord>)
    reads shards
    ensures |r| == |shards|
  {
    seq(|shards|, i requires 0 <= i < |shards| reads shards => shards[i].Record())
  }

  class Allocator {
    var availableShards: seq<Shard>
    var allocatedShards: seq<Shard>

    constructor (availableShards: seq<Shard>)
      requires Distinct(availableShards)
      ensures Valid() && View() == Pools(Records(availableShards), [])
    {
      this.availableShards, allocatedShards := availableShards, [];
    }

    /** No shard object is listed twice. */
    ghost predicate Valid()
      reads this
    {
      Distinct(availableShards + allocatedShards)
    }

    function View(): Pools
      reads this, availableShards, allocatedShards
    {
      Pools(Records(availableShards), Records(allocatedShards))
    }

    /** `chosen` is what the predictor returns, as positions in the available pool. */
    method AllocateShards(nodeId: string, tokenId: string, tokenValid: bool, chosen: seq<nat>, at: nat -> string)
      returns (r: Result<seq<Shard>, string>)
      requires Valid() && Allowed(View(), AllocateTo(nodeId, tokenId, tokenValid, chosen, at))
      modifies this, availableShards
      ensures Valid()
      ensures View() == Step(old(View()), AllocateTo(nodeId, tokenId, tokenValid, chosen, at))
      ensures r.Failure? <==> Fails(old(View()), AllocateTo(nodeId, tokenId, tokenValid, chosen, at))
      ensures r.Success? ==>
                && r.value == Chosen(old(availableShards), chosen)
                && availableShards == Unchosen(old(availableShards), chosen)
                && allocatedShards == old(allocatedShards) + r.value
      ensures r.Failure? ==> availableShards == old(availableShards) && allocatedShards == old(allocatedShards)
      ensures r.Failure? <==> !tokenValid || old(availableShards) == []
      ensures r.Success? ==>
                exists kept | AreOthers(kept, chosen, |old(availableShards)|) ::
                  availableShards == Chosen(old(availableShards), kept)
      ensures r.Success? ==> forall k | 0 <= k < |r.value| ::
                && r.value[k].allocatedTo == Some(nodeId)
                && r.value[k].allocatedAt == Some(at(k))
                && r.value[k].tokenId == Some(tokenId)
      ensures forall s | s in old(availableShards + allocatedShards) && (r.Success? ==> s !in r.value) ::
                s.Record() == old(s.Record())
      ensures NoOthers(availableShards, allocatedShards, old(availableShards), old(allocatedShards))
    {
      if !tokenValid {
        return Failure("Token validation failed. Access denied.");
      }
      if |availableShards| == 0 {
        return Failure("No available shards for allocation.");
      }
      UnchosenWithin(availableShards, chosen);
      ghost var kept := UnchosenInOrder(availableShards, chosen);
      var optimal := MoveChosen(nodeId, tokenId, chosen, at);
      r := Success(optimal);
    }

    /** Tags the chosen shards and moves them to the end of the allocated pool. */
    method MoveChosen(nodeId: string, tokenId: string, chosen: seq<nat>, at: nat -> string)
      returns (optimal: seq<Shard>)
      requires Valid() && IsChoice(chosen, |availableShards|)
      modifies this, availableShards
      ensures Valid() && View() == Allocate(old(View()), nodeId, tokenId, chosen, at)
      ensures optimal == Chosen(old(availableShards), chosen)
      ensures forall k | 0 <= k < |optimal| ::
                optimal[k].Record() == Tag(old(View()).free[chosen[k]], nodeId, at(k), tokenId)
      ensures forall s | s in old(availableShards + allocatedShards) && s !in optimal :: s.Record() == old(s.Record())
      ensures availableShards == Unchosen(old(availableShards), chosen)
      ensures allocatedShards == old(allocatedShards) + optimal
    {
      ghost var before := View();
      optimal := Chosen(availableShards, chosen);
      DistinctParts(availableShards, allocatedShards);
      OptimalDistinct(availableShards, chosen);
      TagChosen(optimal, nodeId, at, tokenId, before, chosen);
      var left := NotIncluded(availableShards, optimal, chosen);
      MovedRecords(availableShards, allocatedShards, optimal, chosen, before, nodeId, at, tokenId);
      PoolsStayDistinct(availableShards, allocatedShards, chosen);
      SetPools(left, allocatedShards + optimal, Allocate(before, nodeId, tokenId, chosen, at));
    }

    method SetPools(available: seq<Shard>, taken: seq<Shard>, ghost after: Pools)
      requires Distinct(available + taken) && after == Pools(Records(available), Records(taken))
      modifies this
      ensures Valid() && View() == after && availableShards == available && allocatedShards == taken
    {
      availableShards, allocatedShards := available, taken;
    }

    /** The available shards that the chosen list does not include, in order. */
    method NotIncluded(shards: seq<Shard>, optimal: seq<Shard>, ghost chosen: seq<nat>) returns (left: seq<Shard>)
      requires Distinct(shards) && IsChoice(chosen, |shards|) && optimal == Chosen(shards, chosen)
      ensures left == Unchosen(shards, chosen)
    {
      left := [];
      for i := 0 to |shards|
        invariant left == Unchosen(shards[..i], chosen)
      {
        assert shards[..i + 1][..i] == shards[..i];
        IncludesIsChosen(shards, chosen, i);
        if shards[i] !in optimal {
          left := left + [shards[i]];
        }
      }
      assert shards[..|shards|] == shards;
    }

    /** Tags the chosen shards; nothing else changes. */
    method TagChosen(optimal: seq<Shard>, nodeId: string, at: nat -> string, tokenId: string, ghost before: Pools,
                     ghost chosen: seq<nat>)
      requires Valid() && before == View() && IsChoice(chosen, |availableShards|)
      requires optimal == Chosen(availableShards, chosen) && Distinct(optimal)
      modifies optimal
      ensures Records(optimal) == TagAll(Chosen(before.free, chosen), nodeId, at, tokenId)
      ensures Records(allocatedShards) == before.taken
      ensures forall i | 0 <= i < |availableShards| && i !in chosen :: availableShards[i].Record() == before.free[i]
    {
      DistinctParts(availableShards, allocatedShards);
      forall i | 0 <= i < |availableShards| && i !in chosen
        ensures availableShards[i] !in optimal
      {
        IncludesIsChosen(availableShards, chosen, i);
      }
      TagEach(optimal, nodeId, at, tokenId);
    }

    /** The loop over the chosen shards. */
    method TagEach(optimal: seq<Shard>, nodeId: string, at: nat -> string, tokenId: string)
      requires Distinct(optimal)
      modifies optimal
      ensures Records(optimal) == TagAll(old(Records(optimal)), nodeId, at, tokenId)
    {
      for k := 0 to |optimal|
        invariant forall m | 0 <= m < k :: optimal[m].Record() == Tag(old(optimal[m].Record()), nodeId, at(m), tokenId)
        invariant forall m | k <= m < |optimal| :: optimal[m].Record() == old(optimal[m].Record())
      {
        optimal[k].SetTags(nodeId, at(k), tokenId);
      }
    }

    method RevokeShardAllocation(nodeId: string) returns (r: Result<seq<Shard>, string>)
      requires Valid()
      modifies this, allocatedShards
      ensures Valid()
      ensures View() == Step(old(View()), RevokeFrom(nodeId))
      ensures r.Failure? <==> Fails(old(View()), RevokeFrom(nodeId))
      ensures r.Success? ==>
                && r.value == old(OwnedBy(allocatedShards, nodeId, true))
                && availableShards == old(availableShards) + r.value
                && allocatedShards == old(OwnedBy(allocatedShards, nodeId, false))
      ensures r.Failure? ==> availableShards == old(availableShards) && allocatedShards == old(allocatedShards)
      ensures r.Failure? <==> forall s | s in old(allocatedShards) :: old(s.allocatedTo) != Some(nodeId)
      ensures r.Success? ==>
                forall s | s in old(allocatedShards) :: s in r.value <==> old(s.allocatedTo) == Some(nodeId)
      ensures r.Success? ==> forall k | 0 <= k < |r.value| ::
                && r.value[k].allocatedTo == None
                && r.value[k].allocatedAt == None
                && r.value[k].tokenId == None
      ensures forall s | s in old(availableShards + allocatedShards) && (r.Success? ==> s !in r.value) ::
                s.Record() == old(s.Record())
      ensures NoOthers(availableShards, allocatedShards, old(availableShards), old(allocatedShards))
    {
      var kept, held := Sift(allocatedShards, nodeId);
      OwnedByRecords(allocatedShards, nodeId);
      OwnedByMembers(allocatedShards, nodeId, true);
      OwnedByMembers(allocatedShards, nodeId, false);
      if |held| == 0 {
        return Failure("No shards allocated to the node.");
      }
      assert held[0] in held;
      MoveHeld(nodeId, kept, held);
      r := Success(held);
    }

    /** Untags the held shards and moves them to the end of the available pool. */
    method MoveHeld(nodeId: string, kept: seq<Shard>, held: seq<Shard>)
      requires Valid()
      requires kept == OwnedBy(allocatedShards, nodeId, false) && held == OwnedBy(allocatedShards, nodeId, true)
      modifies this, allocatedShards
      ensures Valid() && View() == Revoke(old(View()), nodeId)
      ensures availableShards == old(availableShards) + held && allocatedShards == kept
      ensures forall k | 0 <= k < |held| :: held[k].Record() == Untag(old(held[k].Record()))
      ensures forall s | s in old(availableShards + allocatedShards) && s !in held :: s.Record() == old(s.Record())
    {
      ghost var before := View();
      OwnedByRecords(allocatedShards, nodeId);
      OwnedBySplits(allocatedShards, nodeId);
      OwnedByMembers(allocatedShards, nodeId, true);
      RegroupDistinct(availableShards, allocatedShards, kept, held);
      assert forall k | 0 <= k < |held| :: held[k] in allocatedShards;
      UntagEach(held, kept, before.free);
      ghost var after := Revoke(before, nodeId);
      assert after.free == Records(availableShards + held) && after.taken == Records(kept);
      SetPools(availableShards + held, kept, after);
    }

    /** The two filters over the allocated pool. */
    method Sift(shards: seq<Shard>, nodeId: string) returns (kept: seq<Shard>, held: seq<Shard>)
      ensures kept == OwnedBy(shards, nodeId, false) && held == OwnedBy(shards, nodeId, true)
    {
      kept, held := [], [];
      for i := 0 to |shards|
        invariant kept == OwnedBy(shards[..i], nodeId, false) && held == OwnedBy(shards[..i], nodeId, true)
      {
        assert shards[..i + 1][..i] == shards[..i];
        if shards[i].allocatedTo == Some(nodeId) {
          held := held + [shards[i]];
        } else {
          kept := kept + [shards[i]];
        }
      }
      assert shards[..|shards|] == shards;
    }

    /** Deletes the tags of the held shards one by one; nothing else changes. */
    method UntagEach(held: seq<Shard>, ghost kept: seq<Shard>, ghost free: seq<ShardRecord>)
      requires Distinct((availableShards + held) + kept) && free == Records(availableShards)
      modifies held
      ensures Records(availableShards + held) == free + Map(Untag, old(Records(held)))
      ensures Records(kept) == old(Records(kept))
      ensures forall k | 0 <= k < |held| :: held[k].Record() == Untag(old(held[k].Record()))
    {
      ghost var all := (availableShards + held) + kept;
      forall k | 0 <= k < |held|
        ensures held[k] !in availableShards && held[k] !in kept && held[k] !in held[..k]
      {
        assert all[|availableShards| + k] == held[k];
        assert forall i | 0 <= i < |availableShards| :: all[i] == availableShards[i];
        assert forall j | 0 <= j < k :: all[|availableShards| + j] == held[j];
        assert forall j | 0 <= j < |kept| :: all[|availableShards| + |held| + j] == kept[j];
      }
      for k := 0 to |held|
        invariant forall m | 0 <= m < k :: held[m].Record() == Untag(old(held[m].Record()))
        invariant forall m | k <= m < |held| :: held[m].Record() == old(held[m].Record())
        invariant forall i | 0 <= i < |availableShards| :: availableShards[i].Record() == free[i]
        invariant forall j | 0 <= j < |kept| :: kept[j].Record() == old(kept[j].Record())
      {
        held[k].DeleteTags();
      }
    }
  }

  // ----- reference lists -----

  lemma RecordsAppend(xs: seq<Shard>, ys: seq<Shard>)
    ensures Records(xs + ys) == Records(xs) + Records(ys)
  {
  }

  lemma OptimalDistinct(shards: seq<Shard>, chosen: seq<nat>)
    requires Distinct(shards) && IsChoice(chosen, |shards|)
    ensures Distinct(Chosen(shards, chosen))
  {
  }

  lemma IncludesIsChosen(shards: seq<Shard>, chosen: seq<nat>, i: nat)
    requires Distinct(shards) && IsChoice(chosen, |shards|) && i < |shards|
    ensures shards[i] in Chosen(shards, chosen) <==> i in chosen
  {
    if i in chosen {
      var k :| 0 <= k < |chosen| && chosen[k] == i;
      assert Chosen(shards, chosen)[k] == shards[i];
    }
  }

  lemma {:induction false} UnchosenRecords(shards: seq<Shard>, chosen: seq<nat>, before: seq<ShardRecord>)
    requires |shards| == |before|
    requires forall i | 0 <= i < |shards| && i !in chosen :: shards[i].Record() == before[i]
    ensures Records(Unchosen(shards, chosen)) == Unchosen(before, chosen)
  {
    if shards != [] {
      UnchosenRecords(shards[..|shards| - 1], chosen, before[..|shards| - 1]);
    }
  }

  /** The records of the pools once the chosen shards are tagged and moved. */
  lemma MovedRecords(available: seq<Shard>, taken: seq<Shard>, optimal: seq<Shard>, chosen: seq<nat>, before: Pools,
                     nodeId: string, at: nat -> string, tokenId: string)
    requires |available| == |before.free| && IsChoice(chosen, |available|) && Records(taken) == before.taken
    requires Records(optimal) == TagAll(Chosen(before.free, chosen), nodeId, at, tokenId)
    requires forall i | 0 <= i < |available| && i !in chosen :: available[i].Record() == before.free[i]
    ensures Pools(Records(Unchosen(available, chosen)), Records(taken + optimal))
         == Allocate(before, nodeId, tokenId, chosen, at)
  {
    UnchosenRecords(available, chosen, before.free);
    RecordsAppend(taken, optimal);
  }

  lemma PoolsStayDistinct(available: seq<Shard>, taken: seq<Shard>, chosen: seq<nat>)
    requires Distinct(available + taken) && IsChoice(chosen, |available|)
    ensures Distinct(Unchosen(available, chosen) + (taken + Chosen(available, chosen)))
  {
    ChoiceSplits(available, chosen);
    PermutationKeepsDistinct(available + taken, Unchosen(available, chosen) + (taken + Chosen(available, chosen)));
  }

  /** The shards that are the node's, or with `owned` false those that are not, in order. */
  function OwnedBy(shards: seq<Shard>, nodeId: string, owned: bool): (r: seq<Shard>)
    reads shards
  {
    if shards == [] then []
    else
      var n := |shards| - 1;
      OwnedBy(shards[..n], nodeId, owned) + if (shards[n].allocatedTo == Some(nodeId)) == owned then [shards[n]] else []
  }

  lemma {:induction false} OwnedByRecords(shards: seq<Shard>, nodeId: string)
    ensures Records(OwnedBy(shards, nodeId, true)) == Filter(Records(shards), HeldBy(nodeId))
    ensures Records(OwnedBy(shards, nodeId, false)) == Filter(Records(shards), Not(HeldBy(nodeId)))
  {
    if shards != [] {
      var n := |shards| - 1;
      OwnedByRecords(shards[..n], nodeId);
      FilterOneMore(shards, n, HeldBy(nodeId));
      FilterOneMore(shards, n, Not(HeldBy(nodeId)));
      var owned := shards[n].allocatedTo == Some(nodeId);
      RecordsAppend(OwnedBy(shards[..n], nodeId, owned), [shards[n]]);
    }
  }

  lemma FilterOneMore(shards: seq<Shard>, n: nat, p: ShardRecord -> bool)
    requires |shards| == n + 1
    ensures Filter(Records(shards), p)
         == Filter(Records(shards[..n]), p) + if p(shards[n].Record()) then [shards[n].Record()] else []
  {
    var r := shards[n].Record();
    assert Records(shards) == Records(shards[..n]) + [r];
    FilterAppend(Records(shards[..n]), [r], p);
    assert [r][1..] == [];
  }

  lemma {:induction false} OwnedBySplits(shards: seq<Shard>, nodeId: string)
    ensures multiset(OwnedBy(shards, nodeId, false)) + multiset(OwnedBy(shards, nodeId, true)) == multiset(shards)
  {
    if shards != [] {
      var n := |shards| - 1;
      OwnedBySplits(shards[..n], nodeId);
      OneMoreSplits(OwnedBy(shards[..n], nodeId, false), OwnedBy(shards[..n], nodeId, true), shards);
    }
  }

  /** The last entry of a list, put on either of the two parts of the rest. */
  lemma OneMoreSplits<T>(xs: seq<T>, ys: seq<T>, zs: seq<T>)
    requires zs != [] && multiset(xs) + multiset(ys) == multiset(zs[..|zs| - 1])
    ensures var z := zs[|zs| - 1];
            && multiset(xs) + multiset(ys + [z]) == multiset(zs) == multiset(xs + [z]) + multiset(ys)
            && multiset(xs + []) == multiset(xs) && multiset(ys + []) == multiset(ys)
  {
    assert zs == zs[..|zs| - 1] + [zs[|zs| - 1]] && xs + [] == xs && ys + [] == ys;
  }

  /** Two pools hold no shard object but those of two other pools. */
  ghost predicate NoOthers(xs: seq<Shard>, ys: seq<Shard>, us: seq<Shard>, vs: seq<Shard>) {
    && (forall k | 0 <= k < |xs| :: xs[k] in us || xs[k] in vs)
    && (forall k | 0 <= k < |ys| :: ys[k] in us || ys[k] in vs)
  }

  lemma {:induction false} OwnedByMembers(shards: seq<Shard>, nodeId: string, owned: bool)
    ensures forall s :: s in OwnedBy(shards, nodeId, owned) <==> s in shards && (s.allocatedTo == Some(nodeId)) == owned
  {
    if shards != [] {
      var n := |shards| - 1;
      OwnedByMembers(shards[..n], nodeId, owned);
      assert shards == shards[..n] + [shards[n]];
    }
  }

  lemma RegroupDistinct(available: seq<Shard>, taken: seq<Shard>, kept: seq<Shard>, held: seq<Shard>)
    requires Distinct(available + taken) && multiset(kept) + multiset(held) == multiset(taken)
    ensures Distinct((available + held) + kept)
  {
    PermutationKeepsDistinct(available + taken, (available + held) + kept);
  }
}
