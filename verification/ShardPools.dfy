/** The two shard pools of the allocator, on values, and runs of allocations and revocations. */
module ShardPools {
  import opened Wrappers
  import opened Sequences

  datatype ShardRecord = ShardRecord(id: string, allocatedTo: Option<string>, allocatedAt: Option<string>,
                                     tokenId: Option<string>)

  datatype Pools = Pools(free: seq<ShardRecord>, taken: seq<ShardRecord>)

  // ----- one shard -----

  function Tag(s: ShardRecord, nodeId: string, at: string, tokenId: string): ShardRecord {
    s.(allocatedTo := Some(nodeId), allocatedAt := Some(at), tokenId := Some(tokenId))
  }

  function Untag(s: ShardRecord): ShardRecord {
    s.(allocatedTo := None, allocatedAt := None, tokenId := None)
  }

  predicate IsTagged(s: ShardRecord) {
    s.allocatedTo.Some? && s.allocatedAt.Some? && s.tokenId.Some?
  }

  predicate IsUntagged(s: ShardRecord) {
    s == Untag(s)
  }

  function HeldBy(nodeId: string): ShardRecord -> bool {
    (s: ShardRecord) => s.allocatedTo == Some(nodeId)
  }

  // ----- choosing from the available pool -----

  /** What the predictor may return: available shards, each at most once, by position. */
  ghost predicate IsChoice(chosen: seq<nat>, n: nat) {
    Distinct(chosen) && forall k | 0 <= k < |chosen| :: chosen[k] < n
  }

  /** The entries at positions that were not chosen, in order. */
  function Unchosen<T>(xs: seq<T>, chosen: seq<nat>): seq<T> {
    if xs == [] then []
    else
      var n := |xs| - 1;
      Unchosen(xs[..n], chosen) + if n in chosen then [] else [xs[n]]
  }

  /** The positions below `n` that were not chosen, in order. */
  ghost predicate AreOthers(kept: seq<nat>, chosen: seq<nat>, n: nat) {
    Ascending(kept) && Below(kept, n) && forall i: nat :: i in kept <==> i < n && i !in chosen
  }

  function OtherPositions(chosen: seq<nat>, n: nat): (kept: seq<nat>)
    ensures Below(kept, n)
  {
    if n == 0 then [] else OtherPositions(chosen, n - 1) + if n - 1 in chosen then [] else [n - 1]
  }

  lemma {:induction false} OtherPositionsAreOthers(chosen: seq<nat>, n: nat)
    ensures AreOthers(OtherPositions(chosen, n), chosen, n)
  {
    if n > 0 {
      OtherPositionsAreOthers(chosen, n - 1);
    }
  }

  lemma ChosenOfPrefix<T>(xs: seq<T>, n: nat, kept: seq<nat>)
    requires n < |xs| && Below(kept, n)
    ensures Chosen(xs[..n], kept) == Chosen(xs, kept)
    ensures Below(kept + [n], |xs|) && Chosen(xs, kept + [n]) == Chosen(xs, kept) + [xs[n]]
  {
  }

  lemma {:induction false} UnchosenAreOthers<T>(xs: seq<T>, chosen: seq<nat>)
    ensures Unchosen(xs, chosen) == Chosen(xs, OtherPositions(chosen, |xs|))
  {
    if xs != [] {
      UnchosenAreOthers(xs[..|xs| - 1], chosen);
      ChosenOfPrefix(xs, |xs| - 1, OtherPositions(chosen, |xs| - 1));
    }
  }

  /** What is not chosen keeps its order. */
  lemma UnchosenInOrder<T>(xs: seq<T>, chosen: seq<nat>) returns (kept: seq<nat>)
    ensures AreOthers(kept, chosen, |xs|) && Unchosen(xs, chosen) == Chosen(xs, kept)
  {
    kept := OtherPositions(chosen, |xs|);
    OtherPositionsAreOthers(chosen, |xs|);
    UnchosenAreOthers(xs, chosen);
  }

  lemma {:induction false} NothingChosen<T>(xs: seq<T>)
    ensures Unchosen(xs, []) == xs
  {
    if xs != [] {
      NothingChosen(xs[..|xs| - 1]);
      assert xs == xs[..|xs| - 1] + [xs[|xs| - 1]];
    }
  }

  /** Choosing one more position takes exactly that entry out. */
  lemma {:induction false} ChooseOneMore<T>(xs: seq<T>, chosen: seq<nat>, c: nat)
    requires c !in chosen
    ensures multiset(Unchosen(xs, chosen))
         == multiset(Unchosen(xs, chosen + [c])) + if c < |xs| then multiset{xs[c]} else multiset{}
  {
    if xs != [] {
      var n := |xs| - 1;
      var more, fewer := Unchosen(xs[..n], chosen), Unchosen(xs[..n], chosen + [c]);
      ChooseOneMore(xs[..n], chosen, c);
      ChosenOneMore(chosen, c, n);
      if n == c {
        assert Unchosen(xs, chosen) == more + [xs[n]] && Unchosen(xs, chosen + [c]) == fewer;
      } else if n in chosen {
        assert Unchosen(xs, chosen) == more && Unchosen(xs, chosen + [c]) == fewer;
      } else {
        assert Unchosen(xs, chosen) == more + [xs[n]] && Unchosen(xs, chosen + [c]) == fewer + [xs[n]];
      }
    }
  }

  lemma ChosenOneMore(chosen: seq<nat>, c: nat, n: nat)
    ensures n in chosen + [c] <==> n in chosen || n == c
  {
  }

  lemma {:induction false} ChoiceSplits<T>(xs: seq<T>, chosen: seq<nat>)
    requires IsChoice(chosen, |xs|)
    ensures multiset(Unchosen(xs, chosen)) + multiset(Chosen(xs, chosen)) == multiset(xs)
  {
    if chosen == [] {
      NothingChosen(xs);
    } else {
      var n := |chosen| - 1;
      var front, c := chosen[..n], chosen[n];
      assert chosen == front + [c];
      ChoiceSplits(xs, front);
      ChooseOneMore(xs, front, c);
      assert Chosen(xs, chosen) == Chosen(xs, front) + [xs[c]];
    }
  }

  lemma {:induction false} UnchosenWithin<T>(xs: seq<T>, chosen: seq<nat>)
    ensures forall x | x in Unchosen(xs, chosen) :: x in xs
  {
    if xs != [] {
      UnchosenWithin(xs[..|xs| - 1], chosen);
    }
  }

  // ----- the two operations -----

  function TagAll(shards: seq<ShardRecord>, nodeId: string, at: nat -> string, tokenId: string): (r: seq<ShardRecord>)
    ensures |r| == |shards| && forall k | 0 <= k < |r| :: r[k] == Tag(shards[k], nodeId, at(k), tokenId)
  {
    seq(|shards|, k requires 0 <= k < |shards| => Tag(shards[k], nodeId, at(k), tokenId))
  }

  /** `at(k)` is the time stamp given to the k-th chosen shard. */
  function Allocate(p: Pools, nodeId: string, tokenId: string, chosen: seq<nat>, at: nat -> string): Pools
    requires forall k | 0 <= k < |chosen| :: chosen[k] < |p.free|
  {
    Pools(Unchosen(p.free, chosen), p.taken + TagAll(Chosen(p.free, chosen), nodeId, at, tokenId))
  }

  function Revoke(p: Pools, nodeId: string): Pools {
    var held := Filter(p.taken, HeldBy(nodeId));
    Pools(p.free + Map(Untag, held), Filter(p.taken, Not(HeldBy(nodeId))))
  }

  datatype Operation =
    | AllocateTo(nodeId: string, tokenId: string, tokenValid: bool, chosen: seq<nat>, at: nat -> string)
    | RevokeFrom(nodeId: string)

  /** The operation throws: invalid token, nothing available, or nothing to revoke. */
  predicate Fails(p: Pools, op: Operation) {
    match op
    case AllocateTo(_, _, valid, _, _) => !valid || p.free == []
    case RevokeFrom(nodeId) => Filter(p.taken, HeldBy(nodeId)) == []
  }

  /** The predictor keeps its contract in this state. */
  ghost predicate Allowed(p: Pools, op: Operation) {
    op.AllocateTo? ==> IsChoice(op.chosen, |p.free|)
  }

  ghost function Step(p: Pools, op: Operation): Pools
    requires Allowed(p, op)
  {
    if Fails(p, op) then p
    else match op
      case AllocateTo(nodeId, tokenId, _, chosen, at) => Allocate(p, nodeId, tokenId, chosen, at)
      case RevokeFrom(nodeId) => Revoke(p, nodeId)
  }

  // ----- what every operation keeps -----

  function Ids(shards: seq<ShardRecord>): (ids: seq<string>)
    ensures |ids| == |shards| && forall i | 0 <= i < |ids| :: ids[i] == shards[i].id
  {
    seq(|shards|, i requires 0 <= i < |shards| => shards[i].id)
  }

  /** Each shard is in exactly one pool, and ownership tags are on exactly the allocated ones. */
  ghost predicate Sound(p: Pools) {
    && Distinct(Ids(p.free) + Ids(p.taken))
    && (forall i | 0 <= i < |p.free| :: IsUntagged(p.free[i]))
    && (forall i | 0 <= i < |p.taken| :: IsTagged(p.taken[i]))
  }

  ghost predicate SameShards(p: Pools, q: Pools) {
    multiset(Ids(p.free) + Ids(p.taken)) == multiset(Ids(q.free) + Ids(q.taken))
  }

  lemma {:induction false} IdsOfUnchosen(xs: seq<ShardRecord>, chosen: seq<nat>)
    ensures Ids(Unchosen(xs, chosen)) == Unchosen(Ids(xs), chosen)
  {
    if xs != [] {
      var n := |xs| - 1;
      IdsOfUnchosen(xs[..n], chosen);
      assert Ids(xs)[..n] == Ids(xs[..n]);
    }
  }

  lemma AllocateKeepsShards(p: Pools, nodeId: string, tokenId: string, chosen: seq<nat>, at: nat -> string)
    requires IsChoice(chosen, |p.free|)
    ensures SameShards(p, Allocate(p, nodeId, tokenId, chosen, at))
  {
    var q := Allocate(p, nodeId, tokenId, chosen, at);
    IdsOfUnchosen(p.free, chosen);
    ChoiceSplits(Ids(p.free), chosen);
    assert Ids(q.taken) == Ids(p.taken) + Chosen(Ids(p.free), chosen);
  }

  lemma {:induction false} IdsOfFilter(xs: seq<ShardRecord>, f: ShardRecord -> bool)
    ensures multiset(Ids(Filter(xs, f))) + multiset(Ids(Filter(xs, Not(f)))) == multiset(Ids(xs))
  {
    if xs != [] {
      IdsOfFilter(xs[1..], f);
      IdsCons(xs[0], xs[1..]);
      IdsCons(xs[0], Filter(xs[1..], f));
      IdsCons(xs[0], Filter(xs[1..], Not(f)));
      assert xs == [xs[0]] + xs[1..];
    }
  }

  lemma IdsCons(s: ShardRecord, xs: seq<ShardRecord>)
    ensures Ids([s] + xs) == [s.id] + Ids(xs)
    ensures multiset(Ids([s] + xs)) == multiset{s.id} + multiset(Ids(xs))
  {
    assert Ids([s] + xs) == [s.id] + Ids(xs);
  }

  lemma RevokeKeepsShards(p: Pools, nodeId: string)
    ensures SameShards(p, Revoke(p, nodeId))
  {
    var held, kept := Filter(p.taken, HeldBy(nodeId)), Filter(p.taken, Not(HeldBy(nodeId)));
    IdsOfFilter(p.taken, HeldBy(nodeId));
    assert Ids(Revoke(p, nodeId).free) == Ids(p.free) + Ids(held);
    MovedOver(Ids(p.free), Ids(held), Ids(kept), Ids(p.taken));
  }

  lemma MovedOver(free: seq<string>, held: seq<string>, kept: seq<string>, taken: seq<string>)
    requires multiset(held) + multiset(kept) == multiset(taken)
    ensures multiset(free + taken) == multiset((free + held) + kept)
  {
  }

  lemma TagsFollowPools(p: Pools, op: Operation)
    requires Sound(p) && Allowed(p, op)
    ensures var q := Step(p, op);
            && (forall i | 0 <= i < |q.free| :: IsUntagged(q.free[i]))
            && (forall i | 0 <= i < |q.taken| :: IsTagged(q.taken[i]))
  {
    var q := Step(p, op);
    match op
    case AllocateTo(_, _, _, chosen, _) =>
      UnchosenWithin(p.free, chosen);
      assert forall i | 0 <= i < |q.free| :: q.free[i] in q.free;
    case RevokeFrom(nodeId) =>
      FilterSelects(p.taken, Not(HeldBy(nodeId)));
      assert forall i | 0 <= i < |q.taken| :: q.taken[i] in q.taken;
  }

  lemma StepKeepsSound(p: Pools, op: Operation)
    requires Sound(p) && Allowed(p, op)
    ensures Sound(Step(p, op)) && SameShards(p, Step(p, op))
  {
    var q := Step(p, op);
    TagsFollowPools(p, op);
    match op {
      case AllocateTo(nodeId, tokenId, _, chosen, at) => AllocateKeepsShards(p, nodeId, tokenId, chosen, at);
      case RevokeFrom(nodeId) => RevokeKeepsShards(p, nodeId);
    }
    PermutationKeepsDistinct(Ids(p.free) + Ids(p.taken), Ids(q.free) + Ids(q.taken));
  }

  /** `trace` is a run of `ops` from `p`: the states before, between and after them. */
  ghost predicate IsRun(trace: seq<Pools>, ops: seq<Operation>) {
    |trace| == |ops| + 1
    && forall i | 0 <= i < |ops| :: Allowed(trace[i], ops[i]) && trace[i + 1] == Step(trace[i], ops[i])
  }

  /** Over every run each shard stays in exactly one pool, none appears or disappears, and tags follow the pools. */
  lemma {:induction false} RunKeepsSound(trace: seq<Pools>, ops: seq<Operation>, i: nat)
    requires IsRun(trace, ops) && Sound(trace[0]) && i < |trace|
    ensures Sound(trace[i]) && SameShards(trace[0], trace[i])
  {
    if i > 0 {
      RunKeepsSound(trace, ops, i - 1);
      assert Allowed(trace[i - 1], ops[i - 1]);
      StepKeepsSound(trace[i - 1], ops[i - 1]);
    }
  }

  // ----- revoking undoes allocating -----

  lemma AllHeld(shards: seq<ShardRecord>, nodeId: string)
    requires forall k | 0 <= k < |shards| :: shards[k].allocatedTo == Some(nodeId)
    ensures Filter(shards, HeldBy(nodeId)) == shards && Filter(shards, Not(HeldBy(nodeId))) == []
  {
    FilterAll(shards, HeldBy(nodeId));
    FilterNone(shards, Not(HeldBy(nodeId)));
  }

  /**
   * Allocating to a node that held nothing and then revoking gives back the allocated list exactly, and
   * the available pool with the chosen shards moved to its end in the order of choice.
   */
  lemma RevokeUndoesAllocate(p: Pools, nodeId: string, tokenId: string, chosen: seq<nat>, at: nat -> string)
    requires Sound(p) && IsChoice(chosen, |p.free|)
    requires Filter(p.taken, HeldBy(nodeId)) == []
    ensures var q := Revoke(Allocate(p, nodeId, tokenId, chosen, at), nodeId);
            && q.taken == p.taken
            && q.free == Unchosen(p.free, chosen) + Chosen(p.free, chosen)
            && multiset(q.free) == multiset(p.free)
  {
    var picked := Chosen(p.free, chosen);
    var tagged := TagAll(picked, nodeId, at, tokenId);
    FilterAppend(p.taken, tagged, HeldBy(nodeId));
    FilterAppend(p.taken, tagged, Not(HeldBy(nodeId)));
    AllHeld(tagged, nodeId);
    FilterRest(p.taken, HeldBy(nodeId));
    forall k | 0 <= k < |picked|
      ensures Untag(tagged[k]) == picked[k]
    {
      assert IsUntagged(p.free[chosen[k]]);
    }
    assert Map(Untag, tagged) == picked;
    ChoiceSplits(p.free, chosen);
  }

  /**
   * Allocating adds to the node's list the chosen shards, tagged and in the order of choice, takes them
   * out of the available pool, and leaves the lists of all other nodes as they were.
   */
  lemma AllocateIsExact(p: Pools, nodeId: string, tokenId: string, chosen: seq<nat>, at: nat -> string, other: string)
    requires IsChoice(chosen, |p.free|) && other != nodeId
    ensures var q := Allocate(p, nodeId, tokenId, chosen, at);
            && Filter(q.taken, HeldBy(nodeId))
               == Filter(p.taken, HeldBy(nodeId)) + TagAll(Chosen(p.free, chosen), nodeId, at, tokenId)
            && Filter(q.taken, HeldBy(other)) == Filter(p.taken, HeldBy(other))
            && multiset(q.free) + multiset(Chosen(p.free, chosen)) == multiset(p.free)
  {
    var tagged := TagAll(Chosen(p.free, chosen), nodeId, at, tokenId);
    FilterAppend(p.taken, tagged, HeldBy(nodeId));
    FilterAppend(p.taken, tagged, HeldBy(other));
    FilterAll(tagged, HeldBy(nodeId));
    FilterNone(tagged, HeldBy(other));
    ChoiceSplits(p.free, chosen);
  }

  /** Revoking takes away every shard of the node and leaves those of all other nodes as they were, in order. */
  lemma RevokeIsExact(p: Pools, nodeId: string, other: string)
    requires other != nodeId
    ensures Filter(Revoke(p, nodeId).taken, HeldBy(nodeId)) == []
    ensures Filter(Revoke(p, nodeId).taken, HeldBy(other)) == Filter(p.taken, HeldBy(other))
  {
    FilterTwice(p.taken, Not(HeldBy(nodeId)), HeldBy(nodeId));
    FilterNone(p.taken, Both(Not(HeldBy(nodeId)), HeldBy(nodeId)));
    FilterTwice(p.taken, Not(HeldBy(nodeId)), HeldBy(other));
    FilterAgrees(p.taken, Both(Not(HeldBy(nodeId)), HeldBy(other)), HeldBy(other));
  }
}
