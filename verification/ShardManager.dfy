/** Shard placement and rebalancing on the node and shard objects that the functions update in place. */
module ShardManager {
  import opened Wrappers
  import opened Sequences
  import opened StableSort
  import opened FirstFit
  import opened Nodes
  import Rebalancing

  class Shard {
    const id: string
    const size: int
    var nodeId: string

    constructor (id: string, size: int, nodeId: string)
      ensures this.id == id && this.size == size && this.nodeId == nodeId
    {
      this.id, this.size, this.nodeId := id, size, nodeId;
    }
  }

  // ----- views -----

  function ShardIds(shards: seq<Shard>): seq<string> {
    seq(|shards|, i requires 0 <= i < |shards| => shards[i].id)
  }

  function Sizes(shards: seq<Shard>): seq<int> {
    seq(|shards|, i requires 0 <= i < |shards| => shards[i].size)
  }

  function Homes(shards: seq<Shard>): seq<string>
    reads shards
  {
    seq(|shards|, i requires 0 <= i < |shards| reads shards => shards[i].nodeId)
  }

  // ----- sorting by capacity -----

  datatype Ranked = Ranked(key: int, position: nat)

  function ByKey(a: Ranked, b: Ranked): bool {
    a.key <= b.key
  }

  function Rank(keys: seq<int>): (r: seq<Ranked>)
    ensures |r| == |keys| && forall i | 0 <= i < |keys| :: r[i] == Ranked(keys[i], i)
  {
    seq(|keys|, i requires 0 <= i < |keys| => Ranked(keys[i], i))
  }

  /** Positions in the order in which `_.sortBy` lists them: a stable sort by key. */
  function SortedOrder(keys: seq<int>): (order: seq<nat>) {
    Map((e: Ranked) => e.position, Sort(Rank(keys), ByKey))
  }

  ghost predicate Before(a: Ranked, b: Ranked) {
    a.key < b.key || (a.key == b.key && a.position < b.position)
  }

  lemma {:induction false} RankSorts(keys: seq<int>, n: nat)
    requires n <= |keys|
    ensures var s := Sort(Rank(keys)[..n], ByKey);
            && |s| == n
            && (forall a, b | 0 <= a < b < n :: Before(s[a], s[b]))
            && (forall a | 0 <= a < n :: s[a].position < n && s[a].key == keys[s[a].position])
  {
    if n > 0 {
      RankSorts(keys, n - 1);
      assert Rank(keys)[..n][..n - 1] == Rank(keys)[..n - 1];
      RankInserts(Sort(Rank(keys)[..n - 1], ByKey), keys, n - 1);
    }
  }

  lemma RankInserts(s: seq<Ranked>, keys: seq<int>, n: nat)
    requires n < |keys| && |s| == n
    requires forall a, b | 0 <= a < b < n :: Before(s[a], s[b])
    requires forall a | 0 <= a < n :: s[a].position < n && s[a].key == keys[s[a].position]
    ensures var t := Insert(s, Ranked(keys[n], n), ByKey);
            && |t| == n + 1
            && (forall a, b | 0 <= a < b < n + 1 :: Before(t[a], t[b]))
            && (forall a | 0 <= a < n + 1 :: t[a].position < n + 1 && t[a].key == keys[t[a].position])
  {
    InsertSplits(s, Ranked(keys[n], n), ByKey);
    var k := InsertPosition(s, Ranked(keys[n], n), ByKey);
    assert forall a | k <= a < n :: a == k || Before(s[k], s[a]);
  }

  /** The order lists positions by key ascending, and equal keys in list order. */
  lemma SortedOrderIsStable(keys: seq<int>)
    ensures var order := SortedOrder(keys);
            && |order| == |keys|
            && (forall a | 0 <= a < |keys| :: order[a] < |keys|)
            && (forall a, b | 0 <= a < b < |keys| ::
                  Before(Ranked(keys[order[a]], order[a]), Ranked(keys[order[b]], order[b])))
  {
    assert Rank(keys)[..|keys|] == Rank(keys);
    RankSorts(keys, |keys|);
    var order, s := SortedOrder(keys), Sort(Rank(keys), ByKey);
    assert forall a | 0 <= a < |keys| :: s[a] == Ranked(keys[order[a]], order[a]);
  }

  /** The order leaves no position out. */
  lemma SortedOrderIsComplete(keys: seq<int>, i: nat)
    requires i < |keys|
    ensures i in SortedOrder(keys)
  {
    SortPermutes(Rank(keys), ByKey);
    var s := Sort(Rank(keys), ByKey);
    assert Rank(keys)[i] in multiset(Rank(keys));
    assert Rank(keys)[i] in multiset(s);
    var a :| 0 <= a < |s| && s[a] == Rank(keys)[i];
    assert SortedOrder(keys)[a] == i;
  }

  // ----- assignment -----

  /** The map that the loop fills in: a later shard with the same id overwrites an earlier entry. */
  function AssignmentOf(shardIds: seq<string>, nodeIds: seq<string>, slots: seq<Option<nat>>): map<string, string>
    requires |slots| == |shardIds| && InRange(slots, |nodeIds|)
  {
    if shardIds == [] then map[]
    else
      var n := |shardIds| - 1;
      var m := AssignmentOf(shardIds[..n], nodeIds, slots[..n]);
      if slots[n].Some? then m[shardIds[n] := nodeIds[slots[n].value]] else m
  }

  lemma {:induction false} AssignmentEntries(shardIds: seq<string>, nodeIds: seq<string>, slots: seq<Option<nat>>)
    requires |slots| == |shardIds| && InRange(slots, |nodeIds|) && Distinct(shardIds)
    ensures var m := AssignmentOf(shardIds, nodeIds, slots);
            && (forall id | id in m :: id in shardIds)
            && (forall t | 0 <= t < |slots| :: shardIds[t] in m <==> slots[t].Some?)
            && (forall t | 0 <= t < |slots| && slots[t].Some? :: m[shardIds[t]] == nodeIds[slots[t].value])
  {
    if shardIds != [] {
      var n := |shardIds| - 1;
      AssignmentEntries(shardIds[..n], nodeIds, slots[..n]);
      assert shardIds == shardIds[..n] + [shardIds[n]];
    }
  }

  /** A shard with this id was placed at position `from` or later. */
  ghost predicate PlacedFrom(shardIds: seq<string>, slots: seq<Option<nat>>, from: nat, id: string) {
    |slots| == |shardIds| && exists t | from <= t < |slots| :: slots[t].Some? && shardIds[t] == id
  }

  /**
   * Whatever ids repeat: an id is in the map exactly when a shard with it was placed, and the last such
   * placement counts.
   */
  lemma {:induction false} LastPlacementWins(shardIds: seq<string>, nodeIds: seq<string>, slots: seq<Option<nat>>,
                                             id: string)
    requires |slots| == |shardIds| && InRange(slots, |nodeIds|)
    ensures var m := AssignmentOf(shardIds, nodeIds, slots);
            && (id in m <==> PlacedFrom(shardIds, slots, 0, id))
            && (forall t | 0 <= t < |slots| && slots[t].Some? && shardIds[t] == id
                           && !PlacedFrom(shardIds, slots, t + 1, id) ::
                  m[id] == nodeIds[slots[t].value])
  {
    if shardIds != [] {
      var n := |shardIds| - 1;
      LastPlacementWins(shardIds[..n], nodeIds, slots[..n], id);
      if !(slots[n].Some? && shardIds[n] == id) {
        forall t | 0 <= t <= n
          ensures PlacedFrom(shardIds, slots, t, id) <==> PlacedFrom(shardIds[..n], slots[..n], t, id)
        {
          PlacedBeforeLast(shardIds, slots, t, id);
        }
      }
    }
  }

  lemma PlacedBeforeLast(shardIds: seq<string>, slots: seq<Option<nat>>, from: nat, id: string)
    requires |slots| == |shardIds| > from && !(slots[|slots| - 1].Some? && shardIds[|slots| - 1] == id)
    ensures PlacedFrom(shardIds, slots, from, id)
       <==> PlacedFrom(shardIds[..|slots| - 1], slots[..|slots| - 1], from, id)
  {
    var n := |slots| - 1;
    if PlacedFrom(shardIds, slots, from, id) {
      var t :| from <= t < |slots| && slots[t].Some? && shardIds[t] == id;
      assert slots[..n][t] == slots[t] && shardIds[..n][t] == id;
    }
  }

  /** Total size of the shards that the map assigns to node `nodeId`. */
  function SizeOn(m: map<string, string>, shardIds: seq<string>, sizes: seq<int>, nodeId: string): int
    requires |shardIds| == |sizes|
  {
    if sizes == [] then 0
    else
      var n := |sizes| - 1;
      SizeOn(m, shardIds[..n], sizes[..n], nodeId)
      + if shardIds[n] in m && m[shardIds[n]] == nodeId then sizes[n] else 0
  }

  lemma {:induction false} SizeOnIsLoad(m: map<string, string>, shardIds: seq<string>, nodeIds: seq<string>,
                                        slots: seq<Option<nat>>, sizes: seq<int>, j: nat)
    requires |slots| == |shardIds| == |sizes| && InRange(slots, |nodeIds|) && j < |nodeIds| && Distinct(nodeIds)
    requires forall t | 0 <= t < |slots| :: shardIds[t] in m <==> slots[t].Some?
    requires forall t | 0 <= t < |slots| && slots[t].Some? :: m[shardIds[t]] == nodeIds[slots[t].value]
    ensures SizeOn(m, shardIds, sizes, nodeIds[j]) == Load(slots, sizes, j)
  {
    if sizes != [] {
      var n := |sizes| - 1;
      SizeOnIsLoad(m, shardIds[..n], nodeIds, slots[..n], sizes[..n], j);
    }
  }

  /** With distinct ids the map itself accounts for every unit of capacity taken. */
  lemma AssignmentConserves(shardIds: seq<string>, nodeIds: seq<string>, start: seq<int>, sizes: seq<int>, j: nat)
    requires |shardIds| == |sizes| && |nodeIds| == |start| && j < |start|
    requires Distinct(shardIds) && Distinct(nodeIds)
    ensures var p := Place(start, sizes);
            && |p.slots| == |sizes| && |p.free| == |start| && InRange(p.slots, |start|)
            && p.free[j] + SizeOn(AssignmentOf(shardIds, nodeIds, p.slots), shardIds, sizes, nodeIds[j]) == start[j]
  {
    var p := Place(start, sizes);
    Conservation(start, sizes);
    AssignmentEntries(shardIds, nodeIds, p.slots);
    SizeOnIsLoad(AssignmentOf(shardIds, nodeIds, p.slots), shardIds, nodeIds, p.slots, sizes, j);
  }

  /** All positions of the list, by capacity ascending, and by position where capacities are equal. */
  ghost predicate IsCapacityOrder(caps: seq<int>, order: seq<nat>) {
    && |order| == |caps|
    && (forall a | 0 <= a < |order| :: order[a] < |caps|)
    && (forall i | 0 <= i < |caps| :: i in order)
    && (forall a, b | 0 <= a < b < |order| ::
          caps[order[a]] < caps[order[b]] || (caps[order[a]] == caps[order[b]] && order[a] < order[b]))
  }

  /**
   * Capacities went from `before` to `after` and the map came out as `m` because the shards were put, one
   * by one, on the first node of the list `order` of positions that had room: shard `t` on the node at
   * place `slots[t]` of that list.
   */
  ghost predicate AssignedInOrder(ids: seq<string>, before: seq<int>, after: seq<int>, shardIds: seq<string>,
                                  sizes: seq<int>, m: map<string, string>, order: seq<nat>, slots: seq<Option<nat>>)
  {
    && |ids| == |before| == |after| && |shardIds| == |sizes| && IsCapacityOrder(before, order)
    && IsFirstFit(Chosen(before, order), slots, sizes)
    && (forall k | 0 <= k < |order| :: after[order[k]] + Load(slots, sizes, k) == before[order[k]])
    && (forall id :: id in m <==> PlacedFrom(shardIds, slots, 0, id))
    && (forall t | 0 <= t < |slots| && slots[t].Some? && !PlacedFrom(shardIds, slots, t + 1, shardIds[t]) ::
          shardIds[t] in m && m[shardIds[t]] == ids[order[slots[t].value]])
  }

  lemma SortedOrderIsCapacityOrder(caps: seq<int>)
    ensures IsCapacityOrder(caps, SortedOrder(caps))
  {
    SortedOrderIsStable(caps);
    forall i | 0 <= i < |caps|
      ensures i in SortedOrder(caps)
    {
      SortedOrderIsComplete(caps, i);
    }
  }

  /** Placing over the nodes in capacity order assigns in that order. */
  lemma PlacedInOrder(ids: seq<string>, before: seq<int>, after: seq<int>, shardIds: seq<string>, sizes: seq<int>,
                      order: seq<nat>)
    requires |ids| == |before| == |after| && |shardIds| == |sizes| && IsCapacityOrder(before, order)
    requires var p := Place(Chosen(before, order), sizes);
             |p.slots| == |sizes| && InRange(p.slots, |order|) && |p.free| == |order|
             && forall k | 0 <= k < |order| :: after[order[k]] == p.free[k]
    ensures var p := Place(Chosen(before, order), sizes);
            AssignedInOrder(ids, before, after, shardIds, sizes, AssignmentOf(shardIds, Chosen(ids, order), p.slots),
                            order, p.slots)
  {
    var start := Chosen(before, order);
    var slots := Place(start, sizes).slots;
    PlaceIsFirstFit(start, sizes);
    Conservation(start, sizes);
    forall id: string {
      LastPlacementWins(shardIds, Chosen(ids, order), slots, id);
    }
  }

  /** The nodes in the order in which placement tries them. */
  function SortedNodes(nodes: seq<Node>): (sorted: seq<Node>)
    reads nodes
    ensures |sorted| == |nodes|
    ensures forall k | 0 <= k < |sorted| :: sorted[k] in nodes
    ensures forall n | n in nodes :: n in sorted
    ensures Distinct(nodes) ==> Distinct(sorted)
  {
    var order := SortedOrder(Capacities(nodes));
    SortedOrderIsStable(Capacities(nodes));
    var sorted := Chosen(nodes, order);
    assert forall n | n in nodes :: n in sorted by {
      forall n | n in nodes
        ensures n in sorted
      {
        var i :| 0 <= i < |nodes| && nodes[i] == n;
        SortedOrderIsComplete(Capacities(nodes), i);
        var k :| 0 <= k < |order| && order[k] == i;
        assert sorted[k] == n;
      }
    }
    sorted
  }

  /** Places one shard on the first node with room, in place. */
  method PlaceShard(sorted: seq<Node>, shard: Shard, assignment: map<string, string>, ghost slots: seq<Option<nat>>)
    returns (slot: Option<nat>, assignment': map<string, string>)
    requires Distinct(sorted)
    modifies sorted`availableCapacity
    ensures PlaceOne(Placement(slots, old(Capacities(sorted))), shard.size)
         == Placement(slots + [slot], Capacities(sorted))
    ensures slot.Some? ==> slot.value < |sorted|
    ensures assignment' == if slot.Some? then assignment[shard.id := sorted[slot.value].id] else assignment
  {
    var j := FindFit(Capacities(sorted), shard.size);
    if j < |sorted| {
      var target := sorted[j];
      ghost var free := Capacities(sorted);
      slot, assignment' := Some(j), assignment[shard.id := target.id];
      target.availableCapacity := target.availableCapacity - shard.size;
      assert Capacities(sorted) == free[j := free[j] - shard.size];
    } else {
      slot, assignment' := None, assignment;
    }
  }

  lemma PlaceNext(start: seq<int>, sizes: seq<int>, t: nat)
    requires t < |sizes|
    ensures Place(start, sizes[..t + 1]) == PlaceOne(Place(start, sizes[..t]), sizes[t])
  {
    assert sizes[..t + 1][..t] == sizes[..t];
  }

  lemma AssignNext(ids: seq<string>, nodeIds: seq<string>, slots: seq<Option<nat>>, slot: Option<nat>, t: nat)
    requires |slots| == t < |ids| && InRange(slots, |nodeIds|) && (slot.Some? ==> slot.value < |nodeIds|)
    ensures var m := AssignmentOf(ids[..t], nodeIds, slots);
            AssignmentOf(ids[..t + 1], nodeIds, slots + [slot])
            == if slot.Some? then m[ids[t] := nodeIds[slot.value]] else m
  {
    assert ids[..t + 1][..t] == ids[..t] && (slots + [slot])[..t] == slots;
  }

  /** The placement loop over the sorted nodes. */
  method PlaceShards(sorted: seq<Node>, shards: seq<Shard>) returns (assignment: map<string, string>)
    requires Distinct(sorted)
    modifies sorted`availableCapacity
    ensures var p := Place(old(Capacities(sorted)), Sizes(shards));
            && |p.slots| == |shards| && InRange(p.slots, |sorted|)
            && Capacities(sorted) == p.free
            && assignment == AssignmentOf(ShardIds(shards), NodeIds(sorted), p.slots)
  {
    ghost var start, sizes, ids := Capacities(sorted), Sizes(shards), ShardIds(shards);
    assignment := map[];
    ghost var slots: seq<Option<nat>> := [];
    for t := 0 to |shards|
      invariant |slots| == t && InRange(slots, |sorted|)
      invariant Place(start, sizes[..t]) == Placement(slots, Capacities(sorted))
      invariant assignment == AssignmentOf(ids[..t], NodeIds(sorted), slots)
    {
      PlaceNext(start, sizes, t);
      var slot;
      slot, assignment := PlaceShard(sorted, shards[t], assignment, slots);
      AssignNext(ids, NodeIds(sorted), slots, slot, t);
      slots := slots + [slot];
    }
    assert sizes[..|shards|] == sizes && ids[..|shards|] == ids;
  }

  /** The same in terms of the unsorted list. */
  method PlaceOver(nodes: seq<Node>, sorted: seq<Node>, shards: seq<Shard>, ghost order: seq<nat>)
    returns (assignment: map<string, string>)
    requires Distinct(sorted) && IsCapacityOrder(Capacities(nodes), order) && sorted == Chosen(nodes, order)
    modifies sorted`availableCapacity
    ensures var p := Place(old(Capacities(sorted)), Sizes(shards));
            && |p.slots| == |shards| && InRange(p.slots, |sorted|)
            && Capacities(sorted) == p.free
            && assignment == AssignmentOf(ShardIds(shards), NodeIds(sorted), p.slots)
            && AssignedInOrder(NodeIds(nodes), old(Capacities(nodes)), Capacities(nodes),
                               ShardIds(shards), Sizes(shards), assignment, order, p.slots)
  {
    ghost var before, start := Capacities(nodes), Capacities(sorted);
    assert start == Chosen(before, order) && NodeIds(sorted) == Chosen(NodeIds(nodes), order);
    assignment := PlaceShards(sorted, shards);
    assert forall k | 0 <= k < |order| :: Capacities(nodes)[order[k]] == Capacities(sorted)[k];
    PlacedInOrder(NodeIds(nodes), before, Capacities(nodes), ShardIds(shards), Sizes(shards), order);
  }

  method AssignShardsToNodes(nodes: seq<Node>, shards: seq<Shard>) returns (assignment: map<string, string>)
    requires Distinct(nodes)
    modifies nodes`availableCapacity
    ensures var sorted := old(SortedNodes(nodes));
            var p := Place(old(Capacities(sorted)), Sizes(shards));
            && |p.slots| == |shards| && InRange(p.slots, |nodes|)
            && Capacities(sorted) == p.free
            && assignment == AssignmentOf(ShardIds(shards), NodeIds(sorted), p.slots)
    ensures exists order, slots ::
              AssignedInOrder(NodeIds(nodes), old(Capacities(nodes)), Capacities(nodes),
                              ShardIds(shards), Sizes(shards), assignment, order, slots)
    ensures forall n | n in nodes :: n.utilization == old(n.utilization)
    ensures Distinct(ShardIds(shards)) && Distinct(NodeIds(nodes)) ==>
              forall n | n in nodes ::
                n.availableCapacity + SizeOn(assignment, ShardIds(shards), Sizes(shards), n.id)
                == old(n.availableCapacity)
  {
    var sorted := SortedNodes(nodes);
    ghost var start, sizes := Capacities(sorted), Sizes(shards);
    ghost var order := SortedOrder(Capacities(nodes));
    SortedOrderIsCapacityOrder(Capacities(nodes));
    assignment := PlaceOver(nodes, sorted, shards, order);
    if Distinct(ShardIds(shards)) && Distinct(NodeIds(nodes)) {
      SortedIdsDistinct(nodes, sorted);
      forall n | n in nodes
        ensures n.availableCapacity + SizeOn(assignment, ShardIds(shards), sizes, n.id) == old(n.availableCapacity)
      {
        var j :| 0 <= j < |sorted| && sorted[j] == n;
        AssignmentConserves(ShardIds(shards), NodeIds(sorted), start, sizes, j);
        assert Capacities(sorted)[j] == n.availableCapacity && start[j] == old(n.availableCapacity);
      }
    }
  }

  lemma SortedIdsDistinct(nodes: seq<Node>, sorted: seq<Node>)
    requires Distinct(NodeIds(nodes)) && Distinct(sorted) && forall k | 0 <= k < |sorted| :: sorted[k] in nodes
    ensures Distinct(NodeIds(sorted))
  {
    forall a, b | 0 <= a < b < |sorted|
      ensures sorted[a].id != sorted[b].id
    {
      var i :| 0 <= i < |nodes| && nodes[i] == sorted[a];
      var j :| 0 <= j < |nodes| && nodes[j] == sorted[b];
      assert NodeIds(nodes)[i] == sorted[a].id && NodeIds(nodes)[j] == sorted[b].id;
    }
  }

  // ----- rebalancing -----

  function FleetOf(nodes: seq<Node>, shards: seq<Shard>, threshold: int): Rebalancing.Fleet
    reads nodes
  {
    Rebalancing.Fleet(NodeIds(nodes), Capacities(nodes), Sizes(shards), threshold)
  }

  function StateOf(nodes: seq<Node>, shards: seq<Shard>, moves: seq<Rebalancing.Move>): Rebalancing.State
    reads nodes, shards
  {
    Rebalancing.State(Homes(shards), Utilizations(nodes), moves)
  }

  /** The three assignments that move shard `i` from node `d` to node `t`, from views `s` to views `r`. */
  method ApplyMove(nodes: seq<Node>, shards: seq<Shard>, d: nat, t: nat, i: nat, ghost s: Rebalancing.State,
                   ghost r: Rebalancing.State)
    requires Distinct(nodes) && Distinct(shards) && d < |nodes| && t < |nodes| && d != t && i < |shards|
    requires s.homes == Homes(shards) && s.util == Utilizations(nodes)
    requires r.homes == s.homes[i := nodes[t].id]
    requires r.util == s.util[t := s.util[t] + shards[i].size][d := s.util[d] - shards[i].size]
    modifies nodes, shards
    ensures Homes(shards) == r.homes && Utilizations(nodes) == r.util && Capacities(nodes) == old(Capacities(nodes))
  {
    var size := shards[i].size;
    assert nodes[t] != nodes[d] && nodes[t].utilization == s.util[t] && nodes[d].utilization == s.util[d];
    assert forall k | 0 <= k < |nodes| :: nodes[k].utilization == s.util[k];
    shards[i].nodeId := nodes[t].id;
    nodes[t].utilization := nodes[t].utilization + size;
    nodes[d].utilization := nodes[d].utilization - size;
    assert forall k | 0 <= k < |nodes| :: nodes[k].utilization == r.util[k];
    assert Homes(shards) == r.homes;
    assert Capacities(nodes) == old(Capacities(nodes));
  }

  /** Moves one shard in place, if some target has room for it. */
  method MoveShard(nodes: seq<Node>, shards: seq<Shard>, ghost f: Rebalancing.Fleet, d: nat, targets: seq<nat>, i: nat,
                   moves: seq<Rebalancing.Move>, ghost s: Rebalancing.State)
    returns (moves': seq<Rebalancing.Move>)
    requires Distinct(nodes) && Distinct(shards) && i < |shards|
    requires f == FleetOf(nodes, shards, f.threshold) && s == StateOf(nodes, shards, moves)
    requires Rebalancing.Usable(f, d, targets)
    modifies nodes, shards
    ensures FleetOf(nodes, shards, f.threshold) == f
    ensures StateOf(nodes, shards, moves') == Rebalancing.MoveOne(f, s, d, targets, i)
  {
    var size := shards[i].size;
    var found := Rebalancing.FindTarget(targets, Capacities(nodes), size);
    ghost var goal := Rebalancing.MoveOne(f, s, d, targets, i);
    match found
    case Some(t) =>
      assert t != d;
      ghost var util := s.util[t := s.util[t] + size][d := s.util[d] - size];
      assert goal == Rebalancing.State(s.homes[i := nodes[t].id], util, moves + [Rebalancing.Move(i, d, t)]);
      ApplyMove(nodes, shards, d, t, i, s, goal);
      moves' := moves + [Rebalancing.Move(i, d, t)];
    case None =>
      moves' := moves;
  }

  /** Drains one overloaded node: its shards and the targets are listed first, then each shard is moved. */
  method DrainNode(nodes: seq<Node>, shards: seq<Shard>, fleet: Rebalancing.Fleet, d: nat, moves: seq<Rebalancing.Move>,
                   ghost s: Rebalancing.State)
    returns (moves': seq<Rebalancing.Move>)
    requires Distinct(nodes) && Distinct(shards) && d < |nodes|
    requires fleet == FleetOf(nodes, shards, fleet.threshold) && s == StateOf(nodes, shards, moves)
    modifies nodes, shards
    ensures FleetOf(nodes, shards, fleet.threshold) == fleet
    ensures StateOf(nodes, shards, moves') == Rebalancing.Drain(fleet, s, d)
  {
    var excess := Rebalancing.Excess(fleet, StateOf(nodes, shards, moves), d);
    var targets := Rebalancing.Targets(fleet, StateOf(nodes, shards, moves), d);
    Rebalancing.TargetsUsable(fleet, s, d);
    moves' := moves;
    ghost var r := s;
    for e := 0 to |excess|
      invariant FleetOf(nodes, shards, fleet.threshold) == fleet && StateOf(nodes, shards, moves') == r
      invariant r == Rebalancing.MoveEach(fleet, s, d, targets, excess[..e])
    {
      assert excess[..e + 1][..e] == excess[..e];
      moves' := MoveShard(nodes, shards, fleet, d, targets, excess[e], moves', r);
      r := Rebalancing.MoveOne(fleet, r, d, targets, excess[e]);
    }
    assert excess[..|excess|] == excess;
  }

  /** Drains the listed nodes one after the other. */
  method DrainNodes(nodes: seq<Node>, shards: seq<Shard>, fleet: Rebalancing.Fleet, list: seq<nat>,
                    ghost s: Rebalancing.State)
    returns (moves: seq<Rebalancing.Move>)
    requires Distinct(nodes) && Distinct(shards) && Below(list, |nodes|)
    requires fleet == FleetOf(nodes, shards, fleet.threshold) && s == StateOf(nodes, shards, [])
    modifies nodes, shards
    ensures FleetOf(nodes, shards, fleet.threshold) == fleet
    ensures StateOf(nodes, shards, moves) == Rebalancing.DrainEach(fleet, s, list)
  {
    moves := [];
    ghost var r := s;
    for k := 0 to |list|
      invariant FleetOf(nodes, shards, fleet.threshold) == fleet && StateOf(nodes, shards, moves) == r
      invariant r == Rebalancing.DrainEach(fleet, s, list[..k])
    {
      assert list[..k + 1][..k] == list[..k];
      moves := DrainNode(nodes, shards, fleet, list[k], moves, r);
      r := Rebalancing.Drain(fleet, r, list[k]);
    }
    assert list[..|list|] == list;
  }

  method RebalanceShards(nodes: seq<Node>, shards: seq<Shard>, configured: Option<int>)
    returns (moves: seq<Rebalancing.Move>)
    requires Distinct(nodes) && Distinct(shards)
    modifies nodes, shards
    ensures var threshold := Rebalancing.Threshold(configured);
            && FleetOf(nodes, shards, threshold) == old(FleetOf(nodes, shards, threshold))
            && StateOf(nodes, shards, moves)
            == old(Rebalancing.Rebalance(FleetOf(nodes, shards, threshold), StateOf(nodes, shards, [])))
    ensures var threshold := if configured.Some? && configured.value != 0 then configured.value else 75;
            var fleet := Rebalancing.Fleet(NodeIds(nodes), old(Capacities(nodes)), Sizes(shards), threshold);
            var before := Rebalancing.State(old(Homes(shards)), old(Utilizations(nodes)), []);
            exists o, trace ::
              Rebalancing.IsRebalancing(fleet, before, o, trace,
                                        Rebalancing.State(Homes(shards), Utilizations(nodes), moves))
  {
    var fleet := FleetOf(nodes, shards, Rebalancing.Threshold(configured));
    var overloaded := Rebalancing.Overloaded(fleet, StateOf(nodes, shards, []));
    ghost var s := StateOf(nodes, shards, []);
    ghost var trace := Rebalancing.RebalanceIsRebalancing(fleet, s);
    if overloaded == [] {
      moves := [];
    } else {
      moves := DrainNodes(nodes, shards, fleet, overloaded, s);
    }
    assert fleet.threshold == if configured.Some? && configured.value != 0 then configured.value else 75;
    assert s == Rebalancing.State(old(Homes(shards)), old(Utilizations(nodes)), []);
    assert Rebalancing.IsRebalancing(fleet, s, overloaded, trace,
                                     Rebalancing.State(Homes(shards), Utilizations(nodes), moves));
  }
}
