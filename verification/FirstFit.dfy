/**
 * The placement rule of `assignShardsToNodes`, on values: shards are taken in order and each goes to
 * the first node whose free capacity covers it. Nodes are known here by their place in the node list
 * sorted by capacity; a shard that fits nowhere gets no place.
 */
module FirstFit {
  import opened Wrappers
  import opened Sequences

  /** The first position with enough room, or the length of the list when there is none. */
  function FindFit(free: seq<int>, size: int): (j: nat)
    ensures j <= |free|
    ensures forall i | 0 <= i < j :: free[i] < size
    ensures j < |free| ==> free[j] >= size
  {
    FirstIndex(free, (room: int) => room >= size)
  }

  datatype Placement = Placement(slots: seq<Option<nat>>, free: seq<int>)

  function PlaceOne(p: Placement, size: int): Placement {
    var j := FindFit(p.free, size);
    if j < |p.free|
    then Placement(p.slots + [Some(j)], p.free[j := p.free[j] - size])
    else p.(slots := p.slots + [None])
  }

  function Place(start: seq<int>, sizes: seq<int>): Placement {
    if sizes == [] then Placement([], start)
    else PlaceOne(Place(start, sizes[..|sizes| - 1]), sizes[|sizes| - 1])
  }

  /** Total size of the shards put on node `j`. */
  function Load(slots: seq<Option<nat>>, sizes: seq<int>, j: nat): int
    requires |slots| == |sizes|
  {
    if sizes == [] then 0
    else
      var n := |sizes| - 1;
      Load(slots[..n], sizes[..n], j) + if slots[n] == Some(j) then sizes[n] else 0
  }

  /** Total size of the shards that were put somewhere. */
  function Placed(slots: seq<Option<nat>>, sizes: seq<int>): int
    requires |slots| == |sizes|
  {
    if sizes == [] then 0
    else
      var n := |sizes| - 1;
      Placed(slots[..n], sizes[..n]) + if slots[n].Some? then sizes[n] else 0
  }

  predicate InRange(slots: seq<Option<nat>>, n: nat) {
    forall t | 0 <= t < |slots| && slots[t].Some? :: slots[t].value < n
  }

  // ----- conservation -----

  lemma {:induction false} PlaceShape(start: seq<int>, sizes: seq<int>)
    ensures var p := Place(start, sizes);
            |p.slots| == |sizes| && |p.free| == |start| && InRange(p.slots, |start|)
  {
    if sizes != [] {
      PlaceShape(start, sizes[..|sizes| - 1]);
    }
  }

  lemma {:induction false} ConservationAt(start: seq<int>, sizes: seq<int>, j: nat)
    requires j < |start|
    ensures var p := Place(start, sizes);
            && |p.slots| == |sizes| && |p.free| == |start|
            && p.free[j] + Load(p.slots, sizes, j) == start[j]
            && (start[j] >= 0 ==> p.free[j] >= 0)
  {
    PlaceShape(start, sizes);
    if sizes != [] {
      var n := |sizes| - 1;
      var p, q := Place(start, sizes), Place(start, sizes[..n]);
      PlaceShape(start, sizes[..n]);
      ConservationAt(start, sizes[..n], j);
      assert p.slots[..n] == q.slots;
      assert p.free[j] == q.free[j] - if p.slots[n] == Some(j) then sizes[n] else 0;
    }
  }

  /** Capacity taken is load given, on every node, and no capacity that starts non-negative ends negative. */
  lemma {:induction false} Conservation(start: seq<int>, sizes: seq<int>)
    ensures var p := Place(start, sizes);
            && |p.slots| == |sizes| && |p.free| == |start| && InRange(p.slots, |start|)
            && (forall j | 0 <= j < |start| :: p.free[j] + Load(p.slots, sizes, j) == start[j])
            && (forall j | 0 <= j < |start| && start[j] >= 0 :: p.free[j] >= 0)
  {
    PlaceShape(start, sizes);
    var p := Place(start, sizes);
    forall j | 0 <= j < |start|
      ensures p.free[j] + Load(p.slots, sizes, j) == start[j] && (start[j] >= 0 ==> p.free[j] >= 0)
    {
      ConservationAt(start, sizes, j);
    }
  }

  // ----- what the rule promises at the moment of each choice -----

  /** Free capacity of node `j` just before shard `t`: what it started with less what it took so far. */
  function FreeBefore(start: seq<int>, slots: seq<Option<nat>>, sizes: seq<int>, t: nat, j: nat): int
    requires |slots| == |sizes| && t <= |sizes| && j < |start|
  {
    start[j] - Load(slots[..t], sizes[..t], j)
  }

  /** Shard `t` sits on `slots[t]` because that node had room then and every earlier node had not. */
  ghost predicate FirstFitAt(start: seq<int>, slots: seq<Option<nat>>, sizes: seq<int>, t: nat)
    requires |slots| == |sizes| && t < |sizes| && InRange(slots, |start|)
  {
    var limit := if slots[t].Some? then slots[t].value else |start|;
    && (forall i | 0 <= i < limit :: FreeBefore(start, slots, sizes, t, i) < sizes[t])
    && (slots[t].Some? ==> FreeBefore(start, slots, sizes, t, slots[t].value) >= sizes[t])
  }

  ghost predicate IsFirstFit(start: seq<int>, slots: seq<Option<nat>>, sizes: seq<int>) {
    && |slots| == |sizes| && InRange(slots, |start|)
    && forall t | 0 <= t < |sizes| :: FirstFitAt(start, slots, sizes, t)
  }

  lemma FreeBeforeOfPrefix(start: seq<int>, slots: seq<Option<nat>>, sizes: seq<int>, n: nat, t: nat)
    requires |slots| == |sizes| && t <= n <= |sizes|
    ensures forall j | 0 <= j < |start| ::
              FreeBefore(start, slots[..n], sizes[..n], t, j) == FreeBefore(start, slots, sizes, t, j)
  {
    assert slots[..n][..t] == slots[..t] && sizes[..n][..t] == sizes[..t];
  }

  lemma PrefixFirstFit(start: seq<int>, slots: seq<Option<nat>>, sizes: seq<int>)
    requires IsFirstFit(start, slots, sizes) && sizes != []
    ensures IsFirstFit(start, slots[..|sizes| - 1], sizes[..|sizes| - 1])
  {
    var n := |sizes| - 1;
    forall t | 0 <= t < n
      ensures FirstFitAt(start, slots[..n], sizes[..n], t)
    {
      assert FirstFitAt(start, slots, sizes, t);
      FreeBeforeOfPrefix(start, slots, sizes, n, t);
    }
  }

  /** The free capacities that `Place` carries are what its own places leave. */
  lemma FreeIsFreeBefore(start: seq<int>, slots: seq<Option<nat>>, sizes: seq<int>, n: nat)
    requires |slots| == |sizes| && n <= |sizes| && slots[..n] == Place(start, sizes[..n]).slots
    ensures |Place(start, sizes[..n]).free| == |start|
    ensures forall j | 0 <= j < |start| :: FreeBefore(start, slots, sizes, n, j) == Place(start, sizes[..n]).free[j]
  {
    PlaceShape(start, sizes[..n]);
    forall j | 0 <= j < |start|
      ensures FreeBefore(start, slots, sizes, n, j) == Place(start, sizes[..n]).free[j]
    {
      ConservationAt(start, sizes[..n], j);
    }
  }

  lemma {:induction false} PlaceIsFirstFit(start: seq<int>, sizes: seq<int>)
    ensures IsFirstFit(start, Place(start, sizes).slots, sizes)
  {
    PlaceShape(start, sizes);
    if sizes != [] {
      var n := |sizes| - 1;
      var slots := Place(start, sizes).slots;
      PlaceIsFirstFit(start, sizes[..n]);
      PlaceShape(start, sizes[..n]);
      assert slots[..n] == Place(start, sizes[..n]).slots;
      forall t | 0 <= t <= n
        ensures FirstFitAt(start, slots, sizes, t)
      {
        if t < n {
          assert FirstFitAt(start, slots[..n], sizes[..n], t);
          FreeBeforeOfPrefix(start, slots, sizes, n, t);
        } else {
          FreeIsFreeBefore(start, slots, sizes, n);
        }
      }
    }
  }

  /** After the same choices a first-fit choice is the one that `Place` makes. */
  lemma ChoiceIsForced(start: seq<int>, slots: seq<Option<nat>>, sizes: seq<int>)
    requires IsFirstFit(start, slots, sizes) && sizes != []
    requires slots[..|sizes| - 1] == Place(start, sizes[..|sizes| - 1]).slots
    ensures slots == Place(start, sizes).slots
  {
    var n := |sizes| - 1;
    var free := Place(start, sizes[..n]).free;
    FreeIsFreeBefore(start, slots, sizes, n);
    assert FirstFitAt(start, slots, sizes, n);
    FindFitIs(free, sizes[n], if slots[n].Some? then slots[n].value else |start|);
    assert slots == slots[..n] + [slots[n]];
  }

  lemma FindFitIs(free: seq<int>, size: int, j: nat)
    requires j <= |free| && (forall i | 0 <= i < j :: free[i] < size) && (j < |free| ==> free[j] >= size)
    ensures FindFit(free, size) == j
  {
  }

  /** `Place` computes the only list of places that is first-fit at every step. */
  lemma {:induction false} FirstFitIsUnique(start: seq<int>, slots: seq<Option<nat>>, sizes: seq<int>)
    ensures slots == Place(start, sizes).slots <==> IsFirstFit(start, slots, sizes)
  {
    PlaceIsFirstFit(start, sizes);
    if IsFirstFit(start, slots, sizes) && sizes != [] {
      var n := |sizes| - 1;
      PrefixFirstFit(start, slots, sizes);
      FirstFitIsUnique(start, slots[..n], sizes[..n]);
      ChoiceIsForced(start, slots, sizes);
    }
  }

  // ----- maximality -----

  /** Shard `t` is larger than what every node before its own has left; with no place, than any node. */
  ghost predicate Beyond(p: Placement, sizes: seq<int>, t: nat) {
    t < |p.slots| == |sizes|
    && var limit := if p.slots[t].Some? then p.slots[t].value else |p.free|;
       limit <= |p.free| && forall i | 0 <= i < limit :: p.free[i] < sizes[t]
  }

  lemma {:induction false} Maximality(start: seq<int>, sizes: seq<int>)
    requires forall t | 0 <= t < |sizes| :: sizes[t] >= 0
    ensures forall t | 0 <= t < |sizes| :: Beyond(Place(start, sizes), sizes, t)
  {
    if sizes != [] {
      var n := |sizes| - 1;
      var q := Place(start, sizes[..n]);
      PlaceShape(start, sizes[..n]);
      Maximality(start, sizes[..n]);
      forall t | 0 <= t <= n
        ensures Beyond(Place(start, sizes), sizes, t)
      {
        assert t < n ==> Beyond(q, sizes[..n], t);
        StaysBeyond(q, sizes, n, t);
      }
    }
  }

  lemma StaysBeyond(q: Placement, sizes: seq<int>, n: nat, t: nat)
    requires |q.slots| == n && |sizes| == n + 1 && sizes[n] >= 0 && t <= n
    requires t < n ==> Beyond(q, sizes[..n], t)
    ensures Beyond(PlaceOne(q, sizes[n]), sizes, t)
  {
    assert forall i | 0 <= i < |q.free| :: PlaceOne(q, sizes[n]).free[i] <= q.free[i];
  }

  // ----- the packing bound -----

  predicate Used(slots: seq<Option<nat>>, j: nat) {
    exists t | 0 <= t < |slots| :: slots[t] == Some(j)
  }

  /** The nodes below `n` that received a shard, in node order. */
  function UsedNodes(slots: seq<Option<nat>>, n: nat): (nodes: seq<nat>)
    ensures forall a | 0 <= a < |nodes| :: nodes[a] < n && Used(slots, nodes[a])
    ensures forall a, b | 0 <= a < b < |nodes| :: nodes[a] < nodes[b]
  {
    if n == 0 then []
    else UsedNodes(slots, n - 1) + if Used(slots, n - 1) then [n - 1] else []
  }

  lemma {:induction false} UsedNodesAreAll(slots: seq<Option<nat>>, n: nat, j: nat)
    requires j < n
    ensures j in UsedNodes(slots, n) <==> Used(slots, j)
  {
    if j < n - 1 {
      UsedNodesAreAll(slots, n - 1, j);
    }
  }

  function LoadsOf(slots: seq<Option<nat>>, sizes: seq<int>, nodes: seq<nat>): (loads: seq<int>)
    requires |slots| == |sizes|
    ensures |loads| == |nodes| && forall a | 0 <= a < |nodes| :: loads[a] == Load(slots, sizes, nodes[a])
  {
    seq(|nodes|, a requires 0 <= a < |nodes| => Load(slots, sizes, nodes[a]))
  }

  function CapacitiesOf(start: seq<int>, nodes: seq<nat>): (caps: seq<int>)
    requires forall a | 0 <= a < |nodes| :: nodes[a] < |start|
    ensures |caps| == |nodes| && forall a | 0 <= a < |nodes| :: caps[a] == start[nodes[a]]
  {
    seq(|nodes|, a requires 0 <= a < |nodes| => start[nodes[a]])
  }

  function SumOfLoads(slots: seq<Option<nat>>, sizes: seq<int>, n: nat): int
    requires |slots| == |sizes|
  {
    if n == 0 then 0 else SumOfLoads(slots, sizes, n - 1) + Load(slots, sizes, n - 1)
  }

  lemma {:induction false} UnusedLoad(slots: seq<Option<nat>>, sizes: seq<int>, j: nat)
    requires |slots| == |sizes| && !Used(slots, j)
    ensures Load(slots, sizes, j) == 0
  {
    if sizes != [] {
      UnusedLoad(slots[..|sizes| - 1], sizes[..|sizes| - 1], j);
    }
  }

  lemma SumOfOneMore(xs: seq<int>, x: int)
    ensures Sum(xs + [x]) == Sum(xs) + x
  {
    SumAppend(xs, [x]);
    assert [x][1..] == [];
  }

  lemma LoadsOfAppend(slots: seq<Option<nat>>, sizes: seq<int>, nodes: seq<nat>, j: nat)
    requires |slots| == |sizes|
    ensures LoadsOf(slots, sizes, nodes + [j]) == LoadsOf(slots, sizes, nodes) + [Load(slots, sizes, j)]
  {
  }

  lemma {:induction false} SumOfUsed(slots: seq<Option<nat>>, sizes: seq<int>, n: nat)
    requires |slots| == |sizes|
    ensures Sum(LoadsOf(slots, sizes, UsedNodes(slots, n))) == SumOfLoads(slots, sizes, n)
  {
    if n > 0 {
      SumOfUsed(slots, sizes, n - 1);
      var nodes := UsedNodes(slots, n - 1);
      if Used(slots, n - 1) {
        LoadsOfAppend(slots, sizes, nodes, n - 1);
        SumOfOneMore(LoadsOf(slots, sizes, nodes), Load(slots, sizes, n - 1));
      } else {
        UnusedLoad(slots, sizes, n - 1);
        assert UsedNodes(slots, n) == nodes;
      }
    }
  }

  lemma {:induction false} LoadsOfOneMore(slots: seq<Option<nat>>, sizes: seq<int>, n: nat)
    requires |slots| == |sizes| && sizes != []
    ensures var k := |sizes| - 1;
            SumOfLoads(slots, sizes, n) == SumOfLoads(slots[..k], sizes[..k], n)
            + if slots[k].Some? && slots[k].value < n then sizes[k] else 0
  {
    if n > 0 {
      LoadsOfOneMore(slots, sizes, n - 1);
    }
  }

  /** Counting by node and counting by shard give the same total. */
  lemma {:induction false} SumOfLoadsIsPlaced(slots: seq<Option<nat>>, sizes: seq<int>, n: nat)
    requires |slots| == |sizes| && InRange(slots, n)
    ensures SumOfLoads(slots, sizes, n) == Placed(slots, sizes)
  {
    if sizes == [] {
      NoLoads(n);
    } else {
      LoadsOfOneMore(slots, sizes, n);
      SumOfLoadsIsPlaced(slots[..|sizes| - 1], sizes[..|sizes| - 1], n);
    }
  }

  lemma {:induction false} NoLoads(n: nat)
    ensures SumOfLoads([], [], n) == 0
  {
    if n > 0 {
      NoLoads(n - 1);
    }
  }

  lemma {:induction false} LoadAtLeast(slots: seq<Option<nat>>, sizes: seq<int>, t: nat, j: nat)
    requires |slots| == |sizes| && t < |sizes| && slots[t] == Some(j)
    requires forall u | 0 <= u < |sizes| :: sizes[u] >= 0
    ensures Load(slots, sizes, j) >= sizes[t]
  {
    var n := |sizes| - 1;
    if t < n {
      LoadAtLeast(slots[..n], sizes[..n], t, j);
    } else {
      LoadNonNegative(slots[..n], sizes[..n], j);
    }
  }

  lemma {:induction false} LoadNonNegative(slots: seq<Option<nat>>, sizes: seq<int>, j: nat)
    requires |slots| == |sizes|
    requires forall u | 0 <= u < |sizes| :: sizes[u] >= 0
    ensures Load(slots, sizes, j) >= 0
  {
    if sizes != [] {
      LoadNonNegative(slots[..|sizes| - 1], sizes[..|sizes| - 1], j);
    }
  }

  ghost predicate EqualNodes(start: seq<int>, C: int) {
    forall j | 0 <= j < |start| :: start[j] == C
  }

  /** A node in use holds, with any earlier node, more than the earlier one could have held alone. */
  lemma PairBound(start: seq<int>, sizes: seq<int>, i: nat, j: nat)
    requires forall t | 0 <= t < |sizes| :: sizes[t] >= 0
    requires |Place(start, sizes).slots| == |sizes|
    requires i < j < |start| && Used(Place(start, sizes).slots, j)
    ensures Load(Place(start, sizes).slots, sizes, i) + Load(Place(start, sizes).slots, sizes, j) > start[i]
  {
    var p := Place(start, sizes);
    Conservation(start, sizes);
    Maximality(start, sizes);
    var t :| 0 <= t < |sizes| && p.slots[t] == Some(j);
    LoadAtLeast(p.slots, sizes, t, j);
    assert Beyond(p, sizes, t);
  }

  /** Every two loads exceed the capacity of the first of the two nodes. */
  ghost predicate PairsExceed(loads: seq<int>, caps: seq<int>) {
    |loads| == |caps| && forall a, b | 0 <= a < b < |loads| :: loads[a] + loads[b] > caps[a]
  }

  lemma UsedPairsExceed(start: seq<int>, sizes: seq<int>)
    requires forall t | 0 <= t < |sizes| :: sizes[t] >= 0
    requires |Place(start, sizes).slots| == |sizes|
    ensures var slots := Place(start, sizes).slots;
            var nodes := UsedNodes(slots, |start|);
            PairsExceed(LoadsOf(slots, sizes, nodes), CapacitiesOf(start, nodes))
  {
    var slots := Place(start, sizes).slots;
    var nodes := UsedNodes(slots, |start|);
    var loads, caps := LoadsOf(slots, sizes, nodes), CapacitiesOf(start, nodes);
    forall a, b | 0 <= a < b < |nodes|
      ensures loads[a] + loads[b] > caps[a]
    {
      PairBound(start, sizes, nodes[a], nodes[b]);
    }
  }

  lemma SumOfLast(xs: seq<int>)
    requires xs != []
    ensures Sum(xs) == Sum(xs[..|xs| - 1]) + xs[|xs| - 1]
  {
    var n := |xs| - 1;
    assert xs == xs[..n] + [xs[n]];
    SumOfOneMore(xs[..n], xs[n]);
  }

  /** The pairs of neighbours, added up: all loads but the two at the ends are counted twice. */
  lemma {:induction false} NeighboursExceed(loads: seq<int>, caps: seq<int>)
    requires PairsExceed(loads, caps) && loads != []
    ensures 2 * Sum(loads) - loads[0] - loads[|loads| - 1] >= Sum(caps[..|caps| - 1]) + |loads| - 1
  {
    var n := |loads| - 1;
    SumOfLast(loads);
    if n > 0 {
      NeighboursExceed(loads[..n], caps[..n]);
      SumOfLast(caps[..n]);
      assert caps[..n][..n - 1] == caps[..n - 1];
      assert loads[n - 1] + loads[n] > caps[n - 1];
    } else {
      assert loads[..0] == [] && caps[..0] == [];
    }
  }

  /** The neighbours and the pair of first and last: every load is counted twice. */
  lemma RingExceeds(loads: seq<int>, caps: seq<int>)
    requires PairsExceed(loads, caps) && |loads| >= 2
    ensures 2 * Sum(loads) >= caps[0] + Sum(caps[..|caps| - 1]) + |loads|
  {
    NeighboursExceed(loads, caps);
    assert loads[0] + loads[|loads| - 1] > caps[0];
  }

  lemma HalvesExceed(k: nat, C: nat, total: int)
    requires k >= 2 && 2 * total >= k * (C + 1)
    ensures total > (k / 2) * C
  {
    var h := k / 2;
    assert k * (C + 1) == k * C + k;
    assert k * C == 2 * (h * C) + (k - 2 * h) * C;
    assert (k - 2 * h) * C >= 0;
  }

  /**
   * The packing bound. When k >= 2 nodes end in use, twice the placed size is at least the start
   * capacity of the first of them, and those of all but the last, and k.
   */
  lemma PackingBound(start: seq<int>, sizes: seq<int>)
    requires forall t | 0 <= t < |sizes| :: sizes[t] >= 0
    ensures var slots := Place(start, sizes).slots;
            && |slots| == |sizes|
            && var caps := CapacitiesOf(start, UsedNodes(slots, |start|));
               var k := |caps|;
               k >= 2 ==> 2 * Placed(slots, sizes) >= caps[0] + Sum(caps[..k - 1]) + k
  {
    var slots := Place(start, sizes).slots;
    Conservation(start, sizes);
    var nodes := UsedNodes(slots, |start|);
    UsedPairsExceed(start, sizes);
    if |nodes| >= 2 {
      RingExceeds(LoadsOf(slots, sizes, nodes), CapacitiesOf(start, nodes));
      SumOfUsed(slots, sizes, |start|);
      SumOfLoadsIsPlaced(slots, sizes, |start|);
    }
  }

  lemma {:induction false} SumOfEqual(xs: seq<int>, C: int)
    requires forall a | 0 <= a < |xs| :: xs[a] == C
    ensures Sum(xs) == |xs| * C
  {
    if xs != [] {
      SumOfEqual(xs[1..], C);
      assert |xs| * C == (|xs| - 1) * C + C;
    }
  }

  lemma EqualShares(caps: seq<int>, C: int)
    requires |caps| >= 2 && forall a | 0 <= a < |caps| :: caps[a] == C
    ensures caps[0] + Sum(caps[..|caps| - 1]) + |caps| == |caps| * (C + 1)
  {
    SumOfEqual(caps[..|caps| - 1], C);
    assert |caps| * (C + 1) == (|caps| - 1) * C + C + |caps|;
  }

  /** With equal capacities C the k >= 2 used nodes hold together at least k (C + 1) / 2. */
  lemma EqualPackingBound(start: seq<int>, sizes: seq<int>, C: int)
    requires EqualNodes(start, C) && forall t | 0 <= t < |sizes| :: sizes[t] >= 0
    ensures var slots := Place(start, sizes).slots;
            && |slots| == |sizes|
            && var k := |UsedNodes(slots, |start|)|;
               k >= 2 ==> 2 * Placed(slots, sizes) >= k * (C + 1)
  {
    PackingBound(start, sizes);
    var caps := CapacitiesOf(start, UsedNodes(Place(start, sizes).slots, |start|));
    if |caps| >= 2 {
      EqualShares(caps, C);
    }
  }

  /** So they are more than half full on average. */
  lemma MoreThanHalfFull(start: seq<int>, sizes: seq<int>, C: nat)
    requires EqualNodes(start, C) && forall t | 0 <= t < |sizes| :: sizes[t] >= 0
    ensures var slots := Place(start, sizes).slots;
            && |slots| == |sizes|
            && var k := |UsedNodes(slots, |start|)|;
               k >= 2 ==> Placed(slots, sizes) > (k / 2) * C
  {
    EqualPackingBound(start, sizes, C);
    var slots := Place(start, sizes).slots;
    var k := |UsedNodes(slots, |start|)|;
    if k >= 2 {
      HalvesExceed(k, C, Placed(slots, sizes));
    }
  }

  // ----- against any other way of placing the same shards -----

  /** `other` puts exactly the shards that `slots` puts, on `m` nodes none of which exceeds `C`. */
  ghost predicate Packs(other: seq<Option<nat>>, slots: seq<Option<nat>>, sizes: seq<int>, m: nat, C: int) {
    && |other| == |slots| == |sizes| && InRange(other, m)
    && (forall t | 0 <= t < |slots| :: other[t].Some? <==> slots[t].Some?)
    && (forall j | 0 <= j < m :: Load(other, sizes, j) <= C)
  }

  lemma {:induction false} SamePlaced(other: seq<Option<nat>>, slots: seq<Option<nat>>, sizes: seq<int>)
    requires |other| == |slots| == |sizes|
    requires forall t | 0 <= t < |slots| :: other[t].Some? <==> slots[t].Some?
    ensures Placed(other, sizes) == Placed(slots, sizes)
  {
    if sizes != [] {
      var n := |sizes| - 1;
      SamePlaced(other[..n], slots[..n], sizes[..n]);
    }
  }

  lemma {:induction false} BoundedLoads(slots: seq<Option<nat>>, sizes: seq<int>, n: nat, C: int)
    requires |slots| == |sizes| && forall j | 0 <= j < n :: Load(slots, sizes, j) <= C
    ensures SumOfLoads(slots, sizes, n) <= n * C
  {
    if n > 0 {
      BoundedLoads(slots, sizes, n - 1, C);
    }
  }

  /** First-fit on equal nodes uses fewer than twice as many nodes as any packing of the same shards. */
  lemma FewerThanTwiceAnyPacking(start: seq<int>, sizes: seq<int>, C: nat, other: seq<Option<nat>>, m: nat)
    requires EqualNodes(start, C) && forall t | 0 <= t < |sizes| :: sizes[t] >= 0
    requires Packs(other, Place(start, sizes).slots, sizes, m, C)
    ensures var k := |UsedNodes(Place(start, sizes).slots, |start|)|; k <= 1 || k < 2 * m
  {
    var slots := Place(start, sizes).slots;
    var k := |UsedNodes(slots, |start|)|;
    EqualPackingBound(start, sizes, C);
    SamePlaced(other, slots, sizes);
    BoundedLoads(other, sizes, m, C);
    SumOfLoadsIsPlaced(other, sizes, m);
    if k >= 2 {
      FewerThanTwice(k, m, C, Placed(slots, sizes));
    }
  }

  lemma FewerThanTwice(k: nat, m: nat, C: nat, total: int)
    requires k >= 1 && 2 * total >= k * (C + 1) && total <= m * C
    ensures k < 2 * m
  {
    assert k * (C + 1) == k * C + k;
    assert k * C == 2 * (m * C) + (k - 2 * m) * C;
    assert k >= 2 * m ==> (k - 2 * m) * C >= 0;
  }
}
