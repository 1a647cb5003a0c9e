/** Splitting data into shards, and the placement of shards over runs of the orchestrator, on values. */
module OrchestratorRuns {
  import opened Arithmetic
  import opened Wrappers
  import opened Sequences

  // ----- splitting -----

  /** Like `slice`, this stops at the end of the data. */
  function Slice<T>(data: seq<T>, low: nat, high: nat): seq<T>
    requires low <= high
  {
    data[Min(low, |data|)..Min(high, |data|)]
  }

  /** Segment `index` of `parts`. */
  function SplitData<T>(data: seq<T>, parts: nat, index: nat): seq<T>
    requires parts > 0
  {
    var segmentSize := CeilDiv(|data|, parts);
    Multiples(index, index + 1, segmentSize);
    Slice(data, index * segmentSize, (index + 1) * segmentSize)
  }

  /** The first `n` segments one after the other. */
  function JoinSegments<T>(data: seq<T>, parts: nat, n: nat): seq<T>
    requires parts > 0
  {
    if n == 0 then [] else JoinSegments(data, parts, n - 1) + SplitData(data, parts, n - 1)
  }

  lemma {:induction false} JoinedPrefix<T>(data: seq<T>, parts: nat, n: nat)
    requires parts > 0
    ensures JoinSegments(data, parts, n) == data[..Min(n * CeilDiv(|data|, parts), |data|)]
  {
    var s := CeilDiv(|data|, parts);
    if n > 0 {
      JoinedPrefix(data, parts, n - 1);
      assert n * s == (n - 1) * s + s;
      var i, j := Min((n - 1) * s, |data|), Min(n * s, |data|);
      assert data[..i] + data[i..j] == data[..j];
    }
  }

  /** Joining all segments gives back the data, for every length and every positive number of parts. */
  lemma SegmentsRejoin<T>(data: seq<T>, parts: nat)
    requires parts > 0
    ensures JoinSegments(data, parts, parts) == data
  {
    JoinedPrefix(data, parts, parts);
    CeilDivCovers(|data|, parts);
    assert data[..|data|] == data;
  }

  lemma SliceAt<T>(data: seq<T>, low: nat, high: nat, k: nat)
    requires low <= k < high && k < |data|
    ensures |Slice(data, low, high)| <= high - low && k - low < |Slice(data, low, high)|
    ensures Slice(data, low, high)[k - low] == data[k]
  {
  }

  /** Offset `r` of segment `q` is element q * size + r, where size, the rounded-up share, bounds every segment. */
  lemma ElementAt<T>(data: seq<T>, parts: nat, q: nat, r: nat)
    requires parts > 0 && r < CeilDiv(|data|, parts) && q * CeilDiv(|data|, parts) + r < |data|
    ensures q < parts && r < |SplitData(data, parts, q)| <= CeilDiv(|data|, parts)
    ensures SplitData(data, parts, q)[r] == data[q * CeilDiv(|data|, parts) + r]
  {
    var size := CeilDiv(|data|, parts);
    CeilDivCovers(|data|, parts);
    SegmentInRange(q, r, parts, size);
    Multiples(q, q + 1, size);
    Multiples(q + 1, q + 1, size);
    SliceAt(data, q * size, (q + 1) * size, q * size + r);
  }

  // ----- shards and their placement -----

  /** The two numbers in `shard-<time>-<index>`, or the name of a shard that existed before. */
  datatype ShardId = Created(time: nat, index: nat) | Existing(name: string)

  const ASSIGNED := "assigned"
  const UNASSIGNED := "unassigned"

  datatype Entry = Entry(id: ShardId, data: string, node: Option<string>, status: string)

  /** One result of the resource allocator: a task by name, and the node it got if any. */
  datatype Allocation = Allocation(task: ShardId, node: Option<string>)

  function FirstWith(s: seq<Entry>, id: ShardId): (k: nat)
    ensures k <= |s|
    ensures forall i | 0 <= i < k :: s[i].id != id
    ensures k < |s| ==> s[k].id == id
  {
    FirstIndex(s, (e: Entry) => e.id == id)
  }

  /** The placement loop; the flag tells that it threw because a task names no shard. */
  function Apply(s: seq<Entry>, allocations: seq<Allocation>): (seq<Entry>, bool)
    decreases |allocations|
  {
    if allocations == [] then (s, false)
    else if allocations[0].node.None? then Apply(s, allocations[1..])
    else
      var k := FirstWith(s, allocations[0].task);
      if k == |s| then (s, true)
      else Apply(s[k := s[k].(node := allocations[0].node, status := ASSIGNED)], allocations[1..])
  }

  function IsUnassigned(e: Entry): bool {
    e.status == UNASSIGNED
  }

  function EntryIds(s: seq<Entry>): (ids: seq<ShardId>)
    ensures |ids| == |s| && forall i | 0 <= i < |s| :: ids[i] == s[i].id
  {
    seq(|s|, i requires 0 <= i < |s| => s[i].id)
  }

  /** The tasks that distributing a list of shards submits. */
  function Submitted(list: seq<Entry>): seq<ShardId> {
    EntryIds(Filter(list, IsUnassigned))
  }

  /** A waiting shard is submitted by its id, one that is assigned is not, and the order is that of the list. */
  lemma SubmittedIsExact(e: Entry, list: seq<Entry>, more: seq<Entry>)
    ensures Submitted([e]) == if e.status == "unassigned" then [e.id] else []
    ensures Submitted(list + more) == Submitted(list) + Submitted(more)
  {
    assert [e][1..] == [];
    FilterAppend(list, more, IsUnassigned);
  }

  /** The contract of the resource allocator: results only for submitted tasks, and only listed nodes. */
  ghost predicate IsAllocation(tasks: seq<ShardId>, nodes: seq<string>, allocations: seq<Allocation>) {
    forall a | 0 <= a < |allocations| ::
      allocations[a].task in tasks && (allocations[a].node.Some? ==> allocations[a].node.value in nodes)
  }

  // ----- what distribution keeps -----

  /** A shard is assigned exactly when it has a node, and waits exactly when it has none. */
  ghost predicate Consistent(s: seq<Entry>) {
    forall i | 0 <= i < |s| ::
      (s[i].status == ASSIGNED <==> s[i].node.Some?) && (s[i].status == UNASSIGNED <==> s[i].node.None?)
  }

  /** Same shards with the same data; those that were assigned in `s` are on the same node in `r`. */
  ghost predicate KeepsNodes(s: seq<Entry>, r: seq<Entry>) {
    |r| == |s|
    && forall i | 0 <= i < |s| ::
         && r[i].id == s[i].id && r[i].data == s[i].data
         && (s[i].status == ASSIGNED ==> r[i].node == s[i].node && r[i].status == ASSIGNED)
  }

  lemma {:induction false} ApplyKeepsConsistent(s: seq<Entry>, allocations: seq<Allocation>)
    requires Consistent(s)
    ensures Consistent(Apply(s, allocations).0) && EntryIds(Apply(s, allocations).0) == EntryIds(s)
    decreases |allocations|
  {
    if allocations != [] {
      if allocations[0].node.None? {
        ApplyKeepsConsistent(s, allocations[1..]);
      } else {
        var k := FirstWith(s, allocations[0].task);
        if k < |s| {
          ApplyKeepsConsistent(s[k := s[k].(node := allocations[0].node, status := ASSIGNED)], allocations[1..]);
        }
      }
    }
  }

  predicate Places(a: Allocation, id: ShardId) {
    a.node.Some? && a.task == id
  }

  /** Allocation `a` is the last one that places the shard. */
  ghost predicate LastPlacing(allocations: seq<Allocation>, a: nat, id: ShardId) {
    a < |allocations| && Places(allocations[a], id) && forall b | a < b < |allocations| :: !Places(allocations[b], id)
  }

  lemma SameIdsSameFirst(s: seq<Entry>, r: seq<Entry>, id: ShardId)
    requires |s| == |r| && forall i | 0 <= i < |s| :: s[i].id == r[i].id
    ensures FirstWith(s, id) == FirstWith(r, id)
  {
  }

  /** The loop throws exactly when some result with a node names no shard. */
  lemma {:induction false} ThrowsExactly(s: seq<Entry>, allocations: seq<Allocation>)
    ensures Apply(s, allocations).1
       <==> exists a | 0 <= a < |allocations| :: allocations[a].node.Some? && allocations[a].task !in EntryIds(s)
    decreases |allocations|
  {
    if allocations != [] {
      var first, rest := allocations[0], allocations[1..];
      var k := FirstWith(s, first.task);
      assert first.task in EntryIds(s) <==> k < |s| by {
        assert k < |s| ==> EntryIds(s)[k] == first.task;
      }
      var s' := if first.node.Some? && k < |s| then s[k := s[k].(node := first.node, status := ASSIGNED)] else s;
      assert EntryIds(s') == EntryIds(s);
      ThrowsExactly(s', rest);
      assert forall a | 0 <= a < |rest| :: rest[a] == allocations[a + 1];
      assert forall a | 0 < a < |allocations| :: allocations[a] == rest[a - 1];
    }
  }

  /** When a result throws, those before it have been carried out, and nothing else. */
  lemma {:induction false} ThrowKeepsEarlier(s: seq<Entry>, allocations: seq<Allocation>, b: nat)
    requires b < |allocations| && allocations[b].node.Some? && allocations[b].task !in EntryIds(s)
    requires forall a | 0 <= a < b :: allocations[a].node.Some? ==> allocations[a].task in EntryIds(s)
    ensures !Apply(s, allocations[..b]).1 && Apply(s, allocations) == (Apply(s, allocations[..b]).0, true)
    decreases |allocations|
  {
    var first, rest := allocations[0], allocations[1..];
    var k := FirstWith(s, first.task);
    assert first.task in EntryIds(s) <==> k < |s| by {
      assert k < |s| ==> EntryIds(s)[k] == first.task;
    }
    if b > 0 {
      var s' := if first.node.Some? then s[k := s[k].(node := first.node, status := ASSIGNED)] else s;
      assert EntryIds(s') == EntryIds(s);
      assert allocations[..b][0] == first && allocations[..b][1..] == rest[..b - 1];
      ThrowKeepsEarlier(s', rest, b - 1);
    }
  }

  /** When nothing throws, each shard is put where the last result that places it says, and no other shard changes. */
  lemma {:induction false} ApplyPlaces(s: seq<Entry>, allocations: seq<Allocation>, i: nat)
    requires Distinct(EntryIds(s)) && !Apply(s, allocations).1 && i < |s|
    ensures |Apply(s, allocations).0| == |s|
    ensures forall a: nat | LastPlacing(allocations, a, s[i].id) ::
              Apply(s, allocations).0[i] == s[i].(node := allocations[a].node, status := "assigned")
    ensures (forall a | 0 <= a < |allocations| :: !Places(allocations[a], s[i].id))
        ==> Apply(s, allocations).0[i] == s[i]
    decreases |allocations|
  {
    if allocations != [] {
      var first, rest := allocations[0], allocations[1..];
      var k := FirstWith(s, first.task);
      var s' := if first.node.Some? then s[k := s[k].(node := first.node, status := ASSIGNED)] else s;
      assert EntryIds(s') == EntryIds(s);
      assert s[i].id == first.task ==> k == i by {
        assert EntryIds(s)[i] == s[i].id && (k < |s| ==> EntryIds(s)[k] == first.task);
      }
      ApplyPlaces(s', rest, i);
      assert forall b | 0 <= b < |rest| :: rest[b] == allocations[b + 1];
      if forall b | 0 <= b < |rest| :: !Places(rest[b], s[i].id) {
        assert forall b | 1 <= b < |allocations| :: allocations[b] == rest[b - 1];
      }
      forall a: nat | LastPlacing(allocations, a, s[i].id)
        ensures Apply(s, allocations).0[i] == s[i].(node := allocations[a].node, status := ASSIGNED)
      {
        if a > 0 {
          assert rest[a - 1] == allocations[a];
          assert LastPlacing(rest, a - 1, s'[i].id);
        } else {
          assert forall b | 0 <= b < |rest| :: !Places(rest[b], s[i].id);
        }
      }
    }
  }

  /**
   * No submitted task is, by id, mistaken for an assigned shard that stands earlier in the list; or if
   * it is, there is no node to put it on but the one it is on.
   */
  ghost predicate NoMistake(s: seq<Entry>, tasks: seq<ShardId>, nodes: seq<string>) {
    forall t, n | 0 <= t < |tasks| && 0 <= n < |nodes| :: NotMistaken(s, tasks[t], nodes[n])
  }

  predicate NotMistaken(s: seq<Entry>, task: ShardId, node: string) {
    var k := FirstWith(s, task);
    k == |s| || s[k].status != ASSIGNED || s[k].node == Some(node)
  }

  lemma {:induction false} ApplyKeepsNodes(s: seq<Entry>, tasks: seq<ShardId>, nodes: seq<string>,
                                           allocations: seq<Allocation>, r: seq<Entry>)
    requires NoMistake(s, tasks, nodes) && IsAllocation(tasks, nodes, allocations) && KeepsNodes(s, r)
    ensures KeepsNodes(s, Apply(r, allocations).0)
    decreases |allocations|
  {
    if allocations != [] {
      var Allocation(task, node) := allocations[0];
      assert IsAllocation(tasks, nodes, allocations[1..]) by {
        assert forall a | 0 <= a < |allocations[1..]| :: allocations[1..][a] == allocations[a + 1];
      }
      if node.None? {
        ApplyKeepsNodes(s, tasks, nodes, allocations[1..], r);
      } else {
        SameIdsSameFirst(s, r, task);
        var k := FirstWith(r, task);
        if k < |r| {
          var t :| 0 <= t < |tasks| && tasks[t] == task;
          var n :| 0 <= n < |nodes| && nodes[n] == node.value;
          assert NotMistaken(s, tasks[t], nodes[n]);
          ApplyKeepsNodes(s, tasks, nodes, allocations[1..], r[k := r[k].(node := node, status := ASSIGNED)]);
        }
      }
    }
  }

  /**
   * Whatever the allocator answers, assigned shards keep their nodes: this holds exactly when no
   * submitted id is mistaken for an assigned shard.
   */
  lemma AssignedShardsKeepTheirNodes(s: seq<Entry>, tasks: seq<ShardId>, nodes: seq<string>)
    ensures NoMistake(s, tasks, nodes)
       <==> forall allocations | IsAllocation(tasks, nodes, allocations) :: KeepsNodes(s, Apply(s, allocations).0)
  {
    if NoMistake(s, tasks, nodes) {
      forall allocations | IsAllocation(tasks, nodes, allocations)
        ensures KeepsNodes(s, Apply(s, allocations).0)
      {
        ApplyKeepsNodes(s, tasks, nodes, allocations, s);
      }
    } else {
      var t, n :| 0 <= t < |tasks| && 0 <= n < |nodes| && !NotMistaken(s, tasks[t], nodes[n]);
      var k, one := FirstWith(s, tasks[t]), [Allocation(tasks[t], Some(nodes[n]))];
      assert IsAllocation(tasks, nodes, one);
      var moved := s[k := s[k].(node := Some(nodes[n]), status := ASSIGNED)];
      assert one[1..] == [] && Apply(moved, []) == (moved, false);
      assert Apply(s, one).0 == moved;
      assert moved[k].node != s[k].node;
      assert !KeepsNodes(s, moved);
    }
  }

  /** The failing case: two shards created in one millisecond share an id, and placing the second moves the first. */
  lemma SameMillisecond()
    ensures var id := Created(1700000000000, 0);
            var s := [Entry(id, "x", Some("a"), ASSIGNED), Entry(id, "y", None, UNASSIGNED)];
            && Submitted([s[1]]) == [id] && !NoMistake(s, [id], ["b"])
            && Apply(s, [Allocation(id, Some("b"))]).0 == [Entry(id, "x", Some("b"), ASSIGNED), s[1]]
  {
    var id := Created(1700000000000, 0);
    var s := [Entry(id, "x", Some("a"), ASSIGNED), Entry(id, "y", None, UNASSIGNED)];
    assert [s[1]][1..] == [] && Filter([s[1]], IsUnassigned) == [s[1]];
    assert s[0].id == id && FirstWith(s, id) == 0;
    assert [id][0] == id && ["b"][0] == "b";
    assert !NotMistaken(s, [id][0], ["b"][0]);
    var one := [Allocation(id, Some("b"))];
    assert one[1..] == [];
    var moved := s[0 := s[0].(node := Some("b"), status := ASSIGNED)];
    assert Apply(moved, []) == (moved, false);
  }

  // ----- distributing own shards -----

  function Listed(s: seq<Entry>, which: seq<nat>): (list: seq<Entry>)
    requires forall w | 0 <= w < |which| :: which[w] < |s|
    ensures |list| == |which| && forall w | 0 <= w < |which| :: list[w] == s[which[w]]
  {
    seq(|which|, w requires 0 <= w < |which| => s[which[w]])
  }

  lemma DistinctIdsAreNotMistaken(s: seq<Entry>, which: seq<nat>, nodes: seq<string>)
    requires Distinct(EntryIds(s)) && forall w | 0 <= w < |which| :: which[w] < |s|
    ensures NoMistake(s, Submitted(Listed(s, which)), nodes)
  {
    var list := Listed(s, which);
    var waiting := Filter(list, IsUnassigned);
    FilterSelects(list, IsUnassigned);
    forall t, n | 0 <= t < |waiting| && 0 <= n < |nodes|
      ensures NotMistaken(s, Submitted(list)[t], nodes[n])
    {
      assert waiting[t] in waiting;
      var w :| 0 <= w < |list| && list[w] == waiting[t];
      var k := FirstWith(s, waiting[t].id);
      assert EntryIds(s)[which[w]] == waiting[t].id;
      assert k == which[w] by {
        assert k < |s| ==> EntryIds(s)[k] == waiting[t].id;
      }
    }
  }

  /** Distributing a shard that is already assigned changes nothing, so rebalancing never moves one. */
  lemma AssignedIsNotRedistributed(e: Entry, nodes: seq<string>, s: seq<Entry>, allocations: seq<Allocation>)
    requires e.status == ASSIGNED && IsAllocation(Submitted([e]), nodes, allocations)
    ensures Apply(s, allocations) == (s, false)
  {
    assert forall a | 0 <= a < |allocations| :: allocations[a].task in Submitted([e]);
    FilterNone([e], IsUnassigned);
    assert Submitted([e]) == [];
  }

  lemma KeepsNodesChains(s: seq<Entry>, q: seq<Entry>, r: seq<Entry>)
    requires |s| <= |q| <= |r| && KeepsNodes(s, q[..|s|]) && KeepsNodes(q, r[..|q|])
    ensures KeepsNodes(s, r[..|s|])
  {
    forall i | 0 <= i < |s|
      ensures r[i].id == s[i].id && r[i].data == s[i].data
      ensures s[i].status == ASSIGNED ==> r[i].node == s[i].node && r[i].status == ASSIGNED
    {
      assert q[..|s|][i] == q[i] && r[..|q|][i] == r[i];
    }
  }

  // ----- rebalancing -----

  /** A detected anomaly, and whether its hash is confirmed on the chain. */
  datatype Anomaly = Anomaly(shardId: ShardId, validHash: bool)

  /** What the resource allocator answers at its n-th call for the submitted tasks. */
  type Allocator = (nat, seq<ShardId>) -> seq<Allocation>

  ghost predicate KeepsContract(allocator: Allocator, nodes: seq<string>) {
    forall n, tasks :: IsAllocation(tasks, nodes, allocator(n, tasks))
  }

  /** The loop over the anomalies: the affected shards are distributed one at a time. */
  function Rebalance(s: seq<Entry>, anomalies: seq<Anomaly>, allocator: Allocator, n: nat): (seq<Entry>, bool)
    decreases |anomalies|
  {
    if anomalies == [] then (s, false)
    else
      var k := FirstWith(s, anomalies[0].shardId);
      if !anomalies[0].validHash || k == |s| then Rebalance(s, anomalies[1..], allocator, n)
      else
        var r := Apply(s, allocator(n, Submitted([s[k]])));
        if r.1 then r else Rebalance(r.0, anomalies[1..], allocator, n + 1)
  }

  /** The first shard with this id stands at `k`. */
  ghost predicate IsShardWith(s: seq<Entry>, id: ShardId, k: nat) {
    k < |s| && s[k].id == id && forall i | 0 <= i < k :: s[i].id != id
  }

  /** The answer to the n-th request, made for the shard at `k` if it waits and for nothing if it does not. */
  function AnswerFor(s: seq<Entry>, k: nat, allocator: Allocator, n: nat): seq<Allocation>
    requires k < |s|
  {
    allocator(n, if s[k].status == UNASSIGNED then [s[k].id] else [])
  }

  /**
   * What one anomaly does when nothing throws, `n` requests having been made before: a confirmed one that
   * names a shard makes one request and carries out the answer, any other does nothing.
   */
  ghost predicate AnomalyStep(s: seq<Entry>, n: nat, a: Anomaly, allocator: Allocator, s': seq<Entry>, n': nat) {
    if a.validHash && exists k :: IsShardWith(s, a.shardId, k)
    then
      && n' == n + 1
      && exists k | IsShardWith(s, a.shardId, k) :: Apply(s, AnswerFor(s, k, allocator, n)) == (s', false)
    else n' == n && s' == s
  }

  /** The states and request counts before, between and after the anomalies. */
  ghost predicate IsMonitoring(trace: seq<(seq<Entry>, nat)>, anomalies: seq<Anomaly>, allocator: Allocator) {
    |trace| == |anomalies| + 1
    && forall i | 0 <= i < |anomalies| ::
         AnomalyStep(trace[i].0, trace[i].1, anomalies[i], allocator, trace[i + 1].0, trace[i + 1].1)
  }

  lemma MonitorsAfter(s: seq<Entry>, n: nat, anomalies: seq<Anomaly>, allocator: Allocator, rest: seq<(seq<Entry>,
                      nat)>)
    requires anomalies != [] && IsMonitoring(rest, anomalies[1..], allocator)
    requires AnomalyStep(s, n, anomalies[0], allocator, rest[0].0, rest[0].1)
    ensures IsMonitoring([(s, n)] + rest, anomalies, allocator)
  {
    var trace := [(s, n)] + rest;
    forall i | 0 <= i < |anomalies|
      ensures AnomalyStep(trace[i].0, trace[i].1, anomalies[i], allocator, trace[i + 1].0, trace[i + 1].1)
    {
      if i > 0 {
        assert trace[i] == rest[i - 1] && trace[i + 1] == rest[i] && anomalies[i] == anomalies[1..][i - 1];
      }
    }
  }

  /** A rebalancing that does not throw goes through the anomalies in order, asking the allocator each time. */
  lemma {:induction false} RebalanceIsMonitoring(s: seq<Entry>, anomalies: seq<Anomaly>, allocator: Allocator, n: nat)
    returns (trace: seq<(seq<Entry>, nat)>)
    requires !Rebalance(s, anomalies, allocator, n).1
    ensures IsMonitoring(trace, anomalies, allocator)
    ensures trace[0] == (s, n) && trace[|anomalies|].0 == Rebalance(s, anomalies, allocator, n).0
    decreases |anomalies|
  {
    if anomalies == [] {
      trace := [(s, n)];
    } else {
      var a := anomalies[0];
      var k := FirstWith(s, a.shardId);
      var next := (s, n);
      if a.validHash && k < |s| {
        SubmittedIsExact(s[k], [], []);
        assert IsShardWith(s, a.shardId, k);
        next := (Apply(s, AnswerFor(s, k, allocator, n)).0, n + 1);
      }
      assert AnomalyStep(s, n, a, allocator, next.0, next.1);
      var rest := RebalanceIsMonitoring(next.0, anomalies[1..], allocator, next.1);
      MonitorsAfter(s, n, anomalies, allocator, rest);
      trace := [(s, n)] + rest;
    }
  }

  /** Rebalancing places shards that wait and never moves one that is assigned. */
  lemma {:induction false} RebalanceKeepsNodes(s: seq<Entry>, anomalies: seq<Anomaly>, allocator: Allocator, n: nat,
                                               nodes: seq<string>)
    requires Consistent(s) && Distinct(EntryIds(s)) && KeepsContract(allocator, nodes)
    ensures var r := Rebalance(s, anomalies, allocator, n).0;
            Consistent(r) && EntryIds(r) == EntryIds(s) && KeepsNodes(s, r)
    decreases |anomalies|
  {
    if anomalies != [] {
      var k := FirstWith(s, anomalies[0].shardId);
      if !anomalies[0].validHash || k == |s| {
        RebalanceKeepsNodes(s, anomalies[1..], allocator, n, nodes);
      } else {
        var tasks := Submitted([s[k]]);
        var q := Apply(s, allocator(n, tasks));
        assert Listed(s, [k]) == [s[k]];
        ApplyKeepsConsistent(s, allocator(n, tasks));
        DistinctIdsAreNotMistaken(s, [k], nodes);
        assert IsAllocation(tasks, nodes, allocator(n, tasks));
        ApplyKeepsNodes(s, tasks, nodes, allocator(n, tasks), s);
        if !q.1 {
          var r := Rebalance(q.0, anomalies[1..], allocator, n + 1).0;
          RebalanceKeepsNodes(q.0, anomalies[1..], allocator, n + 1, nodes);
          assert |r| == |EntryIds(r)| == |EntryIds(s)| == |s|;
          assert q.0[..|s|] == q.0 && r[..|q.0|] == r && r[..|s|] == r;
          KeepsNodesChains(s, q.0, r);
        }
      }
    }
  }

  /** Results that all name one shard change no other; it is placed if any of them has a node. */
  lemma {:induction false} ApplyToOne(s: seq<Entry>, k: nat, allocations: seq<Allocation>)
    requires Distinct(EntryIds(s)) && k < |s| && forall a | 0 <= a < |allocations| :: allocations[a].task == s[k].id
    ensures var r := Apply(s, allocations);
            && !r.1 && |r.0| == |s| && (forall i | 0 <= i < |s| && i != k :: r.0[i] == s[i])
            && if SomeNode(allocations) then r.0[k].id == s[k].id && r.0[k].status == ASSIGNED else r.0[k] == s[k]
    decreases |allocations|
  {
    if allocations != [] {
      var first, rest := allocations[0], allocations[1..];
      assert forall a | 0 <= a < |rest| :: rest[a] == allocations[a + 1];
      assert FirstWith(s, first.task) == k by {
        var f := FirstWith(s, first.task);
        assert f <= k && EntryIds(s)[f] == EntryIds(s)[k];
      }
      var s' := if first.node.Some? then s[k := s[k].(node := first.node, status := ASSIGNED)] else s;
      assert EntryIds(s') == EntryIds(s);
      ApplyToOne(s', k, rest);
      SomeNodeOfRest(allocations);
    }
  }

  ghost predicate SomeNode(allocations: seq<Allocation>) {
    exists a | 0 <= a < |allocations| :: allocations[a].node.Some?
  }

  lemma SomeNodeOfRest(allocations: seq<Allocation>)
    requires allocations != []
    ensures SomeNode(allocations) <==> allocations[0].node.Some? || SomeNode(allocations[1..])
  {
    var rest := allocations[1..];
    assert forall a | 0 <= a < |rest| :: rest[a] == allocations[a + 1];
    assert forall a | 0 < a < |allocations| :: allocations[a] == rest[a - 1];
  }

  /** A confirmed anomaly names this shard. */
  ghost predicate Affected(anomalies: seq<Anomaly>, id: ShardId) {
    exists a | 0 <= a < |anomalies| :: anomalies[a].validHash && anomalies[a].shardId == id
  }

  lemma AffectedByRest(anomalies: seq<Anomaly>, id: ShardId)
    requires anomalies != []
    ensures Affected(anomalies, id)
       <==> (anomalies[0].validHash && anomalies[0].shardId == id) || Affected(anomalies[1..], id)
  {
    var rest := anomalies[1..];
    assert forall a | 0 <= a < |rest| :: rest[a] == anomalies[a + 1];
    assert forall a | 0 < a < |anomalies| :: anomalies[a] == rest[a - 1];
  }

  /** The allocator finds a node for whatever single task it is given. */
  ghost predicate AlwaysPlaces(allocator: Allocator) {
    forall n, id :: SomeNode(allocator(n, [id]))
  }

  lemma OneTaskPerResult(tasks: seq<ShardId>, nodes: seq<string>, allocations: seq<Allocation>)
    requires IsAllocation(tasks, nodes, allocations)
    ensures allocations != [] ==> tasks != []
  {
    if allocations != [] {
      assert allocations[0].task in tasks;
    }
  }

  /** What distributing one own shard does. */
  lemma DistributeOne(s: seq<Entry>, k: nat, allocations: seq<Allocation>, nodes: seq<string>)
    requires Distinct(EntryIds(s)) && k < |s| && IsAllocation(Submitted([s[k]]), nodes, allocations)
    ensures var r := Apply(s, allocations);
            && !r.1 && |r.0| == |s| && EntryIds(r.0) == EntryIds(s)
            && (forall i | 0 <= i < |s| && i != k :: r.0[i] == s[i])
            && (s[k].status != UNASSIGNED ==> r.0[k] == s[k])
            && (s[k].status == UNASSIGNED && SomeNode(allocations) ==> r.0[k].status == ASSIGNED)
  {
    var tasks := Submitted([s[k]]);
    assert [s[k]][1..] == [];
    if s[k].status == UNASSIGNED {
      assert Filter([s[k]], IsUnassigned) == [s[k]];
      assert tasks == EntryIds([s[k]]);
      assert forall a | 0 <= a < |allocations| :: allocations[a].task in tasks;
      ApplyToOne(s, k, allocations);
    } else {
      assert Filter([s[k]], IsUnassigned) == [];
      OneTaskPerResult(tasks, nodes, allocations);
    }
  }

  /**
   * Rebalancing with distinct ids never throws, changes only waiting shards that a confirmed anomaly
   * names, and places every one of those when the allocator always finds a node.
   */
  lemma {:induction false} RebalanceIsExact(s: seq<Entry>, anomalies: seq<Anomaly>, allocator: Allocator, n: nat,
                                            nodes: seq<string>, i: nat)
    requires Consistent(s) && Distinct(EntryIds(s)) && KeepsContract(allocator, nodes) && i < |s|
    ensures var r := Rebalance(s, anomalies, allocator, n);
            && !r.1 && |r.0| == |s|
            && (s[i].status == ASSIGNED || !Affected(anomalies, s[i].id) ==> r.0[i] == s[i])
            && (Affected(anomalies, s[i].id) && AlwaysPlaces(allocator) ==> r.0[i].status == ASSIGNED)
    decreases |anomalies|
  {
    if anomalies != [] {
      AffectedByRest(anomalies, s[i].id);
      var k := FirstWith(s, anomalies[0].shardId);
      if !anomalies[0].validHash || k == |s| {
        RebalanceIsExact(s, anomalies[1..], allocator, n, nodes, i);
      } else {
        var allocations := allocator(n, Submitted([s[k]]));
        var q := Apply(s, allocations).0;
        assert IsAllocation(Submitted([s[k]]), nodes, allocations);
        DistributeOne(s, k, allocations, nodes);
        ApplyKeepsConsistent(s, allocations);
        assert q[i].id == EntryIds(q)[i] == EntryIds(s)[i] == s[i].id;
        if s[k].status == UNASSIGNED {
          assert [s[k]][1..] == [] && Submitted([s[k]]) == [s[k].id];
        }
        assert s[i].id == anomalies[0].shardId ==> i == k by {
          assert EntryIds(s)[k] == anomalies[0].shardId && EntryIds(s)[i] == s[i].id;
        }
        RebalanceIsExact(q, anomalies[1..], allocator, n + 1, nodes, i);
      }
    }
  }

  // ----- runs -----

  datatype Operation =
    | Create(shards: seq<Entry>)
    | Distribute(which: seq<nat>, allocations: seq<Allocation>)
    | Monitor(anomalies: seq<Anomaly>, allocator: Allocator)

  /**
   * New shards are unassigned and their ids are new; distribution is of own shards; the allocator keeps
   * its contract in distributing and in rebalancing.
   */
  ghost predicate Allowed(s: seq<Entry>, nodes: seq<string>, op: Operation) {
    match op
    case Create(shards) =>
      && Distinct(EntryIds(s) + EntryIds(shards))
      && (forall i | 0 <= i < |shards| :: shards[i].node == None && shards[i].status == UNASSIGNED)
    case Distribute(which, allocations) =>
      && (forall w | 0 <= w < |which| :: which[w] < |s|)
      && IsAllocation(Submitted(Listed(s, which)), nodes, allocations)
    case Monitor(_, allocator) => KeepsContract(allocator, nodes)
  }

  function Step(s: seq<Entry>, op: Operation): seq<Entry> {
    match op
    case Create(shards) => s + shards
    case Distribute(_, allocations) => Apply(s, allocations).0
    case Monitor(anomalies, allocator) => Rebalance(s, anomalies, allocator, 0).0
  }

  ghost predicate IsRun(trace: seq<seq<Entry>>, nodes: seq<string>, ops: seq<Operation>) {
    |trace| == |ops| + 1
    && forall i | 0 <= i < |ops| :: Allowed(trace[i], nodes, ops[i]) && trace[i + 1] == Step(trace[i], ops[i])
  }

  lemma StepKeeps(s: seq<Entry>, nodes: seq<string>, op: Operation)
    requires Consistent(s) && Distinct(EntryIds(s)) && Allowed(s, nodes, op)
    ensures Consistent(Step(s, op)) && Distinct(EntryIds(Step(s, op)))
    ensures |s| <= |Step(s, op)| && KeepsNodes(s, Step(s, op)[..|s|])
  {
    match op
    case Create(shards) =>
      assert EntryIds(s + shards) == EntryIds(s) + EntryIds(shards);
    case Distribute(which, allocations) =>
      ApplyKeepsConsistent(s, allocations);
      DistinctIdsAreNotMistaken(s, which, nodes);
      ApplyKeepsNodes(s, Submitted(Listed(s, which)), nodes, allocations, s);
      assert Step(s, op)[..|s|] == Step(s, op);
    case Monitor(anomalies, allocator) =>
      RebalanceKeepsNodes(s, anomalies, allocator, 0, nodes);
      assert Step(s, op)[..|s|] == Step(s, op);
  }

  /**
   * Over every run of creating, distributing and rebalancing: a shard is assigned exactly when it has a
   * node, and a shard once assigned keeps that node for the rest of the run.
   */
  lemma {:induction false} RunKeepsAssignments(trace: seq<seq<Entry>>, nodes: seq<string>, ops: seq<Operation>, i: nat,
                                               j: nat)
    requires IsRun(trace, nodes, ops) && Consistent(trace[0]) && Distinct(EntryIds(trace[0])) && i <= j < |trace|
    ensures Consistent(trace[j]) && Distinct(EntryIds(trace[j]))
    ensures |trace[i]| <= |trace[j]| && KeepsNodes(trace[i], trace[j][..|trace[i]|])
    decreases j
  {
    if j > 0 {
      RunKeepsAssignments(trace, nodes, ops, 0, j - 1);
      assert Allowed(trace[j - 1], nodes, ops[j - 1]);
      StepKeeps(trace[j - 1], nodes, ops[j - 1]);
    }
    if i < j {
      RunKeepsAssignments(trace, nodes, ops, i, j - 1);
      KeepsNodesChains(trace[i], trace[j - 1], trace[j]);
    } else {
      assert trace[j][..|trace[j]|] == trace[j];
    }
  }
}
