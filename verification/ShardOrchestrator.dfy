/** The orchestrator object and the shard objects whose node and status it sets in place. */
module ShardOrchestrator {
  import opened Wrappers
  import opened Sequences
  import opened OrchestratorRuns

  class Shard {
    const id: ShardId
    const data: string
    var node: Option<string>
    var status: string

    constructor (id: ShardId, data: string)
      ensures View() == Entry(id, data, None, UNASSIGNED)
    {
      this.id, this.data := id, data;
      node, status := None, UNASSIGNED;
    }

    function View(): Entry
      reads this
    {
      Entry(id, data, node, status)
    }
  }

  function Views(shards: seq<Shard>): (r: seq<Entry>)
    reads shards
    ensures |r| == |shards| && forall i | 0 <= i < |r| :: r[i] == shards[i].View()
  {
    seq(|shards|, i requires 0 <= i < |shards| reads shards => shards[i].View())
  }

  lemma ViewsAppend(xs: seq<Shard>, ys: seq<Shard>)
    ensures Views(xs + ys) == Views(xs) + Views(ys)
  {
  }

  /**
   * The entries that creating `count` shards makes: encrypted segments, unassigned. `time(i)` is the clock at
   * the i-th.
   */
  function NewEntries(data: string, count: nat, time: nat -> nat, encrypt: string -> string, n: nat): (r: seq<Entry>)
    requires n <= count
    ensures |r| == n
    ensures forall i | 0 <= i < n ::
              r[i] == Entry(Created(time(i), i), encrypt(SplitData(data, count, i)), None, UNASSIGNED)
  {
    seq(n, i requires 0 <= i < n => Entry(Created(time(i), i), encrypt(SplitData(data, count, i)), None, UNASSIGNED))
  }

  lemma NewShardsAre(created: seq<Shard>, data: string, count: nat, time: nat -> nat, encrypt: string -> string)
    requires Views(created) == NewEntries(data, count, time, encrypt, count)
    ensures |created| == count
    ensures forall i | 0 <= i < count ::
              && created[i].id == Created(time(i), i) && created[i].node == None && created[i].status == "unassigned"
              && created[i].data == encrypt(SplitData(data, count, i))
  {
    assert forall i | 0 <= i < count :: Views(created)[i] == created[i].View();
  }

  /** Decrypts the first `n` shards and joins what they hold. */
  function Reassemble(shards: seq<Entry>, decrypt: string -> string, n: nat): string
    requires n <= |shards|
  {
    if n == 0 then "" else Reassemble(shards, decrypt, n - 1) + decrypt(shards[n - 1].data)
  }

  lemma {:induction false} ReassembledPrefix(data: string, count: nat, time: nat -> nat, encrypt: string -> string,
                                             decrypt: string -> string, n: nat)
    requires 0 < count && n <= count && forall x :: decrypt(encrypt(x)) == x
    ensures Reassemble(NewEntries(data, count, time, encrypt, count), decrypt, n) == JoinSegments(data, count, n)
  {
    if n > 0 {
      ReassembledPrefix(data, count, time, encrypt, decrypt, n - 1);
    }
  }

  /** The data can be recovered from the shards created for it. */
  lemma ShardsHoldTheData(data: string, count: nat, time: nat -> nat, encrypt: string -> string,
                                             decrypt: string -> string)
    requires 0 < count && forall x :: decrypt(encrypt(x)) == x
    ensures Reassemble(NewEntries(data, count, time, encrypt, count), decrypt, count) == data
  {
    ReassembledPrefix(data, count, time, encrypt, decrypt, count);
    SegmentsRejoin(data, count);
  }

  /** Ids made at times at which none was made before are new. */
  lemma NewIdsAreNew(s: seq<Entry>, data: string, count: nat, time: nat -> nat, encrypt: string -> string)
    requires Distinct(EntryIds(s))
    requires forall i | 0 <= i < |s| && s[i].id.Created? :: forall k :: s[i].id.time != time(k)
    ensures forall nodes :: Allowed(s, nodes, Create(NewEntries(data, count, time, encrypt, count)))
  {
    var ids := EntryIds(s) + EntryIds(NewEntries(data, count, time, encrypt, count));
    assert Distinct(ids);
  }

  class EnhancedShardOrchestrator {
    var shards: seq<Shard>
    var nodes: seq<string>

    constructor ()
      ensures shards == [] && nodes == []
    {
      shards, nodes := [], [];
    }

    function View(): seq<Entry>
      reads this, shards
    {
      Views(shards)
    }

    method Initialize(initialNodes: seq<string>, existingShards: seq<Shard>)
      modifies this
      ensures nodes == initialNodes && shards == existingShards
      ensures View() == old(Views(existingShards))
    {
      nodes, shards := initialNodes, existingShards;
    }

    /** `time(i)` is the clock in milliseconds when the i-th shard is made. */
    method CreateAndLogShards(data: string, shardCount: nat, time: nat -> nat, encrypt: string -> string)
      returns (created: seq<Shard>)
      modifies this
      ensures Views(created) == NewEntries(data, shardCount, time, encrypt, shardCount)
      ensures shards == old(shards) + created && nodes == old(nodes)
      ensures |created| == shardCount
      ensures forall i | 0 <= i < shardCount ::
                && created[i].id == Created(time(i), i) && created[i].node == None && created[i].status == "unassigned"
                && created[i].data == encrypt(SplitData(data, shardCount, i))
      ensures fresh(created) && Distinct(created) && (Distinct(old(shards)) ==> Distinct(shards))
      ensures View() == Step(old(View()), Create(Views(created)))
    {
      created := MakeShards(data, shardCount, time, encrypt);
      ViewsAppend(shards, created);
      shards := shards + created;
    }

    /** The list of new shard objects. */
    method MakeShards(data: string, shardCount: nat, time: nat -> nat, encrypt: string -> string)
      returns (created: seq<Shard>)
      ensures Views(created) == NewEntries(data, shardCount, time, encrypt, shardCount)
      ensures |created| == shardCount
      ensures forall i | 0 <= i < shardCount ::
                && created[i].id == Created(time(i), i) && created[i].node == None && created[i].status == "unassigned"
                && created[i].data == encrypt(SplitData(data, shardCount, i))
      ensures fresh(created) && Distinct(created)
    {
      created := [];
      for i := 0 to shardCount
        invariant fresh(created) && Distinct(created)
        invariant Views(created) == NewEntries(data, shardCount, time, encrypt, i)
      {
        var shard := new Shard(Created(time(i), i), encrypt(SplitData(data, shardCount, i)));
        assert forall k | 0 <= k < |created| :: created[k] != shard;
        created := created + [shard];
      }
      NewShardsAre(created, data, shardCount, time, encrypt);
    }

    /** `allocator` answers the n-th request; the result tells whether the loop threw. */
    method DistributeShards(list: seq<Shard>, allocator: Allocator, n: nat) returns (threw: bool)
      requires Distinct(shards)
      modifies shards
      ensures (View(), threw) == Apply(old(View()), allocator(n, Submitted(old(Views(list)))))
    {
      var allocations := allocator(n, Submitted(Views(list)));
      threw := false;
      ghost var goal := Apply(View(), allocations);
      for a := 0 to |allocations|
        invariant Apply(View(), allocations[a..]) == goal
      {
        var Allocation(task, node) := allocations[a];
        assert allocations[a..][0] == allocations[a] && allocations[a..][1..] == allocations[a + 1..];
        if node.Some? {
          ghost var before := View();
          var k := FirstWith(View(), task);
          if k == |shards| {
            threw := true;
            return;
          }
          shards[k].node := node;
          shards[k].status := ASSIGNED;
          assert View() == before[k := before[k].(node := node, status := ASSIGNED)];
        }
      }
    }

    method MonitorAndRebalance(anomalies: seq<Anomaly>, allocator: Allocator) returns (threw: bool)
      requires Distinct(shards)
      modifies shards
      ensures (View(), threw) == OrchestratorRuns.Rebalance(old(View()), anomalies, allocator, 0)
      ensures !threw ==>
                exists trace: seq<(seq<Entry>, nat)> ::
                  && IsMonitoring(trace, anomalies, allocator)
                  && trace[0] == (old(View()), 0) && trace[|anomalies|].0 == View()
    {
      ghost var trace: seq<(seq<Entry>, nat)> := [];
      if !OrchestratorRuns.Rebalance(View(), anomalies, allocator, 0).1 {
        trace := RebalanceIsMonitoring(View(), anomalies, allocator, 0);
      }
      threw := false;
      ghost var goal := OrchestratorRuns.Rebalance(View(), anomalies, allocator, 0);
      var n := 0;
      for i := 0 to |anomalies|
        invariant OrchestratorRuns.Rebalance(View(), anomalies[i..], allocator, n) == goal
      {
        var anomaly := anomalies[i];
        assert anomalies[i..][0] == anomaly && anomalies[i..][1..] == anomalies[i + 1..];
        if anomaly.validHash {
          var k := FirstWith(View(), anomaly.shardId);
          if k < |shards| {
            assert Views([shards[k]]) == [View()[k]];
            threw := DistributeShards([shards[k]], allocator, n);
            if threw {
              return;
            }
            n := n + 1;
          }
        }
      }
    }
  }
}
