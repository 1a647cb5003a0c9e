/** Signature counting, quorums, and the governance registry over runs, on values. */
module Quorum {
  import opened Arithmetic
  import opened Wrappers
  import opened Sequences

  datatype GovernanceNode = GovernanceNode(nodeId: string, publicKey: string)

  datatype Signature = Signature(nodeId: string, signature: string)

  /** Signature verification, by public key, action hash and signature. */
  type Verifier = (string, string, string) -> bool

  // ----- looking up keys -----

  /** The position of the first node with this id, or the length of the list. */
  function IndexOf(nodes: seq<GovernanceNode>, nodeId: string): (k: nat)
    ensures k <= |nodes|
    ensures forall i | 0 <= i < k :: nodes[i].nodeId != nodeId
    ensures k < |nodes| ==> nodes[k].nodeId == nodeId
  {
    FirstIndex(nodes, (n: GovernanceNode) => n.nodeId == nodeId)
  }

  function PublicKey(nodes: seq<GovernanceNode>, nodeId: string): Option<string> {
    var k := IndexOf(nodes, nodeId);
    if k < |nodes| then Some(nodes[k].publicKey) else None
  }

  /** Accepted by the manager: the key is found and not the empty string, and the signature verifies. */
  predicate IsValid(nodes: seq<GovernanceNode>, s: Signature, hash: string, verify: Verifier) {
    var key := PublicKey(nodes, s.nodeId);
    key.Some? && key.value != "" && verify(key.value, hash, s.signature)
  }

  /** Accepted by the utilities: the node is found and the signature verifies. */
  predicate IsValidInBatch(nodes: seq<GovernanceNode>, s: Signature, hash: string, verify: Verifier) {
    var key := PublicKey(nodes, s.nodeId);
    key.Some? && verify(key.value, hash, s.signature)
  }

  function Valid(nodes: seq<GovernanceNode>, hash: string, verify: Verifier): Signature -> bool {
    s => IsValid(nodes, s, hash, verify)
  }

  function ValidInBatch(nodes: seq<GovernanceNode>, hash: string, verify: Verifier): Signature -> bool {
    s => IsValidInBatch(nodes, s, hash, verify)
  }

  function ValidCount(nodes: seq<GovernanceNode>, signatures: seq<Signature>, hash: string, verify: Verifier): nat {
    |Filter(signatures, Valid(nodes, hash, verify))|
  }

  // ----- thresholds -----

  function MajorityQuorum(n: nat): nat {
    CeilDiv(n, 2)
  }

  function CalculateQuorum(totalNodes: nat, quorumPercentage: nat := 67): nat {
    CeilDiv(totalNodes * quorumPercentage, 100)
  }

  /** The least number of nodes that is at least the percentage of all. */
  lemma CalculateQuorumIsLeast(n: nat, percentage: nat, k: nat)
    ensures k >= CalculateQuorum(n, percentage) <==> 100 * k >= n * percentage
  {
  }

  /** What the early-exit check decides. */
  predicate Approved(nodes: seq<GovernanceNode>, signatures: seq<Signature>, hash: string, verify: Verifier) {
    nodes != [] && ValidCount(nodes, signatures, hash, verify) >= MajorityQuorum(|nodes|)
  }

  /** What the batch check decides. */
  function ApprovedInBatch(nodes: seq<GovernanceNode>, signatures: seq<Signature>, hash: string,
                           verify: Verifier): bool {
    |Filter(signatures, ValidInBatch(nodes, hash, verify))| >= CalculateQuorum(|nodes|)
  }

  // ----- what the two checks accept -----

  /** Node `k` has this id, and no node before it has. */
  predicate IsNodeOf(nodes: seq<GovernanceNode>, nodeId: string, k: nat) {
    k < |nodes| && nodes[k].nodeId == nodeId && forall i | 0 <= i < k :: nodes[i].nodeId != nodeId
  }

  /** The key of the signature's own node is not empty and verifies it. */
  predicate Accepts(nodes: seq<GovernanceNode>, s: Signature, hash: string, verify: Verifier) {
    exists k | 0 <= k < |nodes| ::
      IsNodeOf(nodes, s.nodeId, k) && nodes[k].publicKey != "" && verify(nodes[k].publicKey, hash, s.signature)
  }

  /** The key of the signature's own node verifies it. */
  predicate AcceptsInBatch(nodes: seq<GovernanceNode>, s: Signature, hash: string, verify: Verifier) {
    exists k | 0 <= k < |nodes| :: IsNodeOf(nodes, s.nodeId, k) && verify(nodes[k].publicKey, hash, s.signature)
  }

  function Accepted(nodes: seq<GovernanceNode>, hash: string, verify: Verifier): Signature -> bool {
    s => Accepts(nodes, s, hash, verify)
  }

  function AcceptedInBatch(nodes: seq<GovernanceNode>, hash: string, verify: Verifier): Signature -> bool {
    s => AcceptsInBatch(nodes, s, hash, verify)
  }

  /** A signature is valid if and only if its own node's key says so. */
  lemma ValidIsAccepted(nodes: seq<GovernanceNode>, s: Signature, hash: string, verify: Verifier)
    ensures IsValid(nodes, s, hash, verify) <==> Accepts(nodes, s, hash, verify)
    ensures IsValidInBatch(nodes, s, hash, verify) <==> AcceptsInBatch(nodes, s, hash, verify)
  {
    var k := IndexOf(nodes, s.nodeId);
    if k < |nodes| {
      assert IsNodeOf(nodes, s.nodeId, k);
    }
    assert forall i: nat | IsNodeOf(nodes, s.nodeId, i) :: i == k;
  }

  /** The early-exit check asks for half of the nodes, and for one node at least. */
  lemma ApprovedMeansHalf(nodes: seq<GovernanceNode>, signatures: seq<Signature>, hash: string, verify: Verifier)
    ensures Approved(nodes, signatures, hash, verify)
       <==> nodes != [] && 2 * |Filter(signatures, Accepted(nodes, hash, verify))| >= |nodes|
  {
    forall s | s in signatures {
      ValidIsAccepted(nodes, s, hash, verify);
    }
    FilterAgrees(signatures, Valid(nodes, hash, verify), Accepted(nodes, hash, verify));
  }

  /** The batch check asks for 67% of the nodes, no more and no less. */
  lemma ApprovedInBatchMeansTwoThirds(nodes: seq<GovernanceNode>, signatures: seq<Signature>, hash: string,
                                      verify: Verifier)
    ensures ApprovedInBatch(nodes, signatures, hash, verify)
       <==> 100 * |Filter(signatures, AcceptedInBatch(nodes, hash, verify))| >= 67 * |nodes|
  {
    forall s | s in signatures {
      ValidIsAccepted(nodes, s, hash, verify);
    }
    FilterAgrees(signatures, ValidInBatch(nodes, hash, verify), AcceptedInBatch(nodes, hash, verify));
    CalculateQuorumIsLeast(|nodes|, 67, |Filter(signatures, AcceptedInBatch(nodes, hash, verify))|);
  }

  // ----- the two checks compared -----

  /**
   * The two checks verify signatures in different ways: the text of the hash with the default padding
   * in the batch, its decoded bytes with another padding in the manager. With a registered node, every
   * list that the batch check approves is approved by the manager exactly when every signature valid
   * in the batch is valid for the manager.
   */
  lemma BatchImpliesMajority(nodes: seq<GovernanceNode>, hash: string, batch: Verifier, manager: Verifier)
    requires nodes != []
    ensures (forall s :: ApprovedInBatch(nodes, s, hash, batch) ==> Approved(nodes, s, hash, manager))
       <==> (forall s :: IsValidInBatch(nodes, s, hash, batch) ==> IsValid(nodes, s, hash, manager))
  {
    if forall s :: IsValidInBatch(nodes, s, hash, batch) ==> IsValid(nodes, s, hash, manager) {
      forall s | ApprovedInBatch(nodes, s, hash, batch)
        ensures Approved(nodes, s, hash, manager)
      {
        FilterWeaker(s, ValidInBatch(nodes, hash, batch), Valid(nodes, hash, manager));
      }
    } else {
      var s :| IsValidInBatch(nodes, s, hash, batch) && !IsValid(nodes, s, hash, manager);
      QuorumOfCopies(nodes, s, hash, batch, manager);
    }
  }

  /** A quorum of copies of a signature that only the batch check accepts. */
  lemma QuorumOfCopies(nodes: seq<GovernanceNode>, s: Signature, hash: string, batch: Verifier, manager: Verifier)
    requires nodes != [] && IsValidInBatch(nodes, s, hash, batch) && !IsValid(nodes, s, hash, manager)
    ensures exists copies :: ApprovedInBatch(nodes, copies, hash, batch) && !Approved(nodes, copies, hash, manager)
  {
    var copies := seq(CalculateQuorum(|nodes|), i => s);
    FilterAll(copies, ValidInBatch(nodes, hash, batch));
    FilterNone(copies, Valid(nodes, hash, manager));
    assert ApprovedInBatch(nodes, copies, hash, batch) && !Approved(nodes, copies, hash, manager);
  }

  /** With no node registered the batch check approves every list, and the manager none. */
  lemma NoNodesRegistered(signatures: seq<Signature>, hash: string, batch: Verifier, manager: Verifier)
    ensures ApprovedInBatch([], signatures, hash, batch) && !Approved([], signatures, hash, manager)
  {
  }

  /** The failing case: a signature over the text of the hash, which the manager checks against its bytes. */
  lemma BatchApprovesAlone()
    ensures var nodes, signatures := [GovernanceNode("a", "ka")], [Signature("a", "over the text")];
            var batch: Verifier := (_, _, signature) => signature == "over the text";
            var manager: Verifier := (_, _, signature) => signature == "over the bytes";
            ApprovedInBatch(nodes, signatures, "0a", batch) && !Approved(nodes, signatures, "0a", manager)
  {
    var nodes, signatures := [GovernanceNode("a", "ka")], [Signature("a", "over the text")];
    var batch: Verifier := (_, _, signature) => signature == "over the text";
    var manager: Verifier := (_, _, signature) => signature == "over the bytes";
    assert nodes[0].nodeId == "a" && IndexOf(nodes, "a") == 0;
    FilterAll(signatures, ValidInBatch(nodes, "0a", batch));
    FilterNone(signatures, Valid(nodes, "0a", manager));
  }

  // ----- signatures and signers -----

  ghost function Ids(nodes: seq<GovernanceNode>): set<string> {
    set i | 0 <= i < |nodes| :: nodes[i].nodeId
  }

  ghost predicate DistinctIds(nodes: seq<GovernanceNode>) {
    forall i, j | 0 <= i < j < |nodes| :: nodes[i].nodeId != nodes[j].nodeId
  }

  ghost function SignersOf(signatures: seq<Signature>): set<string> {
    set i | 0 <= i < |signatures| :: signatures[i].nodeId
  }

  /** The nodes with at least one accepted signature. */
  ghost function Signers(nodes: seq<GovernanceNode>, signatures: seq<Signature>, hash: string,
                         verify: Verifier): set<string> {
    SignersOf(Filter(signatures, Valid(nodes, hash, verify)))
  }

  /** The same for the batch check. */
  ghost function SignersInBatch(nodes: seq<GovernanceNode>, signatures: seq<Signature>, hash: string, verify: Verifier)
    : set<string>
  {
    SignersOf(Filter(signatures, ValidInBatch(nodes, hash, verify)))
  }

  ghost predicate NoRepeat(signatures: seq<Signature>) {
    forall i, j | 0 <= i < j < |signatures| :: signatures[i].nodeId != signatures[j].nodeId
  }

  lemma SignersOfMore(front: seq<Signature>, s: Signature)
    ensures SignersOf(front + [s]) == SignersOf(front) + {s.nodeId}
    ensures NoRepeat(front + [s]) <==> NoRepeat(front) && s.nodeId !in SignersOf(front)
  {
    var all := front + [s];
    assert forall i | 0 <= i < |front| :: all[i] == front[i];
    assert all[|front|] == s;
    forall id
      ensures id in SignersOf(all) <==> id in SignersOf(front) || id == s.nodeId
    {
      if id in SignersOf(front) {
        var i :| 0 <= i < |front| && front[i].nodeId == id;
        assert all[i].nodeId == id;
      }
    }
    if NoRepeat(front) && s.nodeId !in SignersOf(front) {
      assert forall i | 0 <= i < |front| :: front[i].nodeId in SignersOf(front);
    }
  }

  lemma {:induction false} SignersCount(signatures: seq<Signature>)
    ensures |SignersOf(signatures)| <= |signatures|
    ensures |SignersOf(signatures)| == |signatures| <==> NoRepeat(signatures)
  {
    if signatures != [] {
      var n := |signatures| - 1;
      var front, s := signatures[..n], signatures[n];
      assert signatures == front + [s];
      SignersCount(front);
      SignersOfMore(front, s);
      if s.nodeId in SignersOf(front) {
        assert SignersOf(signatures) == SignersOf(front);
      }
    }
  }

  /**
   * The check counts signatures, not signers. The two counts agree exactly when no node has two
   * accepted signatures in the list.
   */
  lemma CountIsSignersExactlyWithoutRepeats(nodes: seq<GovernanceNode>, signatures: seq<Signature>, hash: string,
                                            verify: Verifier)
    ensures |Signers(nodes, signatures, hash, verify)| <= ValidCount(nodes, signatures, hash, verify)
    ensures |Signers(nodes, signatures, hash, verify)| == ValidCount(nodes, signatures, hash, verify)
       <==> NoRepeat(Filter(signatures, Valid(nodes, hash, verify)))
  {
    SignersCount(Filter(signatures, Valid(nodes, hash, verify)));
  }

  /** One of three nodes, listed twice, reaches the majority quorum of two. */
  lemma OneSignerListedTwice()
    ensures var nodes := [GovernanceNode("a", "ka"), GovernanceNode("b", "kb"), GovernanceNode("c", "kc")];
            var twice := [Signature("a", "s"), Signature("a", "s")];
            var verify: Verifier := (_, _, _) => true;
            Approved(nodes, twice, "h", verify) && Signers(nodes, twice, "h", verify) == {"a"}
  {
    var nodes := [GovernanceNode("a", "ka"), GovernanceNode("b", "kb"), GovernanceNode("c", "kc")];
    var twice := [Signature("a", "s"), Signature("a", "s")];
    var verify: Verifier := (_, _, _) => true;
    assert nodes[0].nodeId == "a" && IndexOf(nodes, "a") == 0;
    FilterAll(twice, Valid(nodes, "h", verify));
  }

  lemma {:induction false} IdsCount(nodes: seq<GovernanceNode>)
    requires DistinctIds(nodes)
    ensures |Ids(nodes)| == |nodes|
  {
    if nodes != [] {
      var n := |nodes| - 1;
      IdsCount(nodes[..n]);
      assert Ids(nodes) == Ids(nodes[..n]) + {nodes[n].nodeId};
    }
  }

  /** A check that accepts only signatures of registered nodes. */
  ghost predicate OnlyRegistered(nodes: seq<GovernanceNode>, accepts: Signature -> bool) {
    forall s :: accepts(s) ==> s.nodeId in Ids(nodes)
  }

  lemma ChecksOnlyRegistered(nodes: seq<GovernanceNode>, hash: string, verify: Verifier)
    ensures OnlyRegistered(nodes, Valid(nodes, hash, verify))
    ensures OnlyRegistered(nodes, ValidInBatch(nodes, hash, verify))
  {
    forall s: Signature | PublicKey(nodes, s.nodeId).Some?
      ensures s.nodeId in Ids(nodes)
    {
      assert nodes[IndexOf(nodes, s.nodeId)].nodeId == s.nodeId;
    }
  }

  lemma SignersAreRegistered(nodes: seq<GovernanceNode>, signatures: seq<Signature>, accepts: Signature -> bool)
    requires OnlyRegistered(nodes, accepts)
    ensures SignersOf(Filter(signatures, accepts)) <= Ids(nodes)
  {
    var accepted := Filter(signatures, accepts);
    FilterSelects(signatures, accepts);
    forall i | 0 <= i < |accepted|
      ensures accepted[i].nodeId in Ids(nodes)
    {
      assert accepted[i] in accepted;
    }
  }

  // ----- quorum intersection -----

  lemma Overlap(a: set<string>, b: set<string>, all: set<string>)
    requires a <= all && b <= all
    ensures |a * b| >= |a| + |b| - |all|
  {
    assert |a + b| == |a| + |b| - |a * b|;
    SubsetSize(a + b, all);
  }

  lemma SubsetSize(a: set<string>, b: set<string>)
    requires a <= b
    ensures |a| <= |b|
  {
    assert b == a + (b - a);
  }

  /** Two lists of accepted signatures without repeated signers overlap by what they have beyond n. */
  lemma SignersOverlap(nodes: seq<GovernanceNode>, s: seq<Signature>, t: seq<Signature>,
                       inS: Signature -> bool, inT: Signature -> bool)
    requires DistinctIds(nodes) && OnlyRegistered(nodes, inS) && OnlyRegistered(nodes, inT)
    requires NoRepeat(Filter(s, inS)) && NoRepeat(Filter(t, inT))
    ensures |SignersOf(Filter(s, inS)) * SignersOf(Filter(t, inT))| >= |Filter(s, inS)| + |Filter(t, inT)| - |nodes|
  {
    SignersCount(Filter(s, inS));
    SignersCount(Filter(t, inT));
    SignersAreRegistered(nodes, s, inS);
    SignersAreRegistered(nodes, t, inT);
    IdsCount(nodes);
    Overlap(SignersOf(Filter(s, inS)), SignersOf(Filter(t, inT)), Ids(nodes));
  }

  /** Two approvals without repeated signers share at least 2 * ceil(n / 2) - n of the n nodes. */
  lemma ApprovalsShareNodes(nodes: seq<GovernanceNode>, s: seq<Signature>, t: seq<Signature>, h: string, k: string,
                            verify: Verifier)
    requires DistinctIds(nodes)
    requires NoRepeat(Filter(s, Valid(nodes, h, verify))) && NoRepeat(Filter(t, Valid(nodes, k, verify)))
    requires Approved(nodes, s, h, verify) && Approved(nodes, t, k, verify)
    ensures |Signers(nodes, s, h, verify) * Signers(nodes, t, k, verify)| >= 2 * MajorityQuorum(|nodes|) - |nodes|
  {
    ChecksOnlyRegistered(nodes, h, verify);
    ChecksOnlyRegistered(nodes, k, verify);
    SignersOverlap(nodes, s, t, Valid(nodes, h, verify), Valid(nodes, k, verify));
  }

  /** Under the 67% rule they share more than a third of the nodes. */
  lemma BatchApprovalsShareAThird(nodes: seq<GovernanceNode>, s: seq<Signature>, t: seq<Signature>, h: string,
                                  k: string,
                                  verify: Verifier)
    requires DistinctIds(nodes) && nodes != []
    requires NoRepeat(Filter(s, ValidInBatch(nodes, h, verify))) && NoRepeat(Filter(t, ValidInBatch(nodes, k, verify)))
    requires ApprovedInBatch(nodes, s, h, verify) && ApprovedInBatch(nodes, t, k, verify)
    ensures 3 * |SignersInBatch(nodes, s, h, verify) * SignersInBatch(nodes, t, k, verify)| > |nodes|
  {
    ChecksOnlyRegistered(nodes, h, verify);
    ChecksOnlyRegistered(nodes, k, verify);
    SignersOverlap(nodes, s, t, ValidInBatch(nodes, h, verify), ValidInBatch(nodes, k, verify));
    CalculateQuorumIsLeast(|nodes|, 67, CalculateQuorum(|nodes|));
  }

  /** Every two sets of `q` or more of these nodes have a node in common. */
  ghost predicate QuorumsMeet(nodes: seq<GovernanceNode>, q: nat) {
    forall a, b | a <= Ids(nodes) && b <= Ids(nodes) && |a| >= q && |b| >= q :: a * b != {}
  }

  lemma QuorumsMeetExactly(nodes: seq<GovernanceNode>, q: nat)
    requires DistinctIds(nodes) && q <= |nodes|
    ensures QuorumsMeet(nodes, q) <==> 2 * q > |nodes|
  {
    IdsCount(nodes);
    if 2 * q > |nodes| {
      forall a, b | a <= Ids(nodes) && b <= Ids(nodes) && |a| >= q && |b| >= q
        ensures a * b != {}
      {
        Overlap(a, b, Ids(nodes));
      }
    } else {
      var low, high := nodes[..q], nodes[q..2 * q];
      IdsCount(low);
      IdsCount(high);
      assert Ids(low) <= Ids(nodes) && Ids(high) <= Ids(nodes);
      assert Ids(low) * Ids(high) == {};
    }
  }

  /** Majority approvals are sure to have a node in common exactly when the number of nodes is odd. */
  lemma MajoritiesMeetExactlyWhenOdd(nodes: seq<GovernanceNode>)
    requires DistinctIds(nodes)
    ensures QuorumsMeet(nodes, MajorityQuorum(|nodes|)) <==> |nodes| % 2 == 1
  {
    QuorumsMeetExactly(nodes, MajorityQuorum(|nodes|));
  }

  // ----- the registry over runs -----

  datatype Operation = Register(nodeId: string, publicKey: string) | Unregister(nodeId: string)

  function RemoveAt<T>(xs: seq<T>, k: nat): seq<T>
    requires k < |xs|
  {
    xs[..k] + xs[k + 1..]
  }

  predicate Fails(nodes: seq<GovernanceNode>, op: Operation) {
    match op
    case Register(id, _) => IndexOf(nodes, id) < |nodes|
    case Unregister(id) => IndexOf(nodes, id) == |nodes|
  }

  function Step(nodes: seq<GovernanceNode>, op: Operation): seq<GovernanceNode> {
    if Fails(nodes, op) then nodes
    else match op
      case Register(id, key) => nodes + [GovernanceNode(id, key)]
      case Unregister(id) => RemoveAt(nodes, IndexOf(nodes, id))
  }

  function Run(ops: seq<Operation>): seq<GovernanceNode> {
    if ops == [] then [] else Step(Run(ops[..|ops| - 1]), ops[|ops| - 1])
  }

  lemma Appended(nodes: seq<GovernanceNode>, node: GovernanceNode)
    requires DistinctIds(nodes) && IndexOf(nodes, node.nodeId) == |nodes|
    ensures DistinctIds(nodes + [node]) && Ids(nodes + [node]) == Ids(nodes) + {node.nodeId}
  {
    var after := nodes + [node];
    assert after[|nodes|] == node;
    assert forall i | 0 <= i < |nodes| :: after[i] == nodes[i];
  }

  lemma Removed(nodes: seq<GovernanceNode>, k: nat)
    requires DistinctIds(nodes) && k < |nodes|
    ensures DistinctIds(RemoveAt(nodes, k)) && Ids(RemoveAt(nodes, k)) == Ids(nodes) - {nodes[k].nodeId}
  {
    var after := RemoveAt(nodes, k);
    assert forall i | 0 <= i < |after| :: after[i] == nodes[if i < k then i else i + 1];
    forall i | 0 <= i < |nodes| && i != k
      ensures nodes[i].nodeId in Ids(after)
    {
      assert after[if i < k then i else i - 1] == nodes[i];
    }
  }

  lemma StepKeepsDistinct(nodes: seq<GovernanceNode>, op: Operation)
    requires DistinctIds(nodes)
    ensures DistinctIds(Step(nodes, op))
    ensures forall id :: id in Ids(Step(nodes, op)) <==> (if op.nodeId == id then op.Register? else id in Ids(nodes))
  {
    var k := IndexOf(nodes, op.nodeId);
    assert k < |nodes| ==> nodes[k].nodeId in Ids(nodes);
    match op
    case Register(id, key) =>
      if k == |nodes| {
        Appended(nodes, GovernanceNode(id, key));
      }
    case Unregister(id) =>
      if k < |nodes| {
        Removed(nodes, k);
      }
  }

  /** The last operation on this id registers it. */
  function LastRegisters(ops: seq<Operation>, id: string): bool {
    if ops == [] then false
    else if ops[|ops| - 1].nodeId == id then ops[|ops| - 1].Register?
    else LastRegisters(ops[..|ops| - 1], id)
  }

  /**
   * Over every run from the empty registry, failing operations included, no id is listed twice, and an
   * id is listed exactly when the last operation on it was a registration.
   */
  lemma {:induction false} RegistryOverRuns(ops: seq<Operation>)
    ensures DistinctIds(Run(ops))
    ensures forall id :: id in Ids(Run(ops)) <==> LastRegisters(ops, id)
  {
    if ops != [] {
      RegistryOverRuns(ops[..|ops| - 1]);
      StepKeepsDistinct(Run(ops[..|ops| - 1]), ops[|ops| - 1]);
    }
  }

  /** The key that a registered id has after the operations: that of the registration that succeeded last. */
  function KeyAfter(ops: seq<Operation>, id: string): Option<string> {
    if ops == [] then None
    else
      var before := KeyAfter(ops[..|ops| - 1], id);
      match ops[|ops| - 1]
      case Register(nodeId, key) => if nodeId == id && before.None? then Some(key) else before
      case Unregister(nodeId) => if nodeId == id then None else before
  }

  lemma RegisterAdds(nodes: seq<GovernanceNode>, id: string, key: string, x: GovernanceNode)
    ensures x in Step(nodes, Register(id, key)) <==> x in nodes || (x == GovernanceNode(id, key) && id !in Ids(nodes))
  {
    var k := IndexOf(nodes, id);
    assert k < |nodes| ==> nodes[k].nodeId in Ids(nodes);
  }

  lemma RemoveAtMembers<T>(xs: seq<T>, k: nat, x: T)
    requires k < |xs|
    ensures x in RemoveAt(xs, k) <==> exists i | 0 <= i < |xs| && i != k :: xs[i] == x
  {
    var after := RemoveAt(xs, k);
    if x in after {
      var i :| 0 <= i < |after| && after[i] == x;
      assert xs[if i < k then i else i + 1] == x;
    }
    forall i | 0 <= i < |xs| && i != k && xs[i] == x
      ensures x in after
    {
      assert after[if i < k then i else i - 1] == x;
    }
  }

  lemma UnregisterTakes(nodes: seq<GovernanceNode>, id: string, x: GovernanceNode)
    requires DistinctIds(nodes)
    ensures x in Step(nodes, Unregister(id)) <==> x in nodes && x.nodeId != id
  {
    var k := IndexOf(nodes, id);
    if k < |nodes| {
      RemoveAtMembers(nodes, k, x);
    }
  }

  /** Over every run a node is listed with a key exactly when that key was registered for it and is still in force. */
  lemma {:induction false} KeysOverRuns(ops: seq<Operation>, id: string, key: string)
    ensures GovernanceNode(id, key) in Run(ops) <==> KeyAfter(ops, id) == Some(key)
    ensures id in Ids(Run(ops)) <==> KeyAfter(ops, id).Some?
  {
    if ops != [] {
      var n := |ops| - 1;
      KeysOverRuns(ops[..n], id, key);
      RegistryOverRuns(ops[..n]);
      StepKeepsDistinct(Run(ops[..n]), ops[n]);
      match ops[n]
      case Register(nodeId, k) => RegisterAdds(Run(ops[..n]), nodeId, k, GovernanceNode(id, key));
      case Unregister(nodeId) => UnregisterTakes(Run(ops[..n]), nodeId, GovernanceNode(id, key));
    }
  }

  /** Registering a new node and removing it again leaves the registry as it was. */
  lemma RemoveUndoesRegister(nodes: seq<GovernanceNode>, id: string, key: string)
    requires !Fails(nodes, Register(id, key))
    ensures Step(Step(nodes, Register(id, key)), Unregister(id)) == nodes
  {
    var after := Step(nodes, Register(id, key));
    assert after[|nodes|].nodeId == id;
    assert forall i | 0 <= i < |nodes| :: after[i] == nodes[i];
    assert IndexOf(after, id) == |nodes|;
  }
}
