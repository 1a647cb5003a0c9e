/** The governance node manager: the registry file and the early-exit signature check. */
module GovernanceManager {
  import opened Wrappers
  import opened Sequences
  import opened Quorum

  class Manager {
    var nodes: seq<GovernanceNode>

    constructor ()
      ensures nodes == Run([])
    {
      nodes := [];
    }

    /** Stops as soon as the quorum is reached. */
    method ValidateSignatures(signatures: seq<Signature>, actionHash: string, verify: Verifier) returns (met: bool)
      ensures met <==> Approved(nodes, signatures, actionHash, verify)
      ensures met <==> nodes != [] && 2 * |Filter(signatures, Accepted(nodes, actionHash, verify))| >= |nodes|
    {
      ApprovedMeansHalf(nodes, signatures, actionHash, verify);
      var requiredQuorum := MajorityQuorum(|nodes|);
      var validSignatures := 0;
      for i := 0 to |signatures|
        invariant validSignatures == ValidCount(nodes, signatures[..i], actionHash, verify)
        invariant nodes != [] ==> validSignatures < requiredQuorum
      {
        var Signature(nodeId, signature) := signatures[i];
        CountNext(nodes, signatures, actionHash, verify, i);
        var publicKey := PublicKey(nodes, nodeId);
        if publicKey.None? || publicKey.value == "" {
          continue;
        }
        var isValid := verify(publicKey.value, actionHash, signature);
        if isValid {
          validSignatures := validSignatures + 1;
        }
        if validSignatures >= requiredQuorum {
          CountGrows(nodes, signatures, actionHash, verify, i + 1);
          return true;
        }
      }
      assert signatures[..|signatures|] == signatures;
      return false;
    }

    method RegisterGovernanceNode(nodeId: string, publicKey: string) returns (r: Result<(), string>)
      modifies this
      ensures nodes == Step(old(nodes), Register(nodeId, publicKey))
      ensures r.Failure? <==> Fails(old(nodes), Register(nodeId, publicKey))
      ensures r.Failure? <==> exists k | 0 <= k < |old(nodes)| :: old(nodes)[k].nodeId == nodeId
      ensures nodes == if r.Success? then old(nodes) + [GovernanceNode(nodeId, publicKey)] else old(nodes)
    {
      if IndexOf(nodes, nodeId) < |nodes| {
        return Failure("Node " + nodeId + " is already registered as a governance node.");
      }
      nodes := nodes + [GovernanceNode(nodeId, publicKey)];
      r := Success(());
    }

    method RemoveGovernanceNode(nodeId: string) returns (r: Result<(), string>)
      modifies this
      ensures nodes == Step(old(nodes), Unregister(nodeId))
      ensures r.Failure? <==> Fails(old(nodes), Unregister(nodeId))
      ensures r.Failure? ==> nodes == old(nodes) && forall k | 0 <= k < |nodes| :: nodes[k].nodeId != nodeId
      ensures r.Success? ==>
                exists k | 0 <= k < |old(nodes)| ::
                  IsNodeOf(old(nodes), nodeId, k) && nodes == old(nodes)[..k] + old(nodes)[k + 1..]
    {
      var nodeIndex := IndexOf(nodes, nodeId);
      if nodeIndex == |nodes| {
        return Failure("Governance node " + nodeId + " not found.");
      }
      assert IsNodeOf(nodes, nodeId, nodeIndex);
      nodes := nodes[..nodeIndex] + nodes[nodeIndex + 1..];
      r := Success(());
    }
  }

  lemma CountNext(nodes: seq<GovernanceNode>, signatures: seq<Signature>, hash: string, verify: Verifier, i: nat)
    requires i < |signatures|
    ensures ValidCount(nodes, signatures[..i + 1], hash, verify)
         == ValidCount(nodes, signatures[..i], hash, verify)
            + if IsValid(nodes, signatures[i], hash, verify) then 1 else 0
  {
    assert signatures[..i + 1] == signatures[..i] + [signatures[i]];
    FilterAppend(signatures[..i], [signatures[i]], Valid(nodes, hash, verify));
    assert [signatures[i]][1..] == [];
  }

  lemma CountGrows(nodes: seq<GovernanceNode>, signatures: seq<Signature>, hash: string, verify: Verifier, i: nat)
    requires i <= |signatures|
    ensures ValidCount(nodes, signatures, hash, verify) >= ValidCount(nodes, signatures[..i], hash, verify)
  {
    assert signatures == signatures[..i] + signatures[i..];
    FilterAppend(signatures[..i], signatures[i..], Valid(nodes, hash, verify));
  }
}
