/** The node objects that the orchestration modules are given and update in place. */
module Nodes {

  class Node {
    const id: string
    var availableCapacity: int
    var utilization: int

    constructor (id: string, availableCapacity: int, utilization: int)
      ensures this.id == id && this.availableCapacity == availableCapacity && this.utilization == utilization
    {
      this.id, this.availableCapacity, this.utilization := id, availableCapacity, utilization;
    }
  }

  function NodeIds(nodes: seq<Node>): seq<string> {
    seq(|nodes|, i requires 0 <= i < |nodes| => nodes[i].id)
  }

  function Capacities(nodes: seq<Node>): seq<int>
    reads nodes
  {
    seq(|nodes|, i requires 0 <= i < |nodes| reads nodes => nodes[i].availableCapacity)
  }

  function Utilizations(nodes: seq<Node>): seq<int>
    reads nodes
  {
    seq(|nodes|, i requires 0 <= i < |nodes| reads nodes => nodes[i].utilization)
  }
}
