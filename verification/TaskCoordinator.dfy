/** The coordinator object: its queue, its status log, and the nodes it hands tasks to. */
module TaskCoordinator {
  import opened Sequences
  import opened StableSort
  import opened Nodes
  import opened TaskQueue

  datatype Status = Completed | Failed

  class Coordinator {
    var taskQueue: seq<Task>
    var statusLog: seq<(Task, Status)>

    constructor ()
      ensures taskQueue == QueueAfter([]) && statusLog == []
    {
      taskQueue, statusLog := [], [];
    }

    method AddTask(task: Task)
      modifies this`taskQueue
      ensures taskQueue == Sort(old(taskQueue) + [task], Ranks)
      ensures Prioritized(taskQueue) && KeepsArrival(old(taskQueue) + [task], taskQueue)
      ensures multiset(taskQueue) == multiset(old(taskQueue)) + multiset{task}
      ensures forall events :: old(taskQueue) == QueueAfter(events) ==> taskQueue == QueueAfter(events + [Add(task)])
    {
      ghost var before := taskQueue;
      taskQueue := taskQueue + [task];
      PrioritizeTasks();
      forall events | before == QueueAfter(events)
        ensures taskQueue == QueueAfter(events + [Add(task)])
      {
        assert (events + [Add(task)])[..|events|] == events;
      }
    }

    method PrioritizeTasks()
      modifies this`taskQueue
      ensures taskQueue == Sort(old(taskQueue), Ranks)
      ensures Prioritized(taskQueue) && KeepsArrival(old(taskQueue), taskQueue)
      ensures multiset(taskQueue) == multiset(old(taskQueue))
    {
      SortPrioritizes(taskQueue);
      taskQueue := Sort(taskQueue, Ranks);
    }

    method RemoveTask(taskId: string)
      modifies this`taskQueue
      ensures taskQueue == Filter(old(taskQueue), HasOtherId(taskId))
      ensures forall events ::
                old(taskQueue) == QueueAfter(events) ==> taskQueue == QueueAfter(events + [Remove(taskId)])
      ensures forall t :: t in taskQueue <==> t in old(taskQueue) && t.id != taskId
    {
      FilterSelects(taskQueue, HasOtherId(taskId));
      ghost var before := taskQueue;
      taskQueue := Filter(taskQueue, HasOtherId(taskId));
      forall events | before == QueueAfter(events)
        ensures taskQueue == QueueAfter(events + [Remove(taskId)])
      {
        assert (events + [Remove(taskId)])[..|events|] == events;
      }
    }

    /** Runs a task to its end, `succeeds` telling how; either way it is logged and leaves the queue. */
    method ExecuteTask(task: Task, succeeds: bool)
      modifies this
      ensures statusLog == old(statusLog) + [(task, if succeeds then Completed else Failed)]
      ensures forall events ::
                old(taskQueue) == QueueAfter(events) ==> taskQueue == QueueAfter(events + [Remove(task.id)])
      ensures forall t :: t in taskQueue <==> t in old(taskQueue) && t.id != task.id
    {
      statusLog := statusLog + [(task, if succeeds then Completed else Failed)];
      RemoveTask(task.id);
    }

    /** One pass over the nodes; each one with free capacity takes the first task not yet taken. */
    method AllocateTasks(nodes: seq<Node>) returns (allocation: map<string, string>)
      requires Distinct(nodes)
      modifies nodes`availableCapacity
      ensures var r := Allocate(taskQueue, NodeIds(nodes), old(Capacities(nodes)));
              allocation == r.allocation && Capacities(nodes) == r.caps
      ensures forall n | n in nodes :: n.utilization == old(n.utilization)
    {
      allocation := map[];
      ghost var caps, ids, queue := Capacities(nodes), NodeIds(nodes), taskQueue;
      for i := 0 to |nodes|
        invariant var r := OfferUpTo(queue, ids, caps, i);
                  allocation == r.allocation && Capacities(nodes) == r.caps
      {
        allocation := OfferTo(nodes, i, allocation, OfferUpTo(queue, ids, caps, i).grants);
      }
    }

    /** The turn of one node. */
    method OfferTo(nodes: seq<Node>, i: nat, allocation: map<string, string>, ghost grants: nat)
      returns (allocation': map<string, string>)
      requires Distinct(nodes) && i < |nodes|
      modifies nodes`availableCapacity
      ensures var r := Offer(taskQueue, NodeIds(nodes), Round(allocation, old(Capacities(nodes)), grants), i);
              allocation' == r.allocation && Capacities(nodes) == r.caps
    {
      var node := nodes[i];
      ghost var caps := Capacities(nodes);
      allocation' := allocation;
      var k := FirstOpen(taskQueue, allocation);
      if k < |taskQueue| && node.availableCapacity > 0 {
        allocation' := allocation[taskQueue[k].id := node.id];
        node.availableCapacity := node.availableCapacity - 1;
        assert Capacities(nodes) == caps[i := caps[i] - 1];
      }
    }
  }
}
