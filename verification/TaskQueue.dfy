/** The priority queue of the task coordinator and one allocation round, on values. */
module TaskQueue {
  import opened Arithmetic
  import opened Sequences
  import opened StableSort

  datatype Task = Task(id: string, taskType: string, priority: int, payload: string)

  // ----- the order of the queue -----

  /** JavaScript's `<=` on strings: lexicographic by character. */
  function TextLe(a: string, b: string): bool {
    if a == "" then true
    else if b == "" then false
    else if a[0] == b[0] then TextLe(a[1..], b[1..])
    else a[0] < b[0]
  }

  lemma {:induction false} TextLeTotal(a: string, b: string)
    ensures TextLe(a, b) || TextLe(b, a)
    ensures TextLe(a, b) && TextLe(b, a) <==> a == b
  {
    if a != "" && b != "" && a[0] == b[0] {
      TextLeTotal(a[1..], b[1..]);
      assert a == [a[0]] + a[1..] && b == [b[0]] + b[1..];
    }
  }

  lemma {:induction false} TextLeTransitive(a: string, b: string, c: string)
    requires TextLe(a, b) && TextLe(b, c)
    ensures TextLe(a, c)
  {
    if a != "" && b != "" && c != "" && a[0] == b[0] == c[0] {
      TextLeTransitive(a[1..], b[1..], c[1..]);
    }
  }

  /** `a` may stand before `b`: higher priority first, then type in ascending order. */
  function Ranks(a: Task, b: Task): bool {
    a.priority > b.priority || (a.priority == b.priority && TextLe(a.taskType, b.taskType))
  }

  lemma RanksIsPreorder()
    ensures TotalPreorder(Ranks)
  {
    forall a: Task, b: Task
      ensures Ranks(a, b) || Ranks(b, a)
    {
      TextLeTotal(a.taskType, b.taskType);
    }
    forall a: Task, b: Task, c: Task | Ranks(a, b) && Ranks(b, c)
      ensures Ranks(a, c)
    {
      if a.priority == b.priority == c.priority {
        TextLeTransitive(a.taskType, b.taskType, c.taskType);
      }
    }
  }

  /** Two tasks tie exactly when priority and type agree. */
  lemma TiesAgree(a: Task, b: Task)
    ensures Ranks(a, b) && Ranks(b, a) <==> a.priority == b.priority && a.taskType == b.taskType
  {
    TextLeTotal(a.taskType, b.taskType);
  }

  /** The texts first differ at `k`, where `a` has the smaller character. */
  ghost predicate SmallerAt(a: string, b: string, k: nat) {
    k < |a| && k < |b| && a[..k] == b[..k] && a[k] < b[k]
  }

  /** Reads before or like: `a` begins `b`, or has the smaller character where the two first differ. */
  ghost predicate ReadsBefore(a: string, b: string) {
    a <= b || exists k :: SmallerAt(a, b, k)
  }

  lemma {:induction false} TextLeReads(a: string, b: string)
    ensures TextLe(a, b) <==> ReadsBefore(a, b)
  {
    if a != "" && b != "" {
      TextLeReads(a[1..], b[1..]);
      if a[0] == b[0] {
        SameHeadReads(a, b);
      } else if a[0] < b[0] {
        assert SmallerAt(a, b, 0);
      } else {
        assert forall k | 0 < k < |a| && k < |b| :: a[..k][0] != b[..k][0];
      }
    }
  }

  lemma SmallerAfterHead(c: char, s: string, t: string, k: nat)
    ensures SmallerAt(s, t, k) <==> SmallerAt([c] + s, [c] + t, k + 1)
  {
    if k <= |s| && k <= |t| {
      assert ([c] + s)[..k + 1] == [c] + s[..k] && ([c] + t)[..k + 1] == [c] + t[..k];
      assert ([c] + s[..k])[1..] == s[..k] && ([c] + t[..k])[1..] == t[..k];
    }
  }

  lemma PrefixAfterHead(c: char, s: string, t: string)
    ensures s <= t <==> [c] + s <= [c] + t
  {
    assert ([c] + s)[1..] == s && ([c] + t)[1..] == t;
    if |s| <= |t| {
      assert ([c] + t)[..|s| + 1] == [c] + t[..|s|];
    }
  }

  lemma SameHeadReads(a: string, b: string)
    requires a != "" && b != "" && a[0] == b[0]
    ensures ReadsBefore(a, b) <==> ReadsBefore(a[1..], b[1..])
  {
    var s, t := a[1..], b[1..];
    assert a == [a[0]] + s && b == [a[0]] + t;
    PrefixAfterHead(a[0], s, t);
    forall k: nat
      ensures SmallerAt(s, t, k) <==> SmallerAt(a, b, k + 1)
    {
      SmallerAfterHead(a[0], s, t, k);
    }
    if k: nat :| SmallerAt(a, b, k) {
      assert SmallerAt(s, t, k - 1) <==> SmallerAt(a, b, k - 1 + 1);
    }
  }

  /** The most urgent tasks come first, and equally urgent ones by type in ascending order. */
  ghost predicate Prioritized(queue: seq<Task>) {
    forall i, j | 0 <= i < j < |queue| ::
      && queue[i].priority >= queue[j].priority
      && (queue[i].priority == queue[j].priority ==> ReadsBefore(queue[i].taskType, queue[j].taskType))
  }

  lemma SortedIsPrioritized(queue: seq<Task>)
    ensures Sorted(queue, Ranks) <==> Prioritized(queue)
  {
    forall i, j | 0 <= i < j < |queue| {
      TextLeReads(queue[i].taskType, queue[j].taskType);
    }
  }

  function HasRank(priority: int, taskType: string): Task -> bool {
    (t: Task) => t.priority == priority && t.taskType == taskType
  }

  /** Tasks of equal priority and type come in `ys` as they come in `xs`, none lost or repeated. */
  ghost predicate KeepsArrival(xs: seq<Task>, ys: seq<Task>) {
    forall p, t :: Filter(ys, HasRank(p, t)) == Filter(xs, HasRank(p, t))
  }

  lemma TiesKeepArrival(xs: seq<Task>, ys: seq<Task>)
    requires KeepsTies(xs, ys, Ranks)
    ensures KeepsArrival(xs, ys)
  {
    forall p, t
      ensures Filter(ys, HasRank(p, t)) == Filter(xs, HasRank(p, t))
    {
      var like := Task("", t, p, "");
      forall x: Task
        ensures Tied(like, Ranks)(x) == HasRank(p, t)(x)
      {
        TiesAgree(x, like);
      }
      FilterAgrees(xs, Tied(like, Ranks), HasRank(p, t));
      FilterAgrees(ys, Tied(like, Ranks), HasRank(p, t));
      assert Filter(ys, Tied(like, Ranks)) == Filter(xs, Tied(like, Ranks));
    }
  }

  /** What sorting makes of any list of tasks. */
  lemma SortPrioritizes(queue: seq<Task>)
    ensures Prioritized(Sort(queue, Ranks)) && KeepsArrival(queue, Sort(queue, Ranks))
    ensures multiset(Sort(queue, Ranks)) == multiset(queue)
  {
    RanksIsPreorder();
    SortSortsStably(queue, Ranks);
    SortedIsPrioritized(Sort(queue, Ranks));
    TiesKeepArrival(queue, Sort(queue, Ranks));
    SortPermutes(queue, Ranks);
  }

  /** Appending a task and sorting again puts it just before the first task it strictly outranks. */
  lemma {:induction false} AddInserts(queue: seq<Task>, task: Task)
    requires Sorted(queue, Ranks)
    ensures var k := InsertPosition(queue, task, Ranks);
            && Sort(queue + [task], Ranks) == queue[..k] + [task] + queue[k..]
            && (forall i | 0 <= i < k :: Ranks(queue[i], task))
            && (forall i | k <= i < |queue| :: !Ranks(queue[i], task))
  {
    RanksIsPreorder();
    SortOfSorted(queue, Ranks);
    assert (queue + [task])[..|queue|] == queue;
    InsertSplits(queue, task, Ranks);
    var k := InsertPosition(queue, task, Ranks);
    forall i | k <= i < |queue|
      ensures !Ranks(queue[i], task)
    {
      assert i == k || Ranks(queue[k], queue[i]);
      assert !Ranks(queue[k], task);
    }
  }

  // ----- runs of additions and removals -----

  datatype Event = Add(task: Task) | Remove(id: string)

  function HasOtherId(id: string): Task -> bool {
    (t: Task) => t.id != id
  }

  /** The queue after the events, as the coordinator computes it. */
  function QueueAfter(events: seq<Event>): seq<Task> {
    if events == [] then []
    else
      var queue := QueueAfter(events[..|events| - 1]);
      match events[|events| - 1]
      case Add(task) => Sort(queue + [task], Ranks)
      case Remove(id) => Filter(queue, HasOtherId(id))
  }

  /** The tasks that have been added and not removed since, in order of arrival. */
  function Live(events: seq<Event>): seq<Task> {
    if events == [] then []
    else
      var live := Live(events[..|events| - 1]);
      match events[|events| - 1]
      case Add(task) => live + [task]
      case Remove(id) => Filter(live, HasOtherId(id))
  }

  /** At every moment the queue is the stable sort of the live tasks. */
  lemma {:induction false} QueueIsSortedLive(events: seq<Event>)
    ensures QueueAfter(events) == Sort(Live(events), Ranks)
  {
    if events != [] {
      var n := |events| - 1;
      var live := Live(events[..n]);
      QueueIsSortedLive(events[..n]);
      RanksIsPreorder();
      match events[n]
      case Add(task) =>
        SortSortsStably(live, Ranks);
        SortOfSorted(Sort(live, Ranks), Ranks);
        assert (Sort(live, Ranks) + [task])[..|Sort(live, Ranks)|] == Sort(live, Ranks);
        assert (live + [task])[..|live|] == live;
      case Remove(id) =>
        FilterThenSort(live, Ranks, HasOtherId(id));
    }
  }

  /** Over every run: sorted by priority descending then type ascending, and ties in order of arrival. */
  lemma QueueStaysOrdered(events: seq<Event>)
    ensures Sorted(QueueAfter(events), Ranks) && Prioritized(QueueAfter(events))
    ensures KeepsTies(Live(events), QueueAfter(events), Ranks) && KeepsArrival(Live(events), QueueAfter(events))
    ensures multiset(QueueAfter(events)) == multiset(Live(events))
  {
    RanksIsPreorder();
    QueueIsSortedLive(events);
    SortSortsStably(Live(events), Ranks);
    SortPrioritizes(Live(events));
  }

  // ----- one allocation round -----

  /** `allocation[id]` is truthy: an entry whose node id is the empty string counts as absent. */
  predicate Taken(allocation: map<string, string>, id: string) {
    id in allocation && allocation[id] != ""
  }

  /** The first task that is not taken, or the length of the queue. */
  function FirstOpen(queue: seq<Task>, allocation: map<string, string>): (k: nat)
    ensures k <= |queue|
    ensures forall i | 0 <= i < k :: Taken(allocation, queue[i].id)
    ensures k < |queue| ==> !Taken(allocation, queue[k].id)
  {
    FirstIndex(queue, (t: Task) => !Taken(allocation, t.id))
  }

  /** The state of a round: the map so far, the capacities, and how many units have been granted. */
  datatype Round = Round(allocation: map<string, string>, caps: seq<int>, grants: nat)

  function Offer(queue: seq<Task>, nodeIds: seq<string>, r: Round, i: nat): Round
    requires i < |nodeIds| == |r.caps|
  {
    var k := FirstOpen(queue, r.allocation);
    if k < |queue| && r.caps[i] > 0
    then Round(r.allocation[queue[k].id := nodeIds[i]], r.caps[i := r.caps[i] - 1], r.grants + 1)
    else r
  }

  /** The round after the first `k` nodes. */
  function OfferUpTo(queue: seq<Task>, nodeIds: seq<string>, caps: seq<int>, k: nat): (r: Round)
    requires k <= |nodeIds| == |caps|
    ensures |r.caps| == |caps|
  {
    if k == 0 then Round(map[], caps, 0)
    else Offer(queue, nodeIds, OfferUpTo(queue, nodeIds, caps, k - 1), k - 1)
  }

  function Allocate(queue: seq<Task>, nodeIds: seq<string>, caps: seq<int>): (r: Round)
    requires |nodeIds| == |caps|
  {
    OfferUpTo(queue, nodeIds, caps, |caps|)
  }

  // ----- capacity over rounds -----

  /** Every unit of capacity taken is a grant, and no capacity goes below zero. */
  lemma {:induction false} OffersConserve(queue: seq<Task>, nodeIds: seq<string>, caps: seq<int>, k: nat)
    requires k <= |nodeIds| == |caps|
    ensures var r := OfferUpTo(queue, nodeIds, caps, k);
            && Sum(r.caps) + r.grants == Sum(caps)
            && (forall i | 0 <= i < |caps| && caps[i] >= 0 :: r.caps[i] >= 0)
            && (forall i | 0 <= i < |caps| :: r.caps[i] <= caps[i] <= r.caps[i] + 1)
            && (forall i | k <= i < |caps| :: r.caps[i] == caps[i])
  {
    if k > 0 {
      OffersConserve(queue, nodeIds, caps, k - 1);
      var q := OfferUpTo(queue, nodeIds, caps, k - 1);
      SumUpdate(q.caps, k - 1, q.caps[k - 1] - 1);
    }
  }

  /** Capacities and total grants after a sequence of rounds, each with the queue of its own moment. */
  function Rounds(queues: seq<seq<Task>>, nodeIds: seq<string>, caps: seq<int>): (r: (seq<int>, nat))
    requires |nodeIds| == |caps|
    ensures |r.0| == |caps|
  {
    if queues == [] then (caps, 0)
    else
      var before := Rounds(queues[..|queues| - 1], nodeIds, caps);
      var round := Allocate(queues[|queues| - 1], nodeIds, before.0);
      (round.caps, before.1 + round.grants)
  }

  lemma {:induction false} RoundsConserve(queues: seq<seq<Task>>, nodeIds: seq<string>, caps: seq<int>)
    requires |nodeIds| == |caps| && forall i | 0 <= i < |caps| :: caps[i] >= 0
    ensures var r := Rounds(queues, nodeIds, caps);
            Sum(r.0) + r.1 == Sum(caps) && forall i | 0 <= i < |caps| :: r.0[i] >= 0
  {
    if queues != [] {
      var n := |queues| - 1;
      RoundsConserve(queues[..n], nodeIds, caps);
      OffersConserve(queues[n], nodeIds, Rounds(queues[..n], nodeIds, caps).0, |caps|);
    }
  }

  /** The round that `r` becomes when the nodes from `k` on have had their turn. */
  function OfferRest(queue: seq<Task>, nodeIds: seq<string>, r: Round, k: nat): Round
    requires k <= |nodeIds| == |r.caps|
    decreases |nodeIds| - k
  {
    if k == |nodeIds| then r else OfferRest(queue, nodeIds, Offer(queue, nodeIds, r, k), k + 1)
  }

  lemma {:induction false} RestOfRound(queue: seq<Task>, nodeIds: seq<string>, caps: seq<int>, k: nat)
    requires k <= |nodeIds| == |caps|
    ensures OfferRest(queue, nodeIds, OfferUpTo(queue, nodeIds, caps, k), k) == Allocate(queue, nodeIds, caps)
    decreases |caps| - k
  {
    if k < |caps| {
      RestOfRound(queue, nodeIds, caps, k + 1);
    }
  }

  // ----- ids that repeat -----

  /** An earlier task has the id of task `n`. */
  predicate Repeats(queue: seq<Task>, n: nat)
    requires n < |queue|
  {
    exists j | 0 <= j < n :: queue[j].id == queue[n].id
  }

  /** Those of the first `n` tasks whose id has not come before, in order. */
  function FirstsUpTo(queue: seq<Task>, n: nat): (firsts: seq<Task>)
    requires n <= |queue|
  {
    if n == 0 then []
    else FirstsUpTo(queue, n - 1) + if Repeats(queue, n - 1) then [] else [queue[n - 1]]
  }

  /** The tasks that a round can grant: the first one of each id, in queue order. */
  function Firsts(queue: seq<Task>): seq<Task> {
    FirstsUpTo(queue, |queue|)
  }

  lemma {:induction false} FirstsGrow(queue: seq<Task>, a: nat, n: nat)
    requires a <= n <= |queue|
    ensures FirstsUpTo(queue, a) <= FirstsUpTo(queue, n)
    ensures a < n && !Repeats(queue, a) ==>
              && |FirstsUpTo(queue, a)| < |FirstsUpTo(queue, n)|
              && FirstsUpTo(queue, n)[|FirstsUpTo(queue, a)|] == queue[a]
  {
    if a < n {
      FirstsGrow(queue, a, n - 1);
    }
  }

  lemma {:induction false} FirstsCome(queue: seq<Task>, n: nat, f: nat) returns (a: nat)
    requires n <= |queue| && f < |FirstsUpTo(queue, n)|
    ensures a < n && !Repeats(queue, a) && f == |FirstsUpTo(queue, a)| && FirstsUpTo(queue, n)[f] == queue[a]
  {
    if f < |FirstsUpTo(queue, n - 1)| {
      a := FirstsCome(queue, n - 1, f);
    } else {
      a := n - 1;
    }
  }

  lemma {:induction false} FirstOccurrence(queue: seq<Task>, i: nat) returns (a: nat)
    requires i < |queue|
    ensures a <= i && !Repeats(queue, a) && queue[a].id == queue[i].id
  {
    if Repeats(queue, i) {
      var j :| 0 <= j < i && queue[j].id == queue[i].id;
      a := FirstOccurrence(queue, j);
    } else {
      a := i;
    }
  }

  lemma FirstsAreDistinct(queue: seq<Task>)
    ensures DistinctIds(Firsts(queue))
  {
    var firsts := Firsts(queue);
    forall f, g | 0 <= f < g < |firsts|
      ensures firsts[f].id != firsts[g].id
    {
      var a := FirstsCome(queue, |queue|, f);
      var b := FirstsCome(queue, |queue|, g);
      if b <= a {
        FirstsGrow(queue, b, a);
      }
    }
  }

  /**
   * `Firsts` lists each id once; task `i`, if it is the first with its id, stands in it at the number of
   * such tasks before; and every entry `f` is such a task.
   */
  lemma FirstsAreExact(queue: seq<Task>, i: nat, f: nat)
    requires i < |queue| && f < |Firsts(queue)|
    ensures DistinctIds(Firsts(queue))
    ensures !Repeats(queue, i) ==>
              |FirstsUpTo(queue, i)| < |Firsts(queue)| && Firsts(queue)[|FirstsUpTo(queue, i)|] == queue[i]
    ensures exists a | 0 <= a <= i :: !Repeats(queue, a) && queue[a].id == queue[i].id
    ensures exists a | 0 <= a < |queue| ::
              !Repeats(queue, a) && f == |FirstsUpTo(queue, a)| && Firsts(queue)[f] == queue[a]
  {
    FirstsAreDistinct(queue);
    FirstsGrow(queue, i, |queue|);
    var a := FirstOccurrence(queue, i);
    var b := FirstsCome(queue, |queue|, f);
  }

  lemma OpenDoesNotRepeat(queue: seq<Task>, m: map<string, string>)
    ensures var k := FirstOpen(queue, m); k < |queue| ==> !Repeats(queue, k)
  {
  }

  /** The first open task is the first open one among the first tasks of their ids. */
  lemma {:induction false} OpenAmongFirsts(queue: seq<Task>, m: map<string, string>, n: nat)
    requires n <= |queue|
    ensures var k, firsts := FirstOpen(queue, m), FirstsUpTo(queue, n);
            var f := FirstOpen(firsts, m);
            if n <= k then f == |firsts| else f < |firsts| && firsts[f] == queue[k]
  {
    var k := FirstOpen(queue, m);
    if n > 0 {
      OpenAmongFirsts(queue, m, n - 1);
      OpenDoesNotRepeat(queue, m);
      var before, firsts := FirstsUpTo(queue, n - 1), FirstsUpTo(queue, n);
      var f := FirstOpen(before, m);
      assert forall i | 0 <= i < |before| :: firsts[i] == before[i];
      if n <= k {
        FirstOpenAt(firsts, m, |firsts|);
      } else {
        FirstOpenAt(firsts, m, f);
      }
    }
  }

  lemma OfferToFirsts(queue: seq<Task>, nodeIds: seq<string>, r: Round, i: nat)
    requires i < |nodeIds| == |r.caps|
    ensures Offer(queue, nodeIds, r, i) == Offer(Firsts(queue), nodeIds, r, i)
  {
    OpenAmongFirsts(queue, r.allocation, |queue|);
  }

  /** A round goes as if each id were queued once. */
  lemma {:induction false} RoundOfFirsts(queue: seq<Task>, nodeIds: seq<string>, caps: seq<int>, k: nat)
    requires k <= |nodeIds| == |caps|
    ensures OfferUpTo(queue, nodeIds, caps, k) == OfferUpTo(Firsts(queue), nodeIds, caps, k)
  {
    if k > 0 {
      RoundOfFirsts(queue, nodeIds, caps, k - 1);
      OfferToFirsts(queue, nodeIds, OfferUpTo(queue, nodeIds, caps, k - 1), k - 1);
    }
  }

  // ----- which tasks are assigned, and to whom -----

  /** Nodes among the first `k` that have free capacity. */
  function FreeNodes(caps: seq<int>, k: nat): (free: seq<nat>)
    requires k <= |caps|
    ensures |free| <= k
    ensures forall j | 0 <= j < |free| :: free[j] < k && caps[free[j]] > 0
  {
    if k == 0 then []
    else FreeNodes(caps, k - 1) + if caps[k - 1] > 0 then [k - 1] else []
  }

  /** The nodes with free capacity, in node order. */
  ghost predicate AreFree(free: seq<nat>, caps: seq<int>) {
    Ascending(free) && forall i: nat :: i in free <==> i < |caps| && caps[i] > 0
  }

  lemma {:induction false} FreeNodesAscend(caps: seq<int>, k: nat)
    requires k <= |caps|
    ensures Ascending(FreeNodes(caps, k))
  {
    if k > 0 {
      FreeNodesAscend(caps, k - 1);
    }
  }

  lemma {:induction false} FreeNodesHave(caps: seq<int>, k: nat, i: nat)
    requires k <= |caps|
    ensures i in FreeNodes(caps, k) <==> i < k && caps[i] > 0
  {
    if k > 0 {
      FreeNodesHave(caps, k - 1, i);
    }
  }

  lemma {:induction false} FreeNodesAreFree(caps: seq<int>)
    ensures AreFree(FreeNodes(caps, |caps|), caps)
  {
    FreeNodesAscend(caps, |caps|);
    forall i: nat
      ensures i in FreeNodes(caps, |caps|) <==> i < |caps| && caps[i] > 0
    {
      FreeNodesHave(caps, |caps|, i);
    }
  }

  /** The first `g` tasks, one per free node in node order. */
  function Pairing(queue: seq<Task>, nodeIds: seq<string>, free: seq<nat>, g: nat): map<string, string>
    requires g <= |queue| && g <= |free| && forall j | 0 <= j < |free| :: free[j] < |nodeIds|
  {
    if g == 0 then map[]
    else Pairing(queue, nodeIds, free, g - 1)[queue[g - 1].id := nodeIds[free[g - 1]]]
  }

  function TaskIds(queue: seq<Task>): seq<string> {
    seq(|queue|, i requires 0 <= i < |queue| => queue[i].id)
  }

  ghost predicate DistinctIds(queue: seq<Task>) {
    Distinct(TaskIds(queue))
  }

  lemma DifferentIds(queue: seq<Task>)
    requires DistinctIds(queue)
    ensures forall i, j | 0 <= i < j < |queue| :: queue[i].id != queue[j].id
  {
    assert forall i | 0 <= i < |queue| :: queue[i].id == TaskIds(queue)[i];
  }

  lemma {:induction false} PairingEntries(queue: seq<Task>, nodeIds: seq<string>, free: seq<nat>, g: nat)
    requires g <= |queue| && g <= |free| && forall j | 0 <= j < |free| :: free[j] < |nodeIds|
    requires DistinctIds(queue)
    ensures var m := Pairing(queue, nodeIds, free, g);
            && |m| == g
            && (forall j | 0 <= j < |queue| :: queue[j].id in m <==> j < g)
            && (forall j | 0 <= j < g :: m[queue[j].id] == nodeIds[free[j]])
  {
    DifferentIds(queue);
    if g > 0 {
      PairingEntries(queue, nodeIds, free, g - 1);
    }
  }

  lemma {:induction false} PairingIgnoresRest(queue: seq<Task>, nodeIds: seq<string>, free: seq<nat>, more: seq<nat>,
                                              g: nat)
    requires g <= |queue| && g <= |free| && forall j | 0 <= j < |free + more| :: (free + more)[j] < |nodeIds|
    ensures (forall j | 0 <= j < |free| :: free[j] < |nodeIds|)
    ensures Pairing(queue, nodeIds, free + more, g) == Pairing(queue, nodeIds, free, g)
  {
    assert forall j | 0 <= j < |free| :: free[j] == (free + more)[j];
    if g > 0 {
      PairingIgnoresRest(queue, nodeIds, free, more, g - 1);
    }
  }

  lemma FirstOpenAt(queue: seq<Task>, m: map<string, string>, g: nat)
    requires g <= |queue| && forall j | 0 <= j < g :: Taken(m, queue[j].id)
    requires g < |queue| ==> !Taken(m, queue[g].id)
    ensures FirstOpen(queue, m) == g
  {
  }

  lemma PairingOpen(queue: seq<Task>, nodeIds: seq<string>, free: seq<nat>, g: nat)
    requires g <= |queue| && g <= |free| && forall j | 0 <= j < |free| :: free[j] < |nodeIds|
    requires DistinctIds(queue) && "" !in nodeIds
    ensures FirstOpen(queue, Pairing(queue, nodeIds, free, g)) == g
  {
    PairingEntries(queue, nodeIds, free, g);
    var m := Pairing(queue, nodeIds, free, g);
    assert forall j | 0 <= j < g :: Taken(m, queue[j].id) by {
      assert forall j | 0 <= j < g :: nodeIds[free[j]] in nodeIds;
    }
    FirstOpenAt(queue, m, g);
  }

  lemma OfferPairs(queue: seq<Task>, nodeIds: seq<string>, r: Round, i: nat, free: seq<nat>)
    requires i < |nodeIds| == |r.caps| && DistinctIds(queue) && "" !in nodeIds
    requires forall j | 0 <= j < |free| :: free[j] < |nodeIds|
    requires r.allocation == Pairing(queue, nodeIds, free, Min(|free|, |queue|)) && r.grants == Min(|free|, |queue|)
    ensures var free' := free + if r.caps[i] > 0 then [i] else [];
            && (forall j | 0 <= j < |free'| :: free'[j] < |nodeIds|)
            && Offer(queue, nodeIds, r, i).allocation == Pairing(queue, nodeIds, free', Min(|free'|, |queue|))
            && Offer(queue, nodeIds, r, i).grants == Min(|free'|, |queue|)
  {
    var g := Min(|free|, |queue|);
    PairingOpen(queue, nodeIds, free, g);
    if r.caps[i] > 0 {
      PairingIgnoresRest(queue, nodeIds, free, [i], g);
    } else {
      assert free + [] == free;
    }
  }

  /** The allocation pairs the first tasks with the nodes `free`, and each pair is a grant. */
  ghost predicate Paired(queue: seq<Task>, nodeIds: seq<string>, r: Round, free: seq<nat>) {
    && (forall j | 0 <= j < |free| :: free[j] < |nodeIds|)
    && r.allocation == Pairing(queue, nodeIds, free, Min(|free|, |queue|)) && r.grants == Min(|free|, |queue|)
  }

  /** Node `i` gets a task: it has free capacity, and fewer such nodes stand before it than tasks wait. */
  predicate Served(queue: seq<Task>, caps: seq<int>, i: nat)
    requires i < |caps|
  {
    caps[i] > 0 && |FreeNodes(caps, i)| < |queue|
  }

  /** Among the first `k` nodes exactly the served ones have given up one unit; the others are as they were. */
  ghost predicate UnitsTaken(queue: seq<Task>, caps: seq<int>, k: nat, r: Round) {
    k <= |caps| == |r.caps|
    && (forall i | 0 <= i < k :: r.caps[i] == caps[i] - if Served(queue, caps, i) then 1 else 0)
    && (forall i | k <= i < |caps| :: r.caps[i] == caps[i])
  }

  lemma PairNext(queue: seq<Task>, nodeIds: seq<string>, caps: seq<int>, k: nat, r: Round)
    requires k < |nodeIds| == |caps| == |r.caps| && DistinctIds(queue) && "" !in nodeIds && r.caps[k] == caps[k]
    requires Paired(queue, nodeIds, r, FreeNodes(caps, k))
    ensures Paired(queue, nodeIds, Offer(queue, nodeIds, r, k), FreeNodes(caps, k + 1))
  {
    OfferPairs(queue, nodeIds, r, k, FreeNodes(caps, k));
  }

  lemma TakeNext(queue: seq<Task>, nodeIds: seq<string>, caps: seq<int>, k: nat, r: Round)
    requires k < |nodeIds| == |caps| && DistinctIds(queue) && "" !in nodeIds
    requires UnitsTaken(queue, caps, k, r) && Paired(queue, nodeIds, r, FreeNodes(caps, k))
    ensures UnitsTaken(queue, caps, k + 1, Offer(queue, nodeIds, r, k))
  {
    PairingOpen(queue, nodeIds, FreeNodes(caps, k), Min(|FreeNodes(caps, k)|, |queue|));
  }

  lemma {:induction false} RestServes(queue: seq<Task>, nodeIds: seq<string>, caps: seq<int>, k: nat, r: Round,
                                      end: Round)
    requires k <= |nodeIds| == |caps| == |r.caps| && DistinctIds(queue) && "" !in nodeIds
    requires Paired(queue, nodeIds, r, FreeNodes(caps, k)) && UnitsTaken(queue, caps, k, r)
    requires end == OfferRest(queue, nodeIds, r, k)
    ensures Paired(queue, nodeIds, end, FreeNodes(caps, |caps|)) && UnitsTaken(queue, caps, |caps|, end)
    decreases |caps| - k
  {
    if k == |caps| {
      assert end == r;
    } else {
      var next := Offer(queue, nodeIds, r, k);
      assert end == OfferRest(queue, nodeIds, next, k + 1);
      PairNext(queue, nodeIds, caps, k, r);
      TakeNext(queue, nodeIds, caps, k, r);
      RestServes(queue, nodeIds, caps, k + 1, next, end);
    }
  }

  lemma DistinctRoundPairs(queue: seq<Task>, nodeIds: seq<string>, caps: seq<int>)
    requires |nodeIds| == |caps| && DistinctIds(queue) && "" !in nodeIds
    ensures var r := Allocate(queue, nodeIds, caps);
            var free := FreeNodes(caps, |caps|);
            var g := Min(|free|, |queue|);
            && |r.allocation| == r.grants == g
            && (forall j | 0 <= j < |queue| :: queue[j].id in r.allocation <==> j < g)
            && (forall j | 0 <= j < g :: r.allocation[queue[j].id] == nodeIds[free[j]])
            && UnitsTaken(queue, caps, |caps|, r)
  {
    RestOfRound(queue, nodeIds, caps, 0);
    RestServes(queue, nodeIds, caps, 0, Round(map[], caps, 0), Allocate(queue, nodeIds, caps));
    PairingEntries(queue, nodeIds, FreeNodes(caps, |caps|), Min(|FreeNodes(caps, |caps|)|, |queue|));
  }

  /**
   * Of the tasks that are the first with their id, a round gives the first min(nodes with free capacity,
   * number of such tasks), one to each such node in node order, and takes one unit from exactly the
   * nodes it serves.
   */
  lemma RoundPairs(queue: seq<Task>, nodeIds: seq<string>, caps: seq<int>)
    requires |nodeIds| == |caps| && "" !in nodeIds
    ensures var r, tasks := Allocate(queue, nodeIds, caps), Firsts(queue);
            var free := FreeNodes(caps, |caps|);
            var g := Min(|free|, |tasks|);
            && AreFree(free, caps) && |r.allocation| == r.grants == g
            && (forall j | 0 <= j < |tasks| :: tasks[j].id in r.allocation <==> j < g)
            && (forall j | 0 <= j < g :: r.allocation[tasks[j].id] == nodeIds[free[j]])
            && UnitsTaken(tasks, caps, |caps|, r)
  {
    FreeNodesAreFree(caps);
    FirstsAreDistinct(queue);
    RoundOfFirsts(queue, nodeIds, caps, |caps|);
    DistinctRoundPairs(Firsts(queue), nodeIds, caps);
  }

  /** In a sorted queue no task left waiting strictly outranks one that was assigned, taken where its id comes first. */
  lemma NoWaitingTaskOutranks(queue: seq<Task>, nodeIds: seq<string>, caps: seq<int>, a: nat, w: nat)
    requires |nodeIds| == |caps| && "" !in nodeIds && Sorted(queue, Ranks)
    requires a < |queue| && w < |queue| && !Repeats(queue, a)
    requires queue[a].id in Allocate(queue, nodeIds, caps).allocation
    requires queue[w].id !in Allocate(queue, nodeIds, caps).allocation
    ensures Ranks(queue[a], queue[w]) && a < w && queue[a].priority >= queue[w].priority
  {
    RoundPairs(queue, nodeIds, caps);
    var b := FirstOccurrence(queue, w);
    FirstsGrow(queue, a, |queue|);
    FirstsGrow(queue, b, |queue|);
    if b <= a {
      FirstsGrow(queue, b, a);
    }
  }

  // ----- node ids that are the empty string -----

  /** Among the first `k` nodes, those with free capacity whose grant sticks. */
  function Settling(nodeIds: seq<string>, caps: seq<int>, k: nat): nat
    requires k <= |nodeIds| == |caps|
  {
    if k == 0 then 0
    else Settling(nodeIds, caps, k - 1) + if caps[k - 1] > 0 && nodeIds[k - 1] != "" then 1 else 0
  }

  /** A node with the empty id is granted a task, and a later node still has free capacity. */
  predicate Regrants(queue: seq<Task>, nodeIds: seq<string>, caps: seq<int>, i: nat, j: nat)
    requires i < j < |nodeIds| == |caps|
  {
    nodeIds[i] == "" && caps[i] > 0 && Settling(nodeIds, caps, i) < |queue| && caps[j] > 0
  }

  ghost predicate SomeRegrant(queue: seq<Task>, nodeIds: seq<string>, caps: seq<int>, k: nat)
    requires k <= |nodeIds| == |caps|
  {
    exists i, j | 0 <= i < j < k :: Regrants(queue, nodeIds, caps, i, j)
  }

  /** The latest of the first `k` nodes with free capacity has the empty id and was granted a task. */
  predicate Loose(queue: seq<Task>, nodeIds: seq<string>, caps: seq<int>, k: nat)
    requires k <= |nodeIds| == |caps|
  {
    k > 0 && if caps[k - 1] > 0 then nodeIds[k - 1] == "" && Settling(nodeIds, caps, k - 1) < |queue|
             else Loose(queue, nodeIds, caps, k - 1)
  }

  /** Among the first `k` nodes none with free capacity comes right after a loose grant. */
  predicate Clean(queue: seq<Task>, nodeIds: seq<string>, caps: seq<int>, k: nat)
    requires k <= |nodeIds| == |caps|
  {
    k == 0 || (Clean(queue, nodeIds, caps, k - 1) && !(caps[k - 1] > 0 && Loose(queue, nodeIds, caps, k - 1)))
  }

  /** With `m` the first `p` tasks are settled and no other is granted, but for the next one when `loose`. */
  ghost predicate Settled(queue: seq<Task>, m: map<string, string>, p: nat, loose: bool) {
    && p <= |queue| && (loose ==> p < |queue|)
    && (forall j | 0 <= j < p :: Taken(m, queue[j].id))
    && (forall j | p <= j < |queue| :: queue[j].id in m <==> j == p && loose)
    && (loose ==> queue[p].id in m && m[queue[p].id] == "")
  }

  /** A node with free capacity settles the first open task, or holds it loosely when its id is empty. */
  lemma GrantSettles(queue: seq<Task>, m: map<string, string>, p: nat, loose: bool, nodeId: string)
    requires DistinctIds(queue) && Settled(queue, m, p, loose) && p < |queue|
    ensures Settled(queue, m[queue[p].id := nodeId], if nodeId == "" then p else p + 1, nodeId == "")
    ensures |m[queue[p].id := nodeId]| == if loose then |m| else |m| + 1
  {
    DifferentIds(queue);
  }

  lemma OfferGrants(queue: seq<Task>, nodeIds: seq<string>, r: Round, i: nat, p: nat, loose: bool)
    requires i < |nodeIds| == |r.caps| && Settled(queue, r.allocation, p, loose)
    ensures Offer(queue, nodeIds, r, i)
         == if p < |queue| && r.caps[i] > 0
            then Round(r.allocation[queue[p].id := nodeIds[i]], r.caps[i := r.caps[i] - 1], r.grants + 1) else r
  {
    FirstOpenAt(queue, r.allocation, p);
  }

  /** Round `r` is what the first `k` nodes lead to, in terms of the nodes alone. */
  ghost predicate SettledAfter(queue: seq<Task>, nodeIds: seq<string>, caps: seq<int>, k: nat, r: Round)
    requires k <= |nodeIds| == |caps|
  {
    && Settled(queue, r.allocation, Min(Settling(nodeIds, caps, k), |queue|), Loose(queue, nodeIds, caps, k))
    && |r.allocation| <= r.grants && (|r.allocation| == r.grants <==> Clean(queue, nodeIds, caps, k))
  }

  lemma SettleNext(queue: seq<Task>, nodeIds: seq<string>, caps: seq<int>, k: nat, r: Round)
    requires k < |nodeIds| == |caps| == |r.caps| && DistinctIds(queue)
    requires SettledAfter(queue, nodeIds, caps, k, r) && r.caps[k] == caps[k]
    ensures SettledAfter(queue, nodeIds, caps, k + 1, Offer(queue, nodeIds, r, k))
  {
    var p, loose := Min(Settling(nodeIds, caps, k), |queue|), Loose(queue, nodeIds, caps, k);
    OfferGrants(queue, nodeIds, r, k, p, loose);
    if caps[k] > 0 && p < |queue| {
      GrantSettles(queue, r.allocation, p, loose, nodeIds[k]);
    }
  }

  lemma {:induction false} RestSettles(queue: seq<Task>, nodeIds: seq<string>, caps: seq<int>, k: nat, r: Round)
    requires k <= |nodeIds| == |caps| == |r.caps| && DistinctIds(queue) && r.caps[k..] == caps[k..]
    requires SettledAfter(queue, nodeIds, caps, k, r)
    ensures SettledAfter(queue, nodeIds, caps, |caps|, OfferRest(queue, nodeIds, r, k))
    decreases |caps| - k
  {
    if k < |caps| {
      assert r.caps[k] == r.caps[k..][0] == caps[k..][0] == caps[k];
      var r' := Offer(queue, nodeIds, r, k);
      SettleNext(queue, nodeIds, caps, k, r);
      assert r'.caps[k + 1..] == r.caps[k..][1..] && caps[k + 1..] == caps[k..][1..];
      RestSettles(queue, nodeIds, caps, k + 1, r');
    }
  }

  /** A loose grant is the grant to a node with the empty id that no node with free capacity follows. */
  lemma {:induction false} LooseNode(queue: seq<Task>, nodeIds: seq<string>, caps: seq<int>, k: nat) returns (i: nat)
    requires k <= |nodeIds| == |caps| && Loose(queue, nodeIds, caps, k)
    ensures i < k && nodeIds[i] == "" && caps[i] > 0 && Settling(nodeIds, caps, i) < |queue|
  {
    if caps[k - 1] > 0 {
      i := k - 1;
    } else {
      i := LooseNode(queue, nodeIds, caps, k - 1);
    }
  }

  lemma {:induction false} GrantedIsLoose(queue: seq<Task>, nodeIds: seq<string>, caps: seq<int>, i: nat, k: nat)
    requires i < k <= |nodeIds| == |caps|
    requires nodeIds[i] == "" && caps[i] > 0 && Settling(nodeIds, caps, i) < |queue|
    ensures Loose(queue, nodeIds, caps, k) || exists j | i < j < k :: caps[j] > 0
  {
    if i + 1 < k && caps[k - 1] <= 0 {
      GrantedIsLoose(queue, nodeIds, caps, i, k - 1);
    }
  }

  lemma {:induction false} CleanIsNoRegrant(queue: seq<Task>, nodeIds: seq<string>, caps: seq<int>, k: nat)
    requires k <= |nodeIds| == |caps|
    ensures Clean(queue, nodeIds, caps, k) <==> !SomeRegrant(queue, nodeIds, caps, k)
  {
    if k > 0 {
      CleanIsNoRegrant(queue, nodeIds, caps, k - 1);
      if caps[k - 1] > 0 && Loose(queue, nodeIds, caps, k - 1) {
        var i := LooseNode(queue, nodeIds, caps, k - 1);
        assert Regrants(queue, nodeIds, caps, i, k - 1);
      } else if SomeRegrant(queue, nodeIds, caps, k) {
        var i, j :| 0 <= i < j < k && Regrants(queue, nodeIds, caps, i, j);
        if j == k - 1 {
          GrantedIsLoose(queue, nodeIds, caps, i, k - 1);
          var m :| i < m < k - 1 && caps[m] > 0;
          assert Regrants(queue, nodeIds, caps, i, m);
        }
      }
    }
  }

  /**
   * Each grant of a round goes to an id of its own exactly when no node with the empty id is granted
   * a task while a later node still has free capacity.
   */
  lemma EachGrantIsATask(queue: seq<Task>, nodeIds: seq<string>, caps: seq<int>)
    requires |nodeIds| == |caps|
    ensures var r := Allocate(queue, nodeIds, caps);
            |r.allocation| == r.grants <==> !SomeRegrant(Firsts(queue), nodeIds, caps, |caps|)
  {
    var tasks := Firsts(queue);
    FirstsAreDistinct(queue);
    RoundOfFirsts(queue, nodeIds, caps, |caps|);
    RestOfRound(tasks, nodeIds, caps, 0);
    RestSettles(tasks, nodeIds, caps, 0, Round(map[], caps, 0));
    CleanIsNoRegrant(tasks, nodeIds, caps, |caps|);
  }

  /** The failing case: two nodes, the first with the empty id, are both granted the one task. */
  lemma TwoGrantsOneTask()
    ensures var r := Allocate([Task("t", "validation", 1, "")], ["", "n"], [1, 1]);
            r.grants == 2 && r.allocation == map["t" := "n"]
  {
    var queue := [Task("t", "validation", 1, "")];
    FirstOpenAt(queue, map[], 0);
    FirstOpenAt(queue, map["t" := ""], 0);
    var r1 := OfferUpTo(queue, ["", "n"], [1, 1], 1);
    assert OfferUpTo(queue, ["", "n"], [1, 1], 0) == Round(map[], [1, 1], 0);
    assert r1 == Round(map["t" := ""], [0, 1], 1);
    assert OfferUpTo(queue, ["", "n"], [1, 1], 2) == Offer(queue, ["", "n"], r1, 1);
  }
}
