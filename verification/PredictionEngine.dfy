/** The model input matrix and the distribution plan read off the model's scores. */
module PredictionEngine {
  import opened Particles
  import opened Wrappers

  /** A metric that may be missing. */
  type Metric = Option<real>

  datatype PlanTask = PlanTask(id: string, priority: Metric, size: Metric, particle: Option<Particle>)

  datatype PlanNode = PlanNode(id: string, cpuLoad: Metric, memoryUsage: Metric, capacity: Metric, uptime: Metric,
                               energyEfficiency: Metric)

  datatype SystemMetrics = SystemMetrics(cpuLoad: Metric, memoryUsage: Metric, networkLatency: Metric)

  // ----- the input matrix -----

  /** `m || d`: a missing or zero metric gives the default. */
  function Or(m: Metric, d: real): (r: real)
    ensures r == if m.Some? && m.value != 0.0 then m.value else d
  {
    if m.None? || m.value == 0.0 then d else m.value
  }

  function ParticlePriority(p: Option<Particle>): real {
    match p
    case Some(Proton) => 3.0
    case Some(Neutron) => 2.0
    case Some(Electron) => 1.0
    case None => 1.0
  }

  function NodeRow(n: PlanNode): seq<real> {
    [Or(n.cpuLoad, 0.0), Or(n.memoryUsage, 0.0), Or(n.capacity, 1.0), Or(n.uptime, 0.0), Or(n.energyEfficiency, 1.0)]
  }

  function TaskRow(t: PlanTask): seq<real> {
    [Or(t.priority, 1.0), Or(t.size, 1.0), ParticlePriority(t.particle)]
  }

  function SystemRow(s: SystemMetrics): seq<real> {
    [Or(s.cpuLoad, 0.0), Or(s.memoryUsage, 0.0), Or(s.networkLatency, 0.0)]
  }

  /** The rows of one task: one for each node. */
  function RowsOf(t: PlanTask, nodes: seq<PlanNode>, s: SystemMetrics): (rows: seq<seq<real>>)
    ensures |rows| == |nodes|
    ensures forall j | 0 <= j < |nodes| :: rows[j] == TaskRow(t) + NodeRow(nodes[j]) + SystemRow(s)
  {
    seq(|nodes|, j requires 0 <= j < |nodes| => TaskRow(t) + NodeRow(nodes[j]) + SystemRow(s))
  }

  function PrepareInputData(tasks: seq<PlanTask>, nodes: seq<PlanNode>, s: SystemMetrics): seq<seq<real>> {
    if tasks == [] then [] else RowsOf(tasks[0], nodes, s) + PrepareInputData(tasks[1..], nodes, s)
  }

  lemma {:induction false} RowCount(tasks: seq<PlanTask>, nodes: seq<PlanNode>, s: SystemMetrics)
    ensures |PrepareInputData(tasks, nodes, s)| == |tasks| * |nodes|
  {
    if tasks != [] {
      RowCount(tasks[1..], nodes, s);
      assert |tasks| * |nodes| == |nodes| + (|tasks| - 1) * |nodes|;
    }
  }

  /** The eleven columns: three of the task, five of the node, three of the system. */
  ghost predicate IsRow(row: seq<real>, t: PlanTask, n: PlanNode, s: SystemMetrics) {
    && |row| == 11
    && row[0] == Or(t.priority, 1.0) && row[1] == Or(t.size, 1.0)
    && row[2] == (if t.particle == Some(Proton) then 3.0 else if t.particle == Some(Neutron) then 2.0 else 1.0)
    && row[3] == Or(n.cpuLoad, 0.0) && row[4] == Or(n.memoryUsage, 0.0) && row[5] == Or(n.capacity, 1.0)
    && row[6] == Or(n.uptime, 0.0) && row[7] == Or(n.energyEfficiency, 1.0)
    && row[8] == Or(s.cpuLoad, 0.0) && row[9] == Or(s.memoryUsage, 0.0) && row[10] == Or(s.networkLatency, 0.0)
  }

  lemma RowsAreRows(t: PlanTask, n: PlanNode, s: SystemMetrics)
    ensures IsRow(TaskRow(t) + NodeRow(n) + SystemRow(s), t, n, s)
  {
  }

  /** Row i * m + j, with m nodes, is exactly task i with node j, in eleven columns. */
  lemma {:induction false} RowAt(tasks: seq<PlanTask>, nodes: seq<PlanNode>, s: SystemMetrics, i: nat, j: nat)
    requires i < |tasks| && j < |nodes|
    ensures 0 <= i * |nodes| + j < |PrepareInputData(tasks, nodes, s)| == |tasks| * |nodes|
    ensures var row := PrepareInputData(tasks, nodes, s)[i * |nodes| + j];
            IsRow(row, tasks[i], nodes[j], s)
  {
    var m := |nodes|;
    RowCount(tasks, nodes, s);
    if i == 0 {
      assert PrepareInputData(tasks, nodes, s)[j] == TaskRow(tasks[0]) + NodeRow(nodes[j]) + SystemRow(s);
      RowsAreRows(tasks[0], nodes[j], s);
    } else {
      RowAt(tasks[1..], nodes, s, i - 1, j);
      assert i * m + j == m + ((i - 1) * m + j);
    }
  }

  // ----- scores -----

  /** A 32-bit float as far as comparison goes. */
  datatype Score = NaN | MinusInfinity | Finite(value: real) | PlusInfinity

  /** JavaScript's `a > b`. */
  predicate Greater(a: Score, b: Score) {
    match (a, b)
    case (NaN, _) => false
    case (_, NaN) => false
    case (Finite(x), Finite(y)) => x > y
    case (PlusInfinity, _) => b != PlusInfinity
    case (_, MinusInfinity) => a != MinusInfinity
    case (_, _) => false
  }

  /** The order of the extended reals, in which NaN has no place. */
  lemma GreaterIsExtendedOrder(a: Score, b: Score)
    ensures Greater(a, b)
       <==> a != NaN && b != NaN && a != b
            && (a == PlusInfinity || b == MinusInfinity || (a.Finite? && b.Finite? && a.value > b.value))
  {
  }

  /** Reading past the end of the score array gives `undefined`, which compares like NaN. */
  function ScoreAt(scores: seq<Score>, k: nat): Score {
    if k < |scores| then scores[k] else NaN
  }

  /** The scores of task `i`: entries i * m to i * m + m - 1. */
  function RowScores(scores: seq<Score>, i: nat, m: nat): (row: seq<Score>)
    ensures |row| == m && forall j | 0 <= j < m :: row[j] == ScoreAt(scores, i * m + j)
  {
    seq(m, j requires 0 <= j < m => ScoreAt(scores, i * m + j))
  }

  /** `best` is the first entry of the row that no other exceeds; with no entry above -Infinity there is none. */
  ghost predicate IsFirstBest(row: seq<Score>, best: Option<nat>) {
    match best
    case None => forall j | 0 <= j < |row| :: !Greater(row[j], MinusInfinity)
    case Some(b) =>
      && b < |row| && Greater(row[b], MinusInfinity)
      && (forall j | 0 <= j < |row| :: !Greater(row[j], row[b]))
      && (forall j | 0 <= j < b :: Greater(row[b], row[j]) || row[j] == NaN)
  }

  lemma FirstBestIsUnique(row: seq<Score>, a: Option<nat>, b: Option<nat>)
    requires IsFirstBest(row, a) && IsFirstBest(row, b)
    ensures a == b
  {
  }

  datatype PlanEntry = PlanEntry(taskId: string, node: PlanNode, score: Score, particle: Option<Particle>)

  /** The inner loop: the running maximum over one row of scores. */
  method SelectNode(scores: seq<Score>, i: nat, m: nat) returns (maxScore: Score, selected: Option<nat>)
    ensures IsFirstBest(RowScores(scores, i, m), selected)
    ensures maxScore == if selected.Some? then ScoreAt(scores, i * m + selected.value) else MinusInfinity
  {
    ghost var row := RowScores(scores, i, m);
    maxScore, selected := MinusInfinity, None;
    for j := 0 to m
      invariant IsFirstBest(row[..j], selected)
      invariant maxScore == if selected.Some? then row[selected.value] else MinusInfinity
    {
      var score := ScoreAt(scores, i * m + j);
      assert row[..j + 1] == row[..j] + [row[j]];
      if Greater(score, maxScore) {
        maxScore, selected := score, Some(j);
      }
    }
    assert row[..m] == row;
  }

  /** Positions of the tasks below `n` whose row has an entry above -Infinity. */
  ghost function Selectable(scores: seq<Score>, n: nat, m: nat): (r: seq<nat>)
    ensures |r| <= n
    ensures forall k | 0 <= k < |r| :: r[k] < n
  {
    if n == 0 then []
    else Selectable(scores, n - 1, m) + if IsFirstBest(RowScores(scores, n - 1, m), None) then [] else [n - 1]
  }

  lemma {:induction false} SelectableIsExact(scores: seq<Score>, n: nat, m: nat)
    ensures var r := Selectable(scores, n, m);
            && (forall a, b | 0 <= a < b < |r| :: r[a] < r[b])
            && (forall i: nat :: i in r <==> i < n && !IsFirstBest(RowScores(scores, i, m), None))
  {
    if n > 0 {
      SelectableIsExact(scores, n - 1, m);
    }
  }

  /** Entry for task `i`: its id and particle, the first node with the best score, and that score. */
  ghost predicate IsEntry(e: PlanEntry, tasks: seq<PlanTask>, nodes: seq<PlanNode>, scores: seq<Score>, i: nat)
    requires i < |tasks|
  {
    e.taskId == tasks[i].id && e.particle == tasks[i].particle
    && exists b: nat | b < |nodes| :: IsFirstBest(RowScores(scores, i, |nodes|), Some(b))
                                      && e.node == nodes[b] && e.score == ScoreAt(scores, i * |nodes| + b)
  }

  /** One entry, in task order, for each task that has a selectable node. */
  ghost predicate IsPlan(plan: seq<PlanEntry>, tasks: seq<PlanTask>, nodes: seq<PlanNode>, scores: seq<Score>, n: nat)
    requires n <= |tasks|
  {
    var from := Selectable(scores, n, |nodes|);
    |plan| == |from| && forall k | 0 <= k < |plan| :: IsEntry(plan[k], tasks, nodes, scores, from[k])
  }

  lemma PlanNext(plan: seq<PlanEntry>, tasks: seq<PlanTask>, nodes: seq<PlanNode>, scores: seq<Score>, i: nat,
                 selected: Option<nat>)
    requires i < |tasks| && IsPlan(plan, tasks, nodes, scores, i)
    requires IsFirstBest(RowScores(scores, i, |nodes|), selected)
    ensures match selected
            case None => IsPlan(plan, tasks, nodes, scores, i + 1)
            case Some(b) =>
              var e := PlanEntry(tasks[i].id, nodes[b], RowScores(scores, i, |nodes|)[b], tasks[i].particle);
              IsPlan(plan + [e], tasks, nodes, scores, i + 1)
  {
    var row := RowScores(scores, i, |nodes|);
    match selected
    case None =>
      assert Selectable(scores, i + 1, |nodes|) == Selectable(scores, i, |nodes|);
    case Some(b) =>
      assert !IsFirstBest(row, None);
      assert Selectable(scores, i + 1, |nodes|) == Selectable(scores, i, |nodes|) + [i];
      assert IsEntry(PlanEntry(tasks[i].id, nodes[b], row[b], tasks[i].particle), tasks, nodes, scores, i);
  }

  method ConstructDistributionPlan(tasks: seq<PlanTask>, nodes: seq<PlanNode>, scores: seq<Score>)
    returns (plan: seq<PlanEntry>)
    ensures IsPlan(plan, tasks, nodes, scores, |tasks|)
  {
    plan := [];
    for i := 0 to |tasks|
      invariant IsPlan(plan, tasks, nodes, scores, i)
    {
      var maxScore, selected := SelectNode(scores, i, |nodes|);
      PlanNext(plan, tasks, nodes, scores, i, selected);
      if selected.Some? {
        plan := plan + [PlanEntry(tasks[i].id, nodes[selected.value], maxScore, tasks[i].particle)];
      }
    }
  }

  // ----- what the plan is worth -----

  ghost predicate AllFinite(scores: seq<Score>, n: nat, m: nat) {
    forall i: nat, j | i < n && 0 <= j < m :: RowScores(scores, i, m)[j].Finite?
  }

  /** The number a finite score stands for. */
  function ValueOf(s: Score): real {
    if s.Finite? then s.value else 0.0
  }

  ghost predicate IsAssignment(choice: seq<nat>, n: nat, m: nat) {
    |choice| == n && forall i | 0 <= i < n :: choice[i] < m
  }

  /** Total score of putting task `i` on node `choice[i]`, for the tasks below `k`. */
  ghost function TotalOf(choice: seq<nat>, scores: seq<Score>, m: nat, k: nat): real
    requires k <= |choice| && forall i | 0 <= i < |choice| :: choice[i] < m
  {
    if k == 0 then 0.0
    else TotalOf(choice, scores, m, k - 1) + ValueOf(ScoreAt(scores, (k - 1) * m + choice[k - 1]))
  }

  ghost function PlanTotal(plan: seq<PlanEntry>, k: nat): real
    requires k <= |plan|
  {
    if k == 0 then 0.0 else PlanTotal(plan, k - 1) + ValueOf(plan[k - 1].score)
  }

  lemma FiniteRowSelectable(scores: seq<Score>, n: nat, m: nat, i: nat)
    requires AllFinite(scores, n, m) && m > 0 && i < n
    ensures !IsFirstBest(RowScores(scores, i, m), None)
  {
    var row := RowScores(scores, i, m);
    assert row[0].Finite? && Greater(row[0], MinusInfinity);
  }

  lemma {:induction false} EveryTaskSelectable(scores: seq<Score>, n: nat, m: nat, k: nat)
    requires AllFinite(scores, n, m) && m > 0 && k <= n
    ensures |Selectable(scores, k, m)| == k && forall i | 0 <= i < k :: Selectable(scores, k, m)[i] == i
  {
    if k > 0 {
      EveryTaskSelectable(scores, n, m, k - 1);
      FiniteRowSelectable(scores, n, m, k - 1);
    }
  }

  /** An entry's score is finite and no other node scores higher for its task. */
  lemma EntryIsBest(e: PlanEntry, tasks: seq<PlanTask>, nodes: seq<PlanNode>, scores: seq<Score>, i: nat, j: nat)
    requires i < |tasks| && j < |nodes| && IsEntry(e, tasks, nodes, scores, i) && AllFinite(scores, |tasks|, |nodes|)
    ensures e.node in nodes && e.score.Finite? && ValueOf(e.score) >= ValueOf(RowScores(scores, i, |nodes|)[j])
  {
    var row := RowScores(scores, i, |nodes|);
    var b: nat :| b < |nodes| && IsFirstBest(row, Some(b)) && e.node == nodes[b] && e.score == row[b];
    assert row[b].Finite? && row[j].Finite?;
    assert !Greater(row[j], row[b]);
  }

  ghost predicate BeatsAll(plan: seq<PlanEntry>, choice: seq<nat>, scores: seq<Score>, m: nat) {
    |plan| == |choice|
    && forall i | 0 <= i < |plan| ::
         choice[i] < m && ValueOf(plan[i].score) >= ValueOf(RowScores(scores, i, m)[choice[i]])
  }

  lemma {:induction false} PlanBeats(plan: seq<PlanEntry>, choice: seq<nat>, scores: seq<Score>, m: nat, k: nat)
    requires BeatsAll(plan, choice, scores, m) && k <= |plan|
    ensures PlanTotal(plan, k) >= TotalOf(choice, scores, m, k)
  {
    if k > 0 {
      PlanBeats(plan, choice, scores, m, k - 1);
    }
  }

  /**
   * With at least one node and finite scores the plan has one entry for each task, in order, and its
   * total score is at least that of every other way of giving each task a node.
   */
  lemma {:induction false} PlanIsOptimal(plan: seq<PlanEntry>, tasks: seq<PlanTask>, nodes: seq<PlanNode>,
                                         scores: seq<Score>, choice: seq<nat>)
    requires IsPlan(plan, tasks, nodes, scores, |tasks|) && AllFinite(scores, |tasks|, |nodes|) && nodes != []
    requires IsAssignment(choice, |tasks|, |nodes|)
    ensures |plan| == |tasks|
    ensures forall i | 0 <= i < |tasks| ::
              plan[i].taskId == tasks[i].id && plan[i].node in nodes && plan[i].score.Finite?
    ensures PlanTotal(plan, |tasks|) >= TotalOf(choice, scores, |nodes|, |tasks|)
  {
    EveryTaskSelectable(scores, |tasks|, |nodes|, |tasks|);
    forall i | 0 <= i < |tasks|
      ensures plan[i].taskId == tasks[i].id && plan[i].node in nodes && plan[i].score.Finite?
      ensures ValueOf(plan[i].score) >= ValueOf(RowScores(scores, i, |nodes|)[choice[i]])
    {
      assert IsEntry(plan[i], tasks, nodes, scores, i);
      EntryIsBest(plan[i], tasks, nodes, scores, i, choice[i]);
    }
    PlanBeats(plan, choice, scores, |nodes|, |tasks|);
  }
}
