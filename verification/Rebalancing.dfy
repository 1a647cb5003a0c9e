/**
 * The effect of `rebalanceShards`, on values. Nodes and shards are known by their position in the two
 * lists that the function is given; a shard's home is the id of the node it is assigned to.
 */
module Rebalancing {
  import opened Wrappers
  import opened Sequences

  /** What rebalancing reads and never writes. `room` is the nodes' available capacity. */
  datatype Fleet = Fleet(ids: seq<string>, room: seq<int>, sizes: seq<int>, threshold: int)

  /** One line of the rebalancing log: which shard went from which node to which. */
  datatype Move = Move(shard: nat, from: nat, to: nat)

  datatype State = State(homes: seq<string>, util: seq<int>, moves: seq<Move>)

  ghost predicate Fits(f: Fleet, s: State) {
    |f.ids| == |f.room| == |s.util| && |f.sizes| == |s.homes|
  }

  const DEFAULT_THRESHOLD := 75

  /** `policies.rebalancingThreshold || 75`: a missing or zero setting gives the default. */
  function Threshold(configured: Option<int>): int {
    match configured
    case Some(t) => if t == 0 then DEFAULT_THRESHOLD else t
    case None => DEFAULT_THRESHOLD
  }

  // ----- the three selections -----

  lemma FilterRange(n: nat, p: nat -> bool)
    ensures forall i: nat :: i in Filter(Range(n), p) <==> i < n && p(i)
    ensures Distinct(Filter(Range(n), p)) && Below(Filter(Range(n), p), n)
  {
    FilterSelects(Range(n), p);
    FilterKeepsDistinct(Range(n), p);
    var r := Filter(Range(n), p);
    forall i: nat
      ensures i in Range(n) <==> i < n
    {
      if i < n {
        assert Range(n)[i] == i;
      }
    }
    assert forall k | 0 <= k < |r| :: r[k] in r;
  }

  function Overloaded(f: Fleet, s: State): (r: seq<nat>)
    ensures Distinct(r) && Below(r, |s.util|)
    ensures forall n: nat :: n in r <==> n < |s.util| && s.util[n] > f.threshold
  {
    var over := (n: nat) => n < |s.util| && s.util[n] > f.threshold;
    FilterRange(|s.util|, over);
    Filter(Range(|s.util|), over)
  }

  function Excess(f: Fleet, s: State, d: nat): (r: seq<nat>)
    requires d < |f.ids|
    ensures Distinct(r) && Below(r, |s.homes|)
    ensures forall i: nat :: i in r <==> i < |s.homes| && s.homes[i] == f.ids[d]
  {
    var resides := (i: nat) => i < |s.homes| && s.homes[i] == f.ids[d];
    FilterRange(|s.homes|, resides);
    Filter(Range(|s.homes|), resides)
  }

  function Targets(f: Fleet, s: State, d: nat): (r: seq<nat>)
    requires d < |f.ids| == |s.util|
    ensures Distinct(r) && Below(r, |s.util|)
    ensures forall n: nat :: n in r <==> n < |s.util| && s.util[n] < f.threshold && f.ids[n] != f.ids[d]
  {
    var under := (n: nat) => n < |s.util| && s.util[n] < f.threshold && f.ids[n] != f.ids[d];
    FilterRange(|s.util|, under);
    Filter(Range(|s.util|), under)
  }

  /** The target that `find` stops at: the first one with room for a shard of this size. */
  function FindTarget(targets: seq<nat>, room: seq<int>, size: int): (r: Option<nat>)
    requires Below(targets, |room|)
    ensures r.Some? ==> r.value in targets && room[r.value] >= size
    ensures r.None? ==> forall t | t in targets :: room[t] < size
  {
    var k := FirstIndex(targets, (t: nat) => t < |room| && room[t] >= size);
    if k < |targets| then Some(targets[k]) else None
  }

  // ----- the order of the selections -----

  lemma {:induction false} FilterKeepsAscending(xs: seq<nat>, p: nat -> bool)
    requires Ascending(xs)
    ensures Ascending(Filter(xs, p))
  {
    if xs != [] {
      FilterKeepsAscending(xs[1..], p);
      FilterSelects(xs[1..], p);
      var rest := Filter(xs[1..], p);
      assert forall k | 0 <= k < |rest| :: rest[k] in rest;
    }
  }

  /** Nodes are drained, shards moved, and targets tried in the order of the two lists. */
  lemma SelectionsAscend(f: Fleet, s: State, d: nat)
    requires d < |f.ids| == |s.util|
    ensures Ascending(Overloaded(f, s)) && Ascending(Excess(f, s, d)) && Ascending(Targets(f, s, d))
  {
    FilterKeepsAscending(Range(|s.util|), (n: nat) => n < |s.util| && s.util[n] > f.threshold);
    FilterKeepsAscending(Range(|s.homes|), (i: nat) => i < |s.homes| && s.homes[i] == f.ids[d]);
    FilterKeepsAscending(Range(|s.util|), (n: nat) => n < |s.util| && s.util[n] < f.threshold && f.ids[n] != f.ids[d]);
  }

  /** Node `n` may receive a shard of this size from node `d`. */
  ghost predicate Eligible(f: Fleet, s: State, d: nat, size: int, n: nat) {
    d < |f.ids| && n < |f.ids| == |f.room| == |s.util|
    && s.util[n] < f.threshold && f.ids[n] != f.ids[d] && f.room[n] >= size
  }

  /** The chosen target is the eligible node that comes first in the list of nodes, when there is one. */
  lemma TargetIsLeast(f: Fleet, s: State, d: nat, size: int)
    requires Fits(f, s) && d < |f.ids|
    ensures var t := FindTarget(Targets(f, s, d), f.room, size);
            if t.Some?
            then Eligible(f, s, d, size, t.value) && forall n: nat | n < t.value :: !Eligible(f, s, d, size, n)
            else forall n: nat :: !Eligible(f, s, d, size, n)
  {
    var targets := Targets(f, s, d);
    var t := FindTarget(targets, f.room, size);
    SelectionsAscend(f, s, d);
    forall n: nat | Eligible(f, s, d, size, n)
      ensures t.Some? && t.value <= n
    {
      assert n in targets;
      var k :| 0 <= k < |targets| && targets[k] == n;
    }
  }

  // ----- the two loops -----

  /** The targets chosen for draining `d`: positions of other nodes. */
  ghost predicate Usable(f: Fleet, d: nat, targets: seq<nat>) {
    d < |f.ids| == |f.room| && Below(targets, |f.ids|)
    && forall k | 0 <= k < |targets| :: f.ids[targets[k]] != f.ids[d]
  }

  function MoveOne(f: Fleet, s: State, d: nat, targets: seq<nat>, i: nat): (r: State)
    requires Fits(f, s) && Usable(f, d, targets) && i < |f.sizes|
    ensures Fits(f, r)
  {
    match FindTarget(targets, f.room, f.sizes[i])
    case Some(t) =>
      State(s.homes[i := f.ids[t]],
            s.util[t := s.util[t] + f.sizes[i]][d := s.util[d] - f.sizes[i]],
            s.moves + [Move(i, d, t)])
    case None => s
  }

  function MoveEach(f: Fleet, s: State, d: nat, targets: seq<nat>, list: seq<nat>): (r: State)
    requires Fits(f, s) && Usable(f, d, targets) && Below(list, |f.sizes|)
    ensures Fits(f, r)
  {
    if list == [] then s
    else MoveOne(f, MoveEach(f, s, d, targets, list[..|list| - 1]), d, targets, list[|list| - 1])
  }

  lemma TargetsUsable(f: Fleet, s: State, d: nat)
    requires Fits(f, s) && d < |f.ids|
    ensures Usable(f, d, Targets(f, s, d))
  {
    var targets := Targets(f, s, d);
    assert forall k | 0 <= k < |targets| :: targets[k] in targets;
  }

  function Drain(f: Fleet, s: State, d: nat): (r: State)
    requires Fits(f, s) && d < |f.ids|
    ensures Fits(f, r)
  {
    TargetsUsable(f, s, d);
    MoveEach(f, s, d, Targets(f, s, d), Excess(f, s, d))
  }

  function DrainEach(f: Fleet, s: State, nodes: seq<nat>): (r: State)
    requires Fits(f, s) && Below(nodes, |f.ids|)
    ensures Fits(f, r)
  {
    if nodes == [] then s
    else Drain(f, DrainEach(f, s, nodes[..|nodes| - 1]), nodes[|nodes| - 1])
  }

  /** The whole run: drain, in node order, the nodes that are overloaded at entry. */
  function Rebalance(f: Fleet, s: State): (r: State)
    requires Fits(f, s)
    ensures Fits(f, r)
  {
    DrainEach(f, s, Overloaded(f, s))
  }

  // ----- what draining one node does -----

  /** Where shard `i` ends when node `d` is drained. */
  function HomeAfterDrain(f: Fleet, s: State, d: nat, i: nat): string
    requires Fits(f, s) && d < |f.ids| && i < |s.homes|
  {
    TargetsUsable(f, s, d);
    var t := FindTarget(Targets(f, s, d), f.room, f.sizes[i]);
    if s.homes[i] == f.ids[d] && t.Some? then f.ids[t.value] else s.homes[i]
  }

  /** The log lines of draining `d`: one for each listed shard that some target has room for. */
  function MovesOf(f: Fleet, d: nat, targets: seq<nat>, list: seq<nat>): seq<Move>
    requires Usable(f, d, targets) && Below(list, |f.sizes|)
  {
    if list == [] then []
    else
      var n := |list| - 1;
      var t := FindTarget(targets, f.room, f.sizes[list[n]]);
      MovesOf(f, d, targets, list[..n]) + if t.Some? then [Move(list[n], d, t.value)] else []
  }

  lemma {:induction false} MovesOfSound(f: Fleet, d: nat, targets: seq<nat>, list: seq<nat>)
    requires Usable(f, d, targets) && Below(list, |f.sizes|) && Distinct(list)
    ensures var moves := MovesOf(f, d, targets, list);
            && (forall b | 0 <= b < |moves| ::
                  moves[b].shard in list && moves[b].from == d
                  && FindTarget(targets, f.room, f.sizes[moves[b].shard]) == Some(moves[b].to))
            && MovedOnce(moves)
  {
    if list != [] {
      var n := |list| - 1;
      MovesOfSound(f, d, targets, list[..n]);
      assert list == list[..n] + [list[n]] && list[n] !in list[..n];
    }
  }

  lemma {:induction false} MovesOfComplete(f: Fleet, d: nat, targets: seq<nat>, list: seq<nat>, k: nat)
    requires Usable(f, d, targets) && Below(list, |f.sizes|) && k < |list|
    requires FindTarget(targets, f.room, f.sizes[list[k]]).Some?
    ensures Moved(MovesOf(f, d, targets, list), list[k])
  {
    var n := |list| - 1;
    var before, moves := MovesOf(f, d, targets, list[..n]), MovesOf(f, d, targets, list);
    if k < n {
      MovesOfComplete(f, d, targets, list[..n], k);
      var b :| 0 <= b < |before| && before[b].shard == list[k];
      assert moves[b].shard == list[k];
    } else {
      assert moves[|before|].shard == list[k];
    }
  }

  lemma {:induction false} MoveEachHomes(f: Fleet, s: State, d: nat, targets: seq<nat>, list: seq<nat>)
    requires Fits(f, s) && Usable(f, d, targets) && Distinct(list) && Below(list, |f.sizes|)
    ensures var r := MoveEach(f, s, d, targets, list);
            && r.moves == s.moves + MovesOf(f, d, targets, list)
            && (forall i | 0 <= i < |s.homes| ::
                  var t := FindTarget(targets, f.room, f.sizes[i]);
                  r.homes[i] == if i in list && t.Some? then f.ids[t.value] else s.homes[i])
            && (forall n | 0 <= n < |s.util| && n != d && n !in targets :: r.util[n] == s.util[n])
  {
    if list != [] {
      var n := |list| - 1;
      assert list == list[..n] + [list[n]] && list[n] !in list[..n];
      MoveEachHomes(f, s, d, targets, list[..n]);
    }
  }

  /** Draining moves exactly the shards of the node that some target has room for, each to its first one. */
  lemma DrainEffect(f: Fleet, s: State, d: nat)
    requires Fits(f, s) && d < |f.ids|
    ensures Usable(f, d, Targets(f, s, d))
    ensures var r := Drain(f, s, d);
            && r.moves == s.moves + MovesOf(f, d, Targets(f, s, d), Excess(f, s, d))
            && (forall i | 0 <= i < |s.homes| :: r.homes[i] == HomeAfterDrain(f, s, d, i))
            && (forall n | 0 <= n < |s.util| && n != d && n !in Targets(f, s, d) :: r.util[n] == s.util[n])
  {
    TargetsUsable(f, s, d);
    MoveEachHomes(f, s, d, Targets(f, s, d), Excess(f, s, d));
  }

  // ----- the run as a whole -----

  /** Nodes of `o` from position `k` on have the utilization they had at entry. */
  ghost predicate WaitingUnchanged(s: State, o: seq<nat>, k: nat, r: State) {
    k <= |o| && Below(o, |s.util|) && |r.util| == |s.util|
    && forall j | k <= j < |o| :: r.util[o[j]] == s.util[o[j]]
  }

  /** A move left the node `o[j]` it was on at entry, for a node that was not waiting then, and it still holds. */
  ghost predicate Legal(f: Fleet, s: State, o: seq<nat>, j: nat, m: Move, r: State) {
    && j < |o| && m.shard < |s.homes| == |r.homes| && m.from < |f.ids| && m.to < |f.ids|
    && m.from == o[j] && m.to !in o[j..]
    && s.homes[m.shard] == f.ids[m.from] && r.homes[m.shard] == f.ids[m.to]
  }

  ghost predicate LegalBefore(f: Fleet, s: State, o: seq<nat>, k: nat, m: Move, r: State) {
    exists j | 0 <= j < k :: Legal(f, s, o, j, m, r)
  }

  ghost predicate AllLegal(f: Fleet, s: State, o: seq<nat>, k: nat, r: State) {
    forall a | 0 <= a < |r.moves| :: LegalBefore(f, s, o, k, r.moves[a], r)
  }

  ghost predicate MovedOnce(moves: seq<Move>) {
    forall a, b | 0 <= a < b < |moves| :: moves[a].shard != moves[b].shard
  }

  ghost predicate Moved(moves: seq<Move>, i: nat) {
    exists a | 0 <= a < |moves| :: moves[a].shard == i
  }

  ghost predicate OthersStay(s: State, r: State) {
    |r.homes| == |s.homes| && forall i | 0 <= i < |s.homes| :: Moved(r.moves, i) || r.homes[i] == s.homes[i]
  }

  /** The situation when the first `k` of the nodes `o` that were overloaded at entry have been drained. */
  ghost predicate DrainedUpTo(f: Fleet, s: State, o: seq<nat>, k: nat, r: State) {
    && Fits(f, s) && Fits(f, r)
    && WaitingUnchanged(s, o, k, r)
    && AllLegal(f, s, o, k, r)
    && MovedOnce(r.moves)
    && OthersStay(s, r)
  }

  ghost predicate Waiting(f: Fleet, s: State, o: seq<nat>) {
    && Fits(f, s) && Distinct(f.ids) && Distinct(o) && Below(o, |f.ids|)
    && forall j | 0 <= j < |o| :: s.util[o[j]] > f.threshold
  }

  /** A shard that has moved is not on the node drained next, so it stays where it went. */
  lemma MovedStays(f: Fleet, s: State, o: seq<nat>, k: nat, q: State, a: nat)
    requires Waiting(f, s, o) && k < |o| && DrainedUpTo(f, s, o, k, q) && a < |q.moves|
    ensures q.moves[a].shard !in Excess(f, q, o[k])
    ensures LegalBefore(f, s, o, k + 1, q.moves[a], Drain(f, q, o[k]))
  {
    var m := q.moves[a];
    assert LegalBefore(f, s, o, k, m, q);
    var j :| 0 <= j < k && Legal(f, s, o, j, m, q);
    assert o[k] == o[j..][k - j];
    DrainEffect(f, q, o[k]);
    assert Legal(f, s, o, j, m, Drain(f, q, o[k]));
  }

  lemma TargetsAreNotWaiting(f: Fleet, s: State, o: seq<nat>, k: nat, q: State)
    requires Waiting(f, s, o) && k < |o| && DrainedUpTo(f, s, o, k, q)
    ensures forall j | k <= j < |o| :: o[j] !in Targets(f, q, o[k])
    ensures forall t | t in Targets(f, q, o[k]) :: t !in o[k..]
  {
    assert forall j | k <= j < |o| :: q.util[o[j]] > f.threshold;
  }

  /** What a log line that draining `o[k]` adds says. */
  lemma AddedMove(f: Fleet, s: State, o: seq<nat>, k: nat, q: State, m: Move)
    requires Waiting(f, s, o) && k < |o| && DrainedUpTo(f, s, o, k, q)
    requires m.shard in Excess(f, q, o[k]) && m.from == o[k]
    requires FindTarget(Targets(f, q, o[k]), f.room, f.sizes[m.shard]) == Some(m.to)
    ensures !Moved(q.moves, m.shard)
    ensures Legal(f, s, o, k, m, Drain(f, q, o[k]))
  {
    if Moved(q.moves, m.shard) {
      var a :| 0 <= a < |q.moves| && q.moves[a].shard == m.shard;
      MovedStays(f, s, o, k, q, a);
    }
    TargetsAreNotWaiting(f, s, o, k, q);
    DrainEffect(f, q, o[k]);
  }

  lemma StillOthersStay(f: Fleet, s: State, o: seq<nat>, k: nat, q: State)
    requires Waiting(f, s, o) && k < |o| && DrainedUpTo(f, s, o, k, q)
    ensures OthersStay(s, Drain(f, q, o[k]))
  {
    var d, r := o[k], Drain(f, q, o[k]);
    DrainEffect(f, q, d);
    var list := Excess(f, q, d);
    var added := MovesOf(f, d, Targets(f, q, d), list);
    forall i: nat | i < |s.homes|
      ensures Moved(r.moves, i) || r.homes[i] == s.homes[i]
    {
      if Moved(q.moves, i) {
        var a :| 0 <= a < |q.moves| && q.moves[a].shard == i;
        assert r.moves[a].shard == i;
      } else if r.homes[i] != q.homes[i] {
        var at :| 0 <= at < |list| && list[at] == i;
        MovesOfComplete(f, d, Targets(f, q, d), list, at);
        var b :| 0 <= b < |added| && added[b].shard == i;
        assert r.moves[|q.moves| + b].shard == i;
      }
    }
  }

  lemma DrainNext(f: Fleet, s: State, o: seq<nat>, k: nat, q: State)
    requires Waiting(f, s, o) && k < |o| && DrainedUpTo(f, s, o, k, q)
    ensures DrainedUpTo(f, s, o, k + 1, Drain(f, q, o[k]))
  {
    var d, r := o[k], Drain(f, q, o[k]);
    DrainEffect(f, q, d);
    MovesOfSound(f, d, Targets(f, q, d), Excess(f, q, d));
    var added := MovesOf(f, d, Targets(f, q, d), Excess(f, q, d));
    StillOthersStay(f, s, o, k, q);
    TargetsAreNotWaiting(f, s, o, k, q);
    forall b | 0 <= b < |added|
      ensures !Moved(q.moves, added[b].shard) && LegalBefore(f, s, o, k + 1, added[b], r)
    {
      AddedMove(f, s, o, k, q, added[b]);
    }
    forall a | 0 <= a < |r.moves|
      ensures LegalBefore(f, s, o, k + 1, r.moves[a], r)
    {
      if a < |q.moves| {
        MovedStays(f, s, o, k, q, a);
      } else {
        assert r.moves[a] == added[a - |q.moves|];
      }
    }
    forall a, b | 0 <= a < b < |r.moves|
      ensures r.moves[a].shard != r.moves[b].shard
    {
      if a < |q.moves| <= b {
        assert !Moved(q.moves, added[b - |q.moves|].shard);
      } else if |q.moves| <= a {
        assert added[a - |q.moves|].shard != added[b - |q.moves|].shard;
      }
    }
  }

  lemma {:induction false} DrainEachEffect(f: Fleet, s: State, o: seq<nat>, k: nat)
    requires Waiting(f, s, o) && k <= |o| && s.moves == []
    ensures DrainedUpTo(f, s, o, k, DrainEach(f, s, o[..k]))
  {
    if k > 0 {
      DrainEachEffect(f, s, o, k - 1);
      assert o[..k][..k - 1] == o[..k - 1];
      DrainNext(f, s, o, k - 1, DrainEach(f, s, o[..k - 1]));
    }
  }

  /**
   * Over the whole run every shard moves at most once. It moves from the overloaded node it was on at
   * entry to a node that is not among those still waiting at that moment, and it stays there. A shard
   * that did not move has its home unchanged.
   */
  lemma MovesAtMostOnce(f: Fleet, s: State)
    requires Fits(f, s) && Distinct(f.ids) && s.moves == []
    ensures DrainedUpTo(f, s, Overloaded(f, s), |Overloaded(f, s)|, Rebalance(f, s))
  {
    var o := Overloaded(f, s);
    assert forall j | 0 <= j < |o| :: o[j] in o;
    DrainEachEffect(f, s, o, |o|);
    assert o[..|o|] == o;
  }

  // ----- what the run does, drain by drain -----

  /** The first node in the list that may receive a shard of this size from node `d`. */
  ghost predicate FirstEligible(f: Fleet, s: State, d: nat, size: int, t: nat) {
    Eligible(f, s, d, size, t) && forall n: nat | n < t :: !Eligible(f, s, d, size, n)
  }

  /** What the moves bring to node `n` less what they take from it. */
  function Flow(sizes: seq<int>, moves: seq<Move>, n: nat): int {
    if moves == [] then 0
    else
      var m := moves[|moves| - 1];
      var size := if m.shard < |sizes| then sizes[m.shard] else 0;
      Flow(sizes, moves[..|moves| - 1], n) + (if m.to == n then size else 0) - (if m.from == n then size else 0)
  }

  /** The log lines of draining `d`: one for each of its shards that has somewhere to go, in order. */
  ghost predicate IsDrainLog(f: Fleet, s: State, d: nat, added: seq<Move>) {
    && Fits(f, s) && d < |f.ids|
    && (forall a, b | 0 <= a < b < |added| :: added[a].shard < added[b].shard)
    && (forall a | 0 <= a < |added| ::
          added[a].shard < |f.sizes| && s.homes[added[a].shard] == f.ids[d]
          && added[a].from == d && FirstEligible(f, s, d, f.sizes[added[a].shard], added[a].to))
    && (forall i, n: nat | 0 <= i < |f.sizes| && s.homes[i] == f.ids[d] && Eligible(f, s, d, f.sizes[i], n) ::
          Moved(added, i))
  }

  /** Draining `d` takes `s` to `r`: the logged shards are where the log says, and nothing else has changed. */
  ghost predicate DrainsBy(f: Fleet, s: State, d: nat, added: seq<Move>, r: State) {
    && IsDrainLog(f, s, d, added) && Fits(f, r)
    && r.moves == s.moves + added
    && (forall a | 0 <= a < |added| :: r.homes[added[a].shard] == f.ids[added[a].to])
    && (forall i: nat | i < |s.homes| && !Moved(added, i) :: r.homes[i] == s.homes[i])
    && (forall n | 0 <= n < |s.util| :: r.util[n] == s.util[n] + Flow(f.sizes, added, n))
  }

  ghost predicate DrainStep(f: Fleet, s: State, d: nat, r: State) {
    exists added :: DrainsBy(f, s, d, added, r)
  }

  /** The nodes above the threshold, in list order. */
  ghost predicate AreOverloaded(f: Fleet, s: State, o: seq<nat>) {
    Ascending(o) && forall n: nat :: n in o <==> n < |s.util| && s.util[n] > f.threshold
  }

  /** `trace` are the states of a run from `s` to `r` that drains, one by one, the nodes overloaded at entry. */
  ghost predicate IsRebalancing(f: Fleet, s: State, o: seq<nat>, trace: seq<State>, r: State) {
    && AreOverloaded(f, s, o)
    && AreDrains(f, o, trace) && trace[0] == s && trace[|o|] == r
  }

  ghost predicate AreDrains(f: Fleet, o: seq<nat>, trace: seq<State>) {
    |trace| == |o| + 1 && forall k | 0 <= k < |o| :: DrainStep(f, trace[k], o[k], trace[k + 1])
  }

  lemma {:induction false} MovesOfAscend(f: Fleet, d: nat, targets: seq<nat>, list: seq<nat>)
    requires Usable(f, d, targets) && Below(list, |f.sizes|) && Ascending(list)
    ensures var moves := MovesOf(f, d, targets, list);
            forall a, b | 0 <= a < b < |moves| :: moves[a].shard < moves[b].shard
  {
    if list != [] {
      var n := |list| - 1;
      MovesOfAscend(f, d, targets, list[..n]);
      MovesOfSound(f, d, targets, list[..n]);
    }
  }

  lemma {:induction false} MoveEachUtil(f: Fleet, s: State, d: nat, targets: seq<nat>, list: seq<nat>, n: nat)
    requires Fits(f, s) && Usable(f, d, targets) && Below(list, |f.sizes|) && n < |s.util|
    ensures MoveEach(f, s, d, targets, list).util[n] == s.util[n] + Flow(f.sizes, MovesOf(f, d, targets, list), n)
  {
    if list != [] {
      var k := |list| - 1;
      MoveEachUtil(f, s, d, targets, list[..k], n);
      var t := FindTarget(targets, f.room, f.sizes[list[k]]);
      if t.Some? {
        var before := MovesOf(f, d, targets, list[..k]);
        FlowOfOneMore(f.sizes, before, Move(list[k], d, t.value), n);
      } else {
        assert MovesOf(f, d, targets, list) == MovesOf(f, d, targets, list[..k]);
      }
    }
  }

  lemma FlowOfOneMore(sizes: seq<int>, moves: seq<Move>, m: Move, n: nat)
    requires m.shard < |sizes|
    ensures Flow(sizes, moves + [m], n)
         == Flow(sizes, moves, n)
            + (if m.to == n then sizes[m.shard] else 0) - (if m.from == n then sizes[m.shard] else 0)
  {
    assert (moves + [m])[..|moves|] == moves;
  }

  lemma DrainLogIsExact(f: Fleet, s: State, d: nat)
    requires Fits(f, s) && d < |f.ids|
    ensures Usable(f, d, Targets(f, s, d))
    ensures IsDrainLog(f, s, d, MovesOf(f, d, Targets(f, s, d), Excess(f, s, d)))
  {
    TargetsUsable(f, s, d);
    SelectionsAscend(f, s, d);
    var targets, list := Targets(f, s, d), Excess(f, s, d);
    var added := MovesOf(f, d, targets, list);
    MovesOfSound(f, d, targets, list);
    MovesOfAscend(f, d, targets, list);
    forall a | 0 <= a < |added|
      ensures FirstEligible(f, s, d, f.sizes[added[a].shard], added[a].to)
    {
      TargetIsLeast(f, s, d, f.sizes[added[a].shard]);
    }
    forall i, n: nat | 0 <= i < |f.sizes| && s.homes[i] == f.ids[d] && Eligible(f, s, d, f.sizes[i], n)
      ensures Moved(added, i)
    {
      TargetIsLeast(f, s, d, f.sizes[i]);
      var k :| 0 <= k < |list| && list[k] == i;
      MovesOfComplete(f, d, targets, list, k);
    }
  }

  lemma DrainIsStep(f: Fleet, s: State, d: nat)
    requires Fits(f, s) && d < |f.ids|
    ensures DrainStep(f, s, d, Drain(f, s, d))
  {
    DrainEffect(f, s, d);
    DrainLogIsExact(f, s, d);
    var added := MovesOf(f, d, Targets(f, s, d), Excess(f, s, d));
    forall a | 0 <= a < |added|
      ensures Drain(f, s, d).homes[added[a].shard] == f.ids[added[a].to]
    {
      MovesOfSound(f, d, Targets(f, s, d), Excess(f, s, d));
    }
    forall i: nat | i < |s.homes| && !Moved(added, i)
      ensures Drain(f, s, d).homes[i] == s.homes[i]
    {
      if Drain(f, s, d).homes[i] != s.homes[i] {
        TargetIsLeast(f, s, d, f.sizes[i]);
      }
    }
    forall n | 0 <= n < |s.util|
      ensures Drain(f, s, d).util[n] == s.util[n] + Flow(f.sizes, added, n)
    {
      MoveEachUtil(f, s, d, Targets(f, s, d), Excess(f, s, d), n);
    }
    assert DrainsBy(f, s, d, added, Drain(f, s, d));
  }

  lemma OneMoreDrain(f: Fleet, o: seq<nat>, trace: seq<State>, r: State)
    requires o != [] && AreDrains(f, o[..|o| - 1], trace) && DrainStep(f, trace[|o| - 1], o[|o| - 1], r)
    ensures AreDrains(f, o, trace + [r])
  {
    var n, longer := |o| - 1, trace + [r];
    forall k | 0 <= k < |o|
      ensures DrainStep(f, longer[k], o[k], longer[k + 1])
    {
      if k < n {
        assert DrainStep(f, trace[k], o[..n][k], trace[k + 1]);
      }
    }
  }

  lemma {:induction false} DrainEachTrace(f: Fleet, s: State, o: seq<nat>) returns (trace: seq<State>)
    requires Fits(f, s) && Below(o, |f.ids|)
    ensures AreDrains(f, o, trace) && trace[0] == s && trace[|o|] == DrainEach(f, s, o)
  {
    if o == [] {
      trace := [s];
    } else {
      var n := |o| - 1;
      var front := DrainEachTrace(f, s, o[..n]);
      var last := DrainEach(f, s, o);
      DrainIsStep(f, front[n], o[n]);
      OneMoreDrain(f, o, front, last);
      trace := front + [last];
    }
  }

  /** The whole run, node by node: who moves, where to, what is logged, and what happens to the utilizations. */
  lemma RebalanceIsRebalancing(f: Fleet, s: State) returns (trace: seq<State>)
    requires Fits(f, s)
    ensures IsRebalancing(f, s, Overloaded(f, s), trace, Rebalance(f, s))
  {
    trace := DrainEachTrace(f, s, Overloaded(f, s));
    FilterKeepsAscending(Range(|s.util|), (n: nat) => n < |s.util| && s.util[n] > f.threshold);
  }

  // ----- conservation -----

  /** Total size of the shards whose home is node `n`. */
  function Resident(ids: seq<string>, sizes: seq<int>, homes: seq<string>, n: nat): int
    requires |sizes| == |homes| && n < |ids|
  {
    if sizes == [] then 0
    else (if homes[0] == ids[n] then sizes[0] else 0) + Resident(ids, sizes[1..], homes[1..], n)
  }

  lemma {:induction false} ResidentUpdate(ids: seq<string>, sizes: seq<int>, homes: seq<string>, n: nat, i: nat,
                                          id: string)
    requires |sizes| == |homes| && n < |ids| && i < |homes|
    ensures Resident(ids, sizes, homes[i := id], n)
         == Resident(ids, sizes, homes, n) - (if homes[i] == ids[n] then sizes[i] else 0)
            + (if id == ids[n] then sizes[i] else 0)
  {
    if i == 0 {
      assert homes[i := id][1..] == homes[1..];
    } else {
      ResidentUpdate(ids, sizes[1..], homes[1..], n, i - 1, id);
      assert homes[i := id][1..] == homes[1..][i - 1 := id];
    }
  }

  /** Utilization that is not accounted for by resident shards. */
  function Unaccounted(f: Fleet, s: State, n: nat): int
    requires Fits(f, s) && n < |f.ids|
  {
    s.util[n] - Resident(f.ids, f.sizes, s.homes, n)
  }

  /** What every step keeps: total utilization, each node's unaccounted part, and shards on listed nodes. */
  ghost predicate SameBooks(f: Fleet, s: State, r: State) {
    && Fits(f, s) && Fits(f, r)
    && Sum(r.util) == Sum(s.util)
    && (forall n | 0 <= n < |f.ids| :: Unaccounted(f, r, n) == Unaccounted(f, s, n))
    && (forall i | 0 <= i < |s.homes| && s.homes[i] in f.ids :: r.homes[i] in f.ids)
  }

  lemma MoveOneKeepsBooks(f: Fleet, s: State, d: nat, targets: seq<nat>, i: nat)
    requires Fits(f, s) && Usable(f, d, targets) && i < |f.sizes| && Distinct(f.ids) && s.homes[i] == f.ids[d]
    ensures SameBooks(f, s, MoveOne(f, s, d, targets, i))
  {
    match FindTarget(targets, f.room, f.sizes[i])
    case Some(t) =>
      var step := s.util[t := s.util[t] + f.sizes[i]];
      SumUpdate(s.util, t, s.util[t] + f.sizes[i]);
      SumUpdate(step, d, s.util[d] - f.sizes[i]);
      forall n | 0 <= n < |f.ids|
        ensures Unaccounted(f, MoveOne(f, s, d, targets, i), n) == Unaccounted(f, s, n)
      {
        ResidentUpdate(f.ids, f.sizes, s.homes, n, i, f.ids[t]);
      }
    case None =>
  }

  lemma {:induction false} MoveEachKeepsBooks(f: Fleet, s: State, d: nat, targets: seq<nat>, list: seq<nat>)
    requires Fits(f, s) && Usable(f, d, targets) && Distinct(f.ids) && Distinct(list)
    requires Below(list, |f.sizes|) && forall k | 0 <= k < |list| :: s.homes[list[k]] == f.ids[d]
    ensures SameBooks(f, s, MoveEach(f, s, d, targets, list))
  {
    if list != [] {
      var n := |list| - 1;
      assert list == list[..n] + [list[n]];
      MoveEachKeepsBooks(f, s, d, targets, list[..n]);
      MoveEachHomes(f, s, d, targets, list[..n]);
      MoveOneKeepsBooks(f, MoveEach(f, s, d, targets, list[..n]), d, targets, list[n]);
    }
  }

  lemma {:induction false} DrainEachKeepsBooks(f: Fleet, s: State, nodes: seq<nat>)
    requires Fits(f, s) && Distinct(f.ids) && Below(nodes, |f.ids|)
    ensures SameBooks(f, s, DrainEach(f, s, nodes))
  {
    if nodes != [] {
      var n := |nodes| - 1;
      var q := DrainEach(f, s, nodes[..n]);
      DrainEachKeepsBooks(f, s, nodes[..n]);
      TargetsUsable(f, q, nodes[n]);
      MoveEachKeepsBooks(f, q, nodes[n], Targets(f, q, nodes[n]), Excess(f, q, nodes[n]));
    }
  }

  /** Rebalancing keeps the books for every fleet with distinct node ids. */
  lemma RebalanceKeepsBooks(f: Fleet, s: State)
    requires Fits(f, s) && Distinct(f.ids)
    ensures SameBooks(f, s, Rebalance(f, s))
  {
    DrainEachKeepsBooks(f, s, Overloaded(f, s));
  }
}
