/** The dispute queue file and the two operations that rewrite it. */
module DisputeResolver {
  import opened Wrappers
  import opened Sequences
  import opened DisputePass

  datatype Dispute = Dispute(disputeType: string, details: string, timestamp: string)

  /** A dispute as parsed from the file: each parsed object has an identity of its own. */
  datatype Parsed = Parsed(identity: nat, dispute: Dispute)

  function Parse(disputes: seq<Dispute>): (r: seq<Parsed>)
    ensures |r| == |disputes| && forall i | 0 <= i < |r| :: r[i] == Parsed(i, disputes[i])
  {
    seq(|disputes|, i requires 0 <= i < |disputes| => Parsed(i, disputes[i]))
  }

  function Disputes(parsed: seq<Parsed>): seq<Dispute> {
    Map((p: Parsed) => p.dispute, parsed)
  }

  /** `indexOf`: the first position that holds this very object. */
  function IndexOf(parsed: seq<Parsed>, p: Parsed): (k: nat)
    requires p in parsed
    ensures k < |parsed| && parsed[k] == p && p !in parsed[..k]
  {
    FirstIndex(parsed, (q: Parsed) => q == p)
  }

  lemma {:induction false} SelectAppend<T>(xs: seq<T>, f: seq<Fate>, ys: seq<T>, g: seq<Fate>, p: Fate -> bool)
    requires |xs| == |f| && |ys| == |g|
    ensures Select(xs + ys, f + g, p) == Select(xs, f, p) + Select(ys, g, p)
  {
    if xs == [] {
      assert xs + ys == ys && f + g == g;
    } else {
      SelectAppend(xs[1..], f[1..], ys, g, p);
      assert (xs + ys)[1..] == xs[1..] + ys && (f + g)[1..] == f[1..] + g;
      assert (xs + ys)[0] == xs[0] && (f + g)[0] == f[0];
      var rest := Select(xs[1..], f[1..], p);
      assert [xs[0]] + (rest + Select(ys, g, p)) == ([xs[0]] + rest) + Select(ys, g, p);
    }
  }

  class Resolver {
    /** The queue file; `None` when it is missing or cannot be parsed, which reads as an empty queue. */
    var stored: Option<seq<Dispute>>
    var resolvedLog: seq<Dispute>

    constructor (stored: Option<seq<Dispute>>)
      ensures this.stored == stored && resolvedLog == []
    {
      this.stored, resolvedLog := stored, [];
    }

    function Queue(): seq<Dispute>
      reads this
    {
      if stored.Some? then stored.value else []
    }

    method QueueDispute(disputeType: string, details: string, timestamp: string)
      modifies this
      ensures stored.Some? && Queue() == old(Queue()) + [Dispute(disputeType, details, timestamp)]
      ensures stored == Some((if old(stored).Some? then old(stored).value else [])
                             + [Dispute(disputeType, details, timestamp)])
      ensures resolvedLog == old(resolvedLog)
    {
      stored := Some(Queue() + [Dispute(disputeType, details, timestamp)]);
    }

    /**
     * `outcome(k)` is how the k-th attempt of this pass ends; `policyLoads` tells whether the policy file is
     * readable.
     */
    method ProcessDisputeQueue(policyLoads: bool, outcome: nat -> Outcome) returns (r: Result<(), string>)
      modifies this
      ensures r.Success? <==> policyLoads
      ensures !policyLoads ==> stored == old(stored) && resolvedLog == old(resolvedLog)
      ensures policyLoads ==>
                && stored.Some?
                && Queue() == Select(old(Queue()), Fates(|old(Queue())|, outcome, 0), IsLeft)
                && resolvedLog == old(resolvedLog) + Select(old(Queue()), Fates(|old(Queue())|, outcome, 0), IsLogged)
      ensures policyLoads && old(stored).None? ==> stored == Some([]) && resolvedLog == old(resolvedLog)
      ensures policyLoads && old(stored).Some? ==>
                && stored == Some(Select(old(stored).value, Fates(|old(stored).value|, outcome, 0), IsLeft))
                && resolvedLog
                == old(resolvedLog) + Select(old(stored).value, Fates(|old(stored).value|, outcome, 0), IsLogged)
    {
      if !policyLoads {
        return Failure("Arbitration policy load failure.");
      }
      var parsed := WalkQueue(Queue(), outcome);
      SelectOfParse(Queue(), Fates(|Queue()|, outcome, 0), IsLeft);
      stored := Some(Disputes(parsed));
      r := Success(());
    }

    /** The `for..of` loop: a cursor over an array that its own body splices. */
    method WalkQueue(disputes: seq<Dispute>, outcome: nat -> Outcome) returns (parsed: seq<Parsed>)
      modifies this`resolvedLog
      ensures parsed == Select(Parse(disputes), Fates(|disputes|, outcome, 0), IsLeft)
      ensures resolvedLog == old(resolvedLog) + Select(disputes, Fates(|disputes|, outcome, 0), IsLogged)
    {
      parsed := Parse(disputes);
      ghost var all := parsed;
      ghost var done: nat, left: seq<Parsed>, logged: seq<Parsed> := 0, [], [];
      var cursor, attempts: nat := 0, 0;
      MidStart(disputes, outcome);
      while cursor < |parsed|
        invariant Mid(all, outcome, done, left, parsed, cursor, attempts)
        invariant LoggedSoFar(all, outcome, done, logged)
        invariant resolvedLog == old(resolvedLog) + Disputes(logged)
        decreases |all| - done
      {
        parsed, done, left, logged := Attempt(parsed, cursor, outcome, attempts, all, done, left, logged,
                                              old(resolvedLog));
        attempts := attempts + 1;
        cursor := cursor + 1;
      }
      MidEnd(all, outcome, done, left, parsed, cursor, attempts);
      LoggedEnd(all, outcome, logged);
      SelectOfParse(disputes, Fates(|disputes|, outcome, 0), IsLogged);
    }

    /** One round of the loop: the attempt at the cursor, and the splice when it succeeds. */
    method Attempt(parsed: seq<Parsed>, cursor: nat, outcome: nat -> Outcome, attempts: nat, ghost all: seq<Parsed>,
                   ghost done: nat, ghost left: seq<Parsed>, ghost logged: seq<Parsed>, ghost before: seq<Dispute>)
      returns (parsed': seq<Parsed>, ghost done': nat, ghost left': seq<Parsed>, ghost logged': seq<Parsed>)
      requires Mid(all, outcome, done, left, parsed, cursor, attempts) && cursor < |parsed|
      requires LoggedSoFar(all, outcome, done, logged) && resolvedLog == before + Disputes(logged)
      modifies this`resolvedLog
      ensures Mid(all, outcome, done', left', parsed', cursor + 1, attempts + 1) && done' > done
      ensures LoggedSoFar(all, outcome, done', logged') && resolvedLog == before + Disputes(logged')
    {
      var dispute := parsed[cursor];
      logged' := logged;
      if outcome(attempts) != HandlerFailed {
        resolvedLog := resolvedLog + [dispute.dispute];
        logged' := logged + [dispute];
        assert resolvedLog == before + Disputes(logged');
      }
      if outcome(attempts) == Resolved {
        LoggedRemoved(all, outcome, done, attempts, logged);
        IndexOfCursor(all, outcome, done, left, parsed, cursor, attempts);
        var at := IndexOf(parsed, dispute);
        parsed' := parsed[..at] + parsed[at + 1..];
        if done + 1 < |all| {
          MidRemoved(all, outcome, done, left, parsed, cursor, attempts);
          done', left' := done + 2, left + [all[done + 1]];
        } else {
          MidRemovedLast(all, outcome, done, left, parsed, cursor, attempts);
          done', left' := done + 1, left;
        }
      } else {
        LoggedKept(all, outcome, done, attempts, logged);
        MidKept(all, outcome, done, left, parsed, cursor, attempts);
        assert logged + [] == logged;
        parsed', done', left' := parsed, done + 1, left + [dispute];
      }
    }
  }

  /**
   * Halfway through a pass over `all`: `done` entries are dealt with, `left` are those of them that
   * stay, and the array is `left` followed by the entries still to come.
   */
  ghost predicate Mid(all: seq<Parsed>, outcome: nat -> Outcome, done: nat, left: seq<Parsed>, parsed: seq<Parsed>,
                      cursor: nat, attempts: nat)
  {
    && (forall i | 0 <= i < |all| :: all[i].identity == i)
    && done <= |all| && parsed == left + all[done..]
    && (cursor == |left| || (done == |all| && cursor == |left| + 1))
    && (forall k | 0 <= k < |left| :: left[k].identity < done)
    && left == Select(all[..done], Fates(|all|, outcome, 0)[..done], IsLeft)
    && Fates(|all|, outcome, 0)[done..] == Fates(|all| - done, outcome, attempts)
  }

  lemma MidKept(all: seq<Parsed>, outcome: nat -> Outcome, done: nat, left: seq<Parsed>, parsed: seq<Parsed>,
                cursor: nat, attempts: nat)
    requires Mid(all, outcome, done, left, parsed, cursor, attempts)
    requires cursor < |parsed| && outcome(attempts) != Resolved
    ensures Mid(all, outcome, done + 1, left + [parsed[cursor]], parsed, cursor + 1, attempts + 1)
  {
    StepKept(all, Fates(|all|, outcome, 0), done, outcome, attempts, IsLeft);
    assert all[done..] == [all[done]] + all[done + 1..];
  }

  lemma IndexOfCursor(all: seq<Parsed>, outcome: nat -> Outcome, done: nat, left: seq<Parsed>, parsed: seq<Parsed>,
                      cursor: nat, attempts: nat)
    requires Mid(all, outcome, done, left, parsed, cursor, attempts) && cursor < |parsed|
    ensures IndexOf(parsed, parsed[cursor]) == cursor
  {
    assert parsed[..cursor] == left && parsed[cursor] == all[done];
    IndexOfFirst(parsed, cursor);
  }

  lemma IndexOfFirst(parsed: seq<Parsed>, k: nat)
    requires k < |parsed| && parsed[k] !in parsed[..k]
    ensures IndexOf(parsed, parsed[k]) == k
  {
    assert forall i | 0 <= i < k :: parsed[i] in parsed[..k];
  }

  lemma MidStart(disputes: seq<Dispute>, outcome: nat -> Outcome)
    ensures Mid(Parse(disputes), outcome, 0, [], Parse(disputes), 0, 0)
  {
  }

  lemma MidEnd(all: seq<Parsed>, outcome: nat -> Outcome, done: nat, left: seq<Parsed>, parsed: seq<Parsed>,
               cursor: nat, attempts: nat)
    requires Mid(all, outcome, done, left, parsed, cursor, attempts) && cursor >= |parsed|
    ensures done == |all| && parsed == Select(all, Fates(|all|, outcome, 0), IsLeft)
  {
    assert all[..|all|] == all && Fates(|all|, outcome, 0)[..|all|] == Fates(|all|, outcome, 0);
  }

  lemma MidRemoved(all: seq<Parsed>, outcome: nat -> Outcome, done: nat, left: seq<Parsed>, parsed: seq<Parsed>,
                   cursor: nat, attempts: nat)
    requires Mid(all, outcome, done, left, parsed, cursor, attempts)
    requires cursor < |parsed| && outcome(attempts) == Resolved
    requires done + 1 < |all|
    ensures var parsed' := parsed[..cursor] + parsed[cursor + 1..];
            Mid(all, outcome, done + 2, left + [all[done + 1]], parsed', cursor + 1, attempts + 1)
  {
    StepRemoved(all, Fates(|all|, outcome, 0), done, outcome, attempts, IsLeft);
    Splice(left, all[done..]);
    assert all[done..][1..] == [all[done + 1]] + all[done + 2..];
  }

  lemma MidRemovedLast(all: seq<Parsed>, outcome: nat -> Outcome, done: nat, left: seq<Parsed>, parsed: seq<Parsed>,
                       cursor: nat, attempts: nat)
    requires Mid(all, outcome, done, left, parsed, cursor, attempts)
    requires cursor < |parsed| && outcome(attempts) == Resolved
    requires done + 1 == |all|
    ensures Mid(all, outcome, done + 1, left, parsed[..cursor] + parsed[cursor + 1..], cursor + 1, attempts + 1)
  {
    StepRemoved(all, Fates(|all|, outcome, 0), done, outcome, attempts, IsLeft);
    Splice(left, all[done..]);
    assert left + [] == left && all[done..][1..] == [] == all[done + 1..];
  }

  lemma Splice<T>(left: seq<T>, rest: seq<T>)
    requires rest != []
    ensures var k := |left|; (left + rest)[..k] + (left + rest)[k + 1..] == left + rest[1..]
  {
  }

  /** The entries logged so far are the logged ones of those dealt with. */
  ghost predicate LoggedSoFar(all: seq<Parsed>, outcome: nat -> Outcome, done: nat, logged: seq<Parsed>) {
    done <= |all| && logged == Select(all[..done], Fates(|all|, outcome, 0)[..done], IsLogged)
  }

  lemma LoggedKept(all: seq<Parsed>, outcome: nat -> Outcome, done: nat, attempts: nat, logged: seq<Parsed>)
    requires LoggedSoFar(all, outcome, done, logged) && done < |all| && outcome(attempts) != Resolved
    requires Fates(|all|, outcome, 0)[done..] == Fates(|all| - done, outcome, attempts)
    ensures LoggedSoFar(all, outcome, done + 1, logged + if outcome(attempts) == HandlerFailed then [] else [all[done]])
  {
    StepKept(all, Fates(|all|, outcome, 0), done, outcome, attempts, IsLogged);
  }

  lemma LoggedRemoved(all: seq<Parsed>, outcome: nat -> Outcome, done: nat, attempts: nat, logged: seq<Parsed>)
    requires LoggedSoFar(all, outcome, done, logged) && done < |all| && outcome(attempts) == Resolved
    requires Fates(|all|, outcome, 0)[done..] == Fates(|all| - done, outcome, attempts)
    ensures LoggedSoFar(all, outcome, if done + 1 < |all| then done + 2 else done + 1, logged + [all[done]])
  {
    StepRemoved(all, Fates(|all|, outcome, 0), done, outcome, attempts, IsLogged);
    assert logged + [all[done]] + [] == logged + [all[done]];
  }

  lemma LoggedEnd(all: seq<Parsed>, outcome: nat -> Outcome, logged: seq<Parsed>)
    requires LoggedSoFar(all, outcome, |all|, logged)
    ensures logged == Select(all, Fates(|all|, outcome, 0), IsLogged)
  {
    assert all[..|all|] == all && Fates(|all|, outcome, 0)[..|all|] == Fates(|all|, outcome, 0);
  }

  lemma SelectNext<T>(all: seq<T>, fates: seq<Fate>, k: nat, p: Fate -> bool)
    requires |all| == |fates| && k < |all|
    ensures Select(all[..k + 1], fates[..k + 1], p)
         == Select(all[..k], fates[..k], p) + if p(fates[k]) then [all[k]] else []
  {
    assert all[..k + 1] == all[..k] + [all[k]] && fates[..k + 1] == fates[..k] + [fates[k]];
    SelectAppend(all[..k], fates[..k], [all[k]], [fates[k]], p);
    assert [all[k]][1..] == [];
  }

  /** The prefix of the pass grows by one entry whose attempt failed. */
  lemma StepKept<T>(all: seq<T>, fates: seq<Fate>, done: nat, outcome: nat -> Outcome, n: nat, p: Fate -> bool)
    requires |all| == |fates| && done < |all| && outcome(n) != Resolved
    requires fates[done..] == Fates(|all| - done, outcome, n)
    ensures fates[done + 1..] == Fates(|all| - done - 1, outcome, n + 1)
    ensures Select(all[..done + 1], fates[..done + 1], p)
         == Select(all[..done], fates[..done], p) + if p(FateOf(outcome(n))) then [all[done]] else []
  {
    assert fates[done] == fates[done..][0];
    assert fates[done + 1..] == fates[done..][1..];
    SelectNext(all, fates, done, p);
  }

  /** The prefix of the pass grows by a removed entry and the one that slides under the cursor. */
  lemma StepRemoved<T>(all: seq<T>, fates: seq<Fate>, done: nat, outcome: nat -> Outcome, n: nat, p: Fate -> bool)
    requires |all| == |fates| && done < |all| && outcome(n) == Resolved
    requires fates[done..] == Fates(|all| - done, outcome, n)
    ensures var next := if done + 1 < |all| then done + 2 else done + 1;
            && fates[next..] == Fates(|all| - next, outcome, n + 1)
            && Select(all[..next], fates[..next], p)
            == Select(all[..done], fates[..done], p)
               + (if p(Removed) then [all[done]] else [])
               + if next == done + 2 && p(Skipped) then [all[done + 1]] else []
  {
    assert fates[done] == fates[done..][0];
    SelectNext(all, fates, done, p);
    if done + 1 < |all| {
      assert fates[done + 1] == fates[done..][1];
      assert fates[done + 2..] == fates[done..][2..];
      SelectNext(all, fates, done + 1, p);
    } else {
      assert fates[done + 1..] == fates[done..][1..];
    }
  }

  lemma {:induction false} SelectDisputes(parsed: seq<Parsed>, fates: seq<Fate>, p: Fate -> bool)
    requires |parsed| == |fates|
    ensures Disputes(Select(parsed, fates, p)) == Select(Disputes(parsed), fates, p)
  {
    if parsed != [] {
      SelectDisputes(parsed[1..], fates[1..], p);
      assert Disputes(parsed)[1..] == Disputes(parsed[1..]);
    }
  }

  lemma SelectOfParse(disputes: seq<Dispute>, fates: seq<Fate>, p: Fate -> bool)
    requires |disputes| == |fates|
    ensures Disputes(Select(Parse(disputes), fates, p)) == Select(disputes, fates, p)
  {
    SelectDisputes(Parse(disputes), fates, p);
    assert Disputes(Parse(disputes)) == disputes;
  }
}
