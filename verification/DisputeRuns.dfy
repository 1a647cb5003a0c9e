/** Repeated passes over the dispute queue, with disputes arriving in between. */
module DisputeRuns {
  import opened Arithmetic
  import opened DisputePass
  import StableSort

  function AfterPass<T>(xs: seq<T>, outcome: nat -> Outcome): seq<T> {
    Select(xs, Fates(|xs|, outcome, 0), IsLeft)
  }

  /**
   * The queue before pass p + 1: `outcomes(p)` governs that pass and `arrivals(p)` are the disputes
   * queued between it and the next one.
   */
  function Rounds<T>(xs: seq<T>, outcomes: nat -> nat -> Outcome, arrivals: nat -> seq<T>, p: nat): seq<T> {
    if p == 0 then xs
    else AfterPass(Rounds(xs, outcomes, arrivals, p - 1), outcomes(p - 1)) + arrivals(p - 1)
  }

  // ----- conservation over runs -----

  function RemovedIn<T>(xs: seq<T>, outcomes: nat -> nat -> Outcome, arrivals: nat -> seq<T>, p: nat): seq<T> {
    if p == 0 then []
    else
      var q := Rounds(xs, outcomes, arrivals, p - 1);
      RemovedIn(xs, outcomes, arrivals, p - 1) + Select(q, Fates(|q|, outcomes(p - 1), 0), IsRemoved)
  }

  function Arrived<T>(arrivals: nat -> seq<T>, p: nat): seq<T> {
    if p == 0 then [] else Arrived(arrivals, p - 1) + arrivals(p - 1)
  }

  /** What was there at the start, and what arrived, is removed or still queued, each once. */
  ghost predicate Conserved<T>(removed: seq<T>, queue: seq<T>, start: seq<T>, arrived: seq<T>) {
    multiset(removed) + multiset(queue) == multiset(start) + multiset(arrived)
  }

  /** However the attempts end, what was queued is either removed or still queued, each once. */
  lemma {:induction false} RunConserves<T>(xs: seq<T>, outcomes: nat -> nat -> Outcome, arrivals: nat -> seq<T>, p: nat)
    ensures Conserved(RemovedIn(xs, outcomes, arrivals, p), Rounds(xs, outcomes, arrivals, p), xs, Arrived(arrivals, p))
  {
    if p > 0 {
      RunConserves(xs, outcomes, arrivals, p - 1);
      OneMorePass(xs, outcomes, arrivals, p);
    }
  }

  lemma OneMorePass<T>(xs: seq<T>, outcomes: nat -> nat -> Outcome, arrivals: nat -> seq<T>, p: nat)
    requires p > 0
    requires Conserved(RemovedIn(xs, outcomes, arrivals, p - 1), Rounds(xs, outcomes, arrivals, p - 1),
                       xs, Arrived(arrivals, p - 1))
    ensures Conserved(RemovedIn(xs, outcomes, arrivals, p), Rounds(xs, outcomes, arrivals, p), xs, Arrived(arrivals, p))
  {
    var q := Rounds(xs, outcomes, arrivals, p - 1);
    PassWithBatch(RemovedIn(xs, outcomes, arrivals, p - 1), q, outcomes(p - 1), arrivals(p - 1),
                  xs, Arrived(arrivals, p - 1));
  }

  lemma PassWithBatch<T>(removed: seq<T>, q: seq<T>, outcome: nat -> Outcome, batch: seq<T>, start: seq<T>,
                         arrived: seq<T>)
    requires Conserved(removed, q, start, arrived)
    ensures Conserved(removed + Select(q, Fates(|q|, outcome, 0), IsRemoved), AfterPass(q, outcome) + batch,
                      start, arrived + batch)
  {
    var f := Fates(|q|, outcome, 0);
    SelectSplits(q, f);
    Regroup(multiset(removed), multiset(Select(q, f, IsRemoved)), multiset(Select(q, f, IsLeft)), multiset(batch),
            multiset(start), multiset(arrived));
  }

  lemma Regroup<T>(removed: multiset<T>, now: multiset<T>, kept: multiset<T>, batch: multiset<T>, start: multiset<T>,
                   arrived: multiset<T>)
    requires removed + (now + kept) == start + arrived
    ensures (removed + now) + (kept + batch) == start + (arrived + batch)
  {
    assert (removed + now) + (kept + batch) == (removed + (now + kept)) + batch;
  }

  // ----- the log over runs -----

  /** The disputes whose resolution is logged in the first `p` passes, in order. */
  function LoggedIn<T>(xs: seq<T>, outcomes: nat -> nat -> Outcome, arrivals: nat -> seq<T>, p: nat): seq<T> {
    if p == 0 then []
    else
      var q := Rounds(xs, outcomes, arrivals, p - 1);
      LoggedIn(xs, outcomes, arrivals, p - 1) + Select(q, Fates(|q|, outcomes(p - 1), 0), IsLogged)
  }

  /** No attempt of a pass over `length` entries fails to notify. */
  ghost predicate Notifies(length: nat, outcome: nat -> Outcome) {
    forall a | 0 <= a < Attempts(Fates(length, outcome, 0), length) :: outcome(a) != NotificationFailed
  }

  /** Attempt `a` of a pass is made on some entry. */
  lemma {:induction false} AttemptedEntry(fates: seq<Fate>, n: nat, a: nat) returns (i: nat)
    requires n <= |fates| && a < Attempts(fates, n)
    ensures i < n && fates[i] != Skipped && Attempts(fates, i) == a
  {
    if a < Attempts(fates, n - 1) {
      i := AttemptedEntry(fates, n - 1, a);
    } else {
      i := n - 1;
    }
  }

  lemma {:induction false} AttemptsGrow(fates: seq<Fate>, i: nat, n: nat)
    requires i < n <= |fates| && fates[i] != Skipped
    ensures Attempts(fates, i) < Attempts(fates, n)
  {
    if i + 1 < n {
      AttemptsGrow(fates, i, n - 1);
    }
  }

  lemma NotifiesMeansFates(length: nat, outcome: nat -> Outcome)
    ensures Notifies(length, outcome) <==> Unnotified !in Fates(length, outcome, 0)
  {
    var f := Fates(length, outcome, 0);
    FatesObeyLaw(length, outcome, 0);
    if Unnotified in f {
      var i :| 0 <= i < length && f[i] == Unnotified;
      assert LawAt(f, outcome, 0, i);
      AttemptsGrow(f, i, length);
    }
    forall a | 0 <= a < Attempts(f, length) && outcome(a) == NotificationFailed
      ensures Unnotified in f
    {
      var i := AttemptedEntry(f, length, a);
      assert LawAt(f, outcome, 0, i);
      assert f[i] == Unnotified;
    }
  }

  /** A pass logs what it removes, and the entries whose notification fails besides. */
  lemma {:induction false} LoggedAndRemoved<T>(xs: seq<T>, fates: seq<Fate>)
    requires |xs| == |fates|
    ensures |Select(xs, fates, IsLogged)| >= |Select(xs, fates, IsRemoved)|
    ensures |Select(xs, fates, IsLogged)| == |Select(xs, fates, IsRemoved)| <==> Unnotified !in fates
    ensures Unnotified !in fates ==> Select(xs, fates, IsLogged) == Select(xs, fates, IsRemoved)
  {
    if xs != [] {
      LoggedAndRemoved(xs[1..], fates[1..]);
      assert fates == [fates[0]] + fates[1..];
    }
  }

  /** The pass after `r` passes notifies whomever it attempts to. */
  ghost predicate NotifiesInPass<T>(xs: seq<T>, outcomes: nat -> nat -> Outcome, arrivals: nat -> seq<T>, r: nat) {
    Notifies(|Rounds(xs, outcomes, arrivals, r)|, outcomes(r))
  }

  ghost predicate NotifiesUpTo<T>(xs: seq<T>, outcomes: nat -> nat -> Outcome, arrivals: nat -> seq<T>, p: nat) {
    forall r | 0 <= r < p :: NotifiesInPass(xs, outcomes, arrivals, r)
  }

  lemma {:induction false} LogLength<T>(xs: seq<T>, outcomes: nat -> nat -> Outcome, arrivals: nat -> seq<T>, p: nat)
    ensures |LoggedIn(xs, outcomes, arrivals, p)| >= |RemovedIn(xs, outcomes, arrivals, p)|
    ensures |LoggedIn(xs, outcomes, arrivals, p)| == |RemovedIn(xs, outcomes, arrivals, p)|
       <==> NotifiesUpTo(xs, outcomes, arrivals, p)
  {
    if p > 0 {
      LogLength(xs, outcomes, arrivals, p - 1);
      LogOfPass(Rounds(xs, outcomes, arrivals, p - 1), outcomes(p - 1));
      OneMoreNotified(xs, outcomes, arrivals, p);
    }
  }

  lemma OneMoreNotified<T>(xs: seq<T>, outcomes: nat -> nat -> Outcome, arrivals: nat -> seq<T>, p: nat)
    requires p > 0
    ensures NotifiesUpTo(xs, outcomes, arrivals, p)
       <==> NotifiesUpTo(xs, outcomes, arrivals, p - 1)
            && Notifies(|Rounds(xs, outcomes, arrivals, p - 1)|, outcomes(p - 1))
  {
    assert NotifiesInPass(xs, outcomes, arrivals, p - 1)
      <==> Notifies(|Rounds(xs, outcomes, arrivals, p - 1)|, outcomes(p - 1));
  }

  lemma LogOfPass<T>(q: seq<T>, outcome: nat -> Outcome)
    ensures var f := Fates(|q|, outcome, 0);
            && |Select(q, f, IsLogged)| >= |Select(q, f, IsRemoved)|
            && (|Select(q, f, IsLogged)| == |Select(q, f, IsRemoved)| <==> Notifies(|q|, outcome))
            && (Notifies(|q|, outcome) ==> Select(q, f, IsLogged) == Select(q, f, IsRemoved))
  {
    NotifiesMeansFates(|q|, outcome);
    LoggedAndRemoved(q, Fates(|q|, outcome, 0));
  }

  lemma {:induction false} LogWhenNotified<T>(xs: seq<T>, outcomes: nat -> nat -> Outcome, arrivals: nat -> seq<T>,
                                              p: nat)
    requires NotifiesUpTo(xs, outcomes, arrivals, p)
    ensures LoggedIn(xs, outcomes, arrivals, p) == RemovedIn(xs, outcomes, arrivals, p)
  {
    if p > 0 {
      OneMoreNotified(xs, outcomes, arrivals, p);
      LogWhenNotified(xs, outcomes, arrivals, p - 1);
      LogOfPass(Rounds(xs, outcomes, arrivals, p - 1), outcomes(p - 1));
    }
  }

  /**
   * Over any run the log lists exactly the removed disputes, in the order of their removal, exactly when
   * no attempt fails to notify. Otherwise it is longer: each such attempt logs a dispute that stays.
   */
  lemma LogIsRemovedExactly<T>(xs: seq<T>, outcomes: nat -> nat -> Outcome, arrivals: nat -> seq<T>, p: nat)
    ensures var logged, removed := LoggedIn(xs, outcomes, arrivals, p), RemovedIn(xs, outcomes, arrivals, p);
            if NotifiesUpTo(xs, outcomes, arrivals, p) then logged == removed else |logged| > |removed|
  {
    LogLength(xs, outcomes, arrivals, p);
    if NotifiesUpTo(xs, outcomes, arrivals, p) {
      LogWhenNotified(xs, outcomes, arrivals, p);
    }
  }

  /** The failing case: a dispute whose notification fails in the first pass is logged again in the second. */
  lemma LoggedTwice<T>(d: T)
    ensures var outcomes: nat -> nat -> Outcome := p => _ => if p == 0 then NotificationFailed else Resolved;
            && RemovedIn([d], outcomes, NoArrivals, 2) == [d]
            && LoggedIn([d], outcomes, NoArrivals, 2) == [d, d]
  {
    var outcomes: nat -> nat -> Outcome := p => _ => if p == 0 then NotificationFailed else Resolved;
    assert [d][1..] == [];
    assert Fates(1, outcomes(0), 0) == [Unnotified] && Fates(1, outcomes(1), 0) == [Removed];
    assert [Unnotified][1..] == [] && [Removed][1..] == [];
    assert Rounds([d], outcomes, NoArrivals, 0) == [d];
    assert Rounds([d], outcomes, NoArrivals, 1) == [d];
    assert LoggedIn([d], outcomes, NoArrivals, 1) == [d] && RemovedIn([d], outcomes, NoArrivals, 1) == [];
  }

  // ----- order over runs -----

  lemma {:induction false} SelectKeepsOrder<T(!new)>(xs: seq<T>, fates: seq<Fate>, p: Fate -> bool, le: (T, T) -> bool)
    requires |xs| == |fates| && StableSort.Sorted(xs, le)
    ensures StableSort.Sorted(Select(xs, fates, p), le)
    ensures forall y | y in Select(xs, fates, p) :: y in xs
  {
    if xs != [] {
      var rest := Select(xs[1..], fates[1..], p);
      SelectKeepsOrder(xs[1..], fates[1..], p, le);
      forall y | y in rest
        ensures y in xs && le(xs[0], y)
      {
        var i :| 0 <= i < |xs[1..]| && xs[1..][i] == y;
        assert xs[i + 1] == y;
      }
    }
  }

  lemma OrderWithBatch<T(!new)>(before: seq<T>, batch: seq<T>, kept: seq<T>, le: (T, T) -> bool)
    requires StableSort.Sorted(before + batch, le) && StableSort.Sorted(kept, le) && forall y | y in kept :: y in before
    ensures StableSort.Sorted(kept + batch, le)
  {
    var all := before + batch;
    forall i, j | 0 <= i < j < |kept + batch|
      ensures le((kept + batch)[i], (kept + batch)[j])
    {
      if j >= |kept| {
        var b := j - |kept| + |before|;
        assert all[b] == batch[j - |kept|];
        if i < |kept| {
          assert kept[i] in before;
          var a :| 0 <= a < |before| && before[a] == kept[i];
          assert all[a] == kept[i];
        } else {
          assert all[i - |kept| + |before|] == batch[i - |kept|];
        }
      }
    }
  }

  /** Whatever relation orders the arrivals orders the queue: disputes never overtake each other. */
  lemma {:induction false} RunKeepsArrivalOrder<T(!new)>(xs: seq<T>, outcomes: nat -> nat -> Outcome,
                                                  arrivals: nat -> seq<T>,
                                                         p: nat, le: (T, T) -> bool)
    requires StableSort.Sorted(xs + Arrived(arrivals, p), le)
    ensures StableSort.Sorted(Rounds(xs, outcomes, arrivals, p), le)
    ensures forall y | y in Rounds(xs, outcomes, arrivals, p) :: y in xs + Arrived(arrivals, p)
  {
    if p == 0 {
      assert xs + Arrived(arrivals, 0) == xs;
    } else {
      var before, batch := xs + Arrived(arrivals, p - 1), arrivals(p - 1);
      assert xs + Arrived(arrivals, p) == before + batch;
      assert forall i | 0 <= i < |before| :: before[i] == (before + batch)[i];
      RunKeepsArrivalOrder(xs, outcomes, arrivals, p - 1, le);
      var q := Rounds(xs, outcomes, arrivals, p - 1);
      SelectKeepsOrder(q, Fates(|q|, outcomes(p - 1), 0), IsLeft, le);
      OrderWithBatch(before, batch, AfterPass(q, outcomes(p - 1)), le);
    }
  }

  // ----- every attempt succeeds -----

  function Succeed(n: nat): Outcome { Resolved }

  function AlwaysSucceed(p: nat): nat -> Outcome { Succeed }

  lemma {:induction false} FatesAlternate(length: nat, n: nat, i: nat)
    requires i < length
    ensures Fates(length, Succeed, n)[i] == if i % 2 == 0 then Removed else Skipped
    decreases length
  {
    if i >= 2 {
      FatesAlternate(length - 2, n + 1, i - 2);
    }
  }

  lemma {:induction false} HalfLeft(fates: seq<Fate>, i: nat)
    requires i <= |fates| && forall k | 0 <= k < i :: fates[k] == if k % 2 == 0 then Removed else Skipped
    ensures NewPosition(fates, IsLeft, i) == i / 2
  {
    if i > 0 {
      HalfLeft(fates, i - 1);
    }
  }

  lemma {:induction false} SelectLength<T>(xs: seq<T>, fates: seq<Fate>, p: Fate -> bool)
    requires |xs| == |fates|
    ensures |Select(xs, fates, p)| == NewPosition(fates, p, |fates|)
  {
    if xs != [] {
      SelectLength(xs[1..], fates[1..], p);
      NewPositionAfterHead(fates, p, |fates|);
    }
  }

  /** A pass that always succeeds keeps exactly the entries at odd positions. */
  lemma PassHalves<T>(xs: seq<T>)
    ensures var ys := AfterPass(xs, Succeed);
            |ys| == |xs| / 2 && forall j | 0 <= j < |ys| :: ys[j] == xs[2 * j + 1]
  {
    var f := Fates(|xs|, Succeed, 0);
    forall i | 0 <= i < |xs|
      ensures f[i] == if i % 2 == 0 then Removed else Skipped
    {
      FatesAlternate(|xs|, 0, i);
    }
    SelectLength(xs, f, IsLeft);
    HalfLeft(f, |xs|);
    forall j | 0 <= j < |xs| / 2
      ensures AfterPass(xs, Succeed)[j] == xs[2 * j + 1]
    {
      SelectedAt(xs, f, IsLeft, 2 * j + 1);
      HalfLeft(f, 2 * j + 1);
    }
  }

  /** Where the entry that starts at `i` stands before pass p + 1, while it is still queued. */
  function Standing(i: nat, p: nat): (k: int)
  {
    (i + 1) / Pow2(p) - 1
  }

  lemma {:induction false} StandsAt<T>(xs: seq<T>, arrivals: nat -> seq<T>, i: nat, p: nat)
    requires i < |xs| && p <= Twos(i + 1)
    ensures 0 <= Standing(i, p) < |Rounds(xs, AlwaysSucceed, arrivals, p)|
    ensures Rounds(xs, AlwaysSucceed, arrivals, p)[Standing(i, p)] == xs[i]
  {
    if p == 0 {
      assert Standing(i, 0) == i;
    } else {
      var q := Rounds(xs, AlwaysSucceed, arrivals, p - 1);
      StandsAt(xs, arrivals, i, p - 1);
      StandingHalves(i, p);
      PassHalves(q);
      assert Rounds(xs, AlwaysSucceed, arrivals, p) == AfterPass(q, Succeed) + arrivals(p - 1);
    }
  }

  lemma StandingHalves(i: nat, p: nat)
    requires 0 < p <= Twos(i + 1)
    ensures Standing(i, p) >= 0 && Standing(i, p - 1) == 2 * Standing(i, p) + 1
  {
    StandingParity(i, p - 1);
    HalveLast(i + 1, p - 1);
    OddBeforeHalf((i + 1) / Pow2(p - 1), (i + 1) / Pow2(p));
  }

  lemma OddBeforeHalf(q: nat, half: nat)
    requires half == q / 2 && (q - 1) % 2 == 1 && q >= 1
    ensures half >= 1 && q - 1 == 2 * (half - 1) + 1
  {
  }

  /** Below the exponent of 2 the entry stands at an odd position, and at the exponent at an even one. */
  lemma StandingParity(i: nat, p: nat)
    requires p <= Twos(i + 1)
    ensures Standing(i, p) % 2 == 1 <==> p < Twos(i + 1)
    ensures Standing(i, p) >= 0
  {
    var m, h := i + 1, Pow2(p);
    TwosDivide(m, p);
    TwosDivide(m, p + 1);
    var q := ExactQuotient(m, h);
    DoubleQuotient(m, h, q);
    OddBefore(q);
  }

  lemma OddBefore(q: nat)
    requires q > 0
    ensures (q - 1) % 2 == 1 <==> q % 2 == 0
  {
  }

  /**
   * When every attempt succeeds, the dispute that stands at index i is resolved in exactly pass
   * 1 + (exponent of 2 in i + 1), no matter what is queued in the meantime: it is passed over in every
   * earlier pass, keeps its place in the order, and is removed in that one.
   */
  lemma ResolvedInPass<T>(xs: seq<T>, arrivals: nat -> seq<T>, i: nat, p: nat)
    requires i < |xs| && p <= Twos(i + 1)
    ensures var q := Rounds(xs, AlwaysSucceed, arrivals, p);
            && 0 <= Standing(i, p) < |q| && q[Standing(i, p)] == xs[i]
            && Fates(|q|, AlwaysSucceed(p), 0)[Standing(i, p)] == if p < Twos(i + 1) then Skipped else Removed
  {
    StandsAt(xs, arrivals, i, p);
    StandingParity(i, p);
    FatesAlternate(|Rounds(xs, AlwaysSucceed, arrivals, p)|, 0, Standing(i, p));
  }

  // ----- how long a queue takes to drain -----

  function NoArrivals<T>(p: nat): seq<T> { [] }

  /** The passes that a queue of length `n` needs: the number of binary digits of `n`. */
  function PassesFor(n: nat): nat {
    if n == 0 then 0 else 1 + PassesFor(n / 2)
  }

  /** For n > 0 this is floor(log2 n) + 1. */
  lemma {:induction false} PassesForIsLog(n: nat)
    requires n > 0
    ensures Pow2(PassesFor(n) - 1) <= n < Pow2(PassesFor(n))
  {
    if n > 1 {
      PassesForIsLog(n / 2);
    } else {
      assert PassesFor(1) == 1 + PassesFor(0);
    }
  }

  lemma {:induction false} LengthAfter<T>(xs: seq<T>, p: nat)
    ensures |Rounds(xs, AlwaysSucceed, NoArrivals, p)| == |xs| / Pow2(p)
  {
    if p > 0 {
      LengthAfter(xs, p - 1);
      PassHalves(Rounds(xs, AlwaysSucceed, NoArrivals, p - 1));
      HalveLast(|xs|, p - 1);
    }
  }

  lemma {:induction false} EmptyAfter(n: nat, p: nat)
    ensures n / Pow2(p) == 0 <==> p >= PassesFor(n)
  {
    if n == 0 {
      assert 0 / Pow2(p) == 0;
    } else if p > 0 {
      EmptyAfter(n / 2, p - 1);
      HalveFirst(n, p - 1);
    }
  }

  /** A queue to which nothing is added is empty after p passes exactly when p reaches `PassesFor`. */
  lemma DrainsIn<T>(xs: seq<T>, p: nat)
    ensures |Rounds(xs, AlwaysSucceed, NoArrivals, p)| == |xs| / Pow2(p)
    ensures Rounds(xs, AlwaysSucceed, NoArrivals, p) == [] <==> p >= PassesFor(|xs|)
  {
    LengthAfter(xs, p);
    EmptyAfter(|xs|, p);
  }

  // ----- no dispute is passed over forever -----

  /** Where the entry that starts at `i` stands before pass p + 1, or -1 once it has been attempted. */
  function Unattempted<T>(xs: seq<T>, outcomes: nat -> nat -> Outcome, arrivals: nat -> seq<T>, i: nat,
                          p: nat): (k: int) {
    if p == 0 then i
    else
      var k := Unattempted(xs, outcomes, arrivals, i, p - 1);
      var n := |Rounds(xs, outcomes, arrivals, p - 1)|;
      if 0 <= k < n && Fates(n, outcomes(p - 1), 0)[k] == Skipped
      then NewPosition(Fates(n, outcomes(p - 1), 0), IsLeft, k) else -1
  }

  lemma SkippedMovesUp(length: nat, outcome: nat -> Outcome, k: nat)
    requires k < length && Fates(length, outcome, 0)[k] == Skipped
    ensures NewPosition(Fates(length, outcome, 0), IsLeft, k) < k
  {
    FatesObeyLaw(length, outcome, 0);
    assert LawAt(Fates(length, outcome, 0), outcome, 0, k);
  }

  lemma {:induction false} UnattemptedMovesUp<T>(xs: seq<T>, outcomes: nat -> nat -> Outcome, arrivals: nat -> seq<T>,
                                                 i: nat, p: nat)
    requires i < |xs|
    ensures var k := Unattempted(xs, outcomes, arrivals, i, p);
            var q := Rounds(xs, outcomes, arrivals, p);
            k == -1 || (0 <= k < |q| && k + p <= i && q[k] == xs[i])
  {
    if p > 0 {
      UnattemptedMovesUp(xs, outcomes, arrivals, i, p - 1);
      var k := Unattempted(xs, outcomes, arrivals, i, p - 1);
      var q := Rounds(xs, outcomes, arrivals, p - 1);
      var f := Fates(|q|, outcomes(p - 1), 0);
      if k != -1 && f[k] == Skipped {
        SkippedMovesUp(|q|, outcomes(p - 1), k);
        SelectedAt(q, f, IsLeft, k);
      }
    }
  }

  /** In pass p + 1 the dispute that starts at index i is attempted, at the place it has moved to. */
  ghost predicate AttemptedIn<T>(xs: seq<T>, outcomes: nat -> nat -> Outcome, arrivals: nat -> seq<T>, i: nat, p: nat)
    requires i < |xs|
  {
    var k, q := Unattempted(xs, outcomes, arrivals, i, p), Rounds(xs, outcomes, arrivals, p);
    0 <= k < |q| && q[k] == xs[i] && Fates(|q|, outcomes(p), 0)[k] != Skipped
  }

  /** However attempts end and whatever arrives, the dispute at index i is attempted within i + 1 passes. */
  lemma NoStarvation<T>(xs: seq<T>, outcomes: nat -> nat -> Outcome, arrivals: nat -> seq<T>, i: nat)
    requires i < |xs|
    ensures exists p | 0 <= p <= i :: AttemptedIn(xs, outcomes, arrivals, i, p)
  {
    UnattemptedMovesUp(xs, outcomes, arrivals, i, i + 1);
    var p := LastUnattempted(xs, outcomes, arrivals, i, i + 1);
    UnattemptedMovesUp(xs, outcomes, arrivals, i, p);
    assert AttemptedIn(xs, outcomes, arrivals, i, p);
  }

  lemma {:induction false} LastUnattempted<T>(xs: seq<T>, outcomes: nat -> nat -> Outcome, arrivals: nat -> seq<T>,
                                              i: nat, bound: nat)
    returns (p: nat)
    requires i < |xs| && Unattempted(xs, outcomes, arrivals, i, bound) == -1
    ensures p < bound && Unattempted(xs, outcomes, arrivals, i, p) != -1
    ensures Unattempted(xs, outcomes, arrivals, i, p + 1) == -1
  {
    if Unattempted(xs, outcomes, arrivals, i, bound - 1) == -1 {
      p := LastUnattempted(xs, outcomes, arrivals, i, bound - 1);
    } else {
      p := bound - 1;
    }
  }
}
