/**
 * One pass of `processDisputeQueue` over its queue, on values. The loop walks the array by index while
 * its body splices resolved entries out, so the entry right after a resolved one slides under the
 * cursor and is passed over.
 */
module DisputePass {

  /** How one attempt ends: with its removal, or with an error before or after the resolution is logged. */
  datatype Outcome = Resolved | HandlerFailed | NotificationFailed

  /** What becomes of one entry in one pass: how its attempt ended, or that it was passed over. */
  datatype Fate = Removed | Unhandled | Unnotified | Skipped

  function FateOf(o: Outcome): (f: Fate)
    ensures f != Skipped && (f == Removed <==> o == Resolved)
  {
    match o
    case Resolved => Removed
    case HandlerFailed => Unhandled
    case NotificationFailed => Unnotified
  }

  /** Fates of the entries from the cursor on, when `n` attempts have been made before. */
  function Fates(length: nat, outcome: nat -> Outcome, n: nat): (f: seq<Fate>)
    ensures |f| == length
    decreases length
  {
    if length == 0 then []
    else if outcome(n) != Resolved then [FateOf(outcome(n))] + Fates(length - 1, outcome, n + 1)
    else if length == 1 then [Removed]
    else [Removed, Skipped] + Fates(length - 2, outcome, n + 1)
  }

  /** The entries of `xs` whose fate satisfies `p`, in order. */
  function Select<T>(xs: seq<T>, fates: seq<Fate>, p: Fate -> bool): (ys: seq<T>)
    requires |xs| == |fates|
    ensures |ys| <= |xs|
  {
    if xs == [] then []
    else if p(fates[0]) then [xs[0]] + Select(xs[1..], fates[1..], p)
    else Select(xs[1..], fates[1..], p)
  }

  function IsRemoved(f: Fate): bool { f == Removed }

  function IsLeft(f: Fate): bool { f != Removed }

  /** The resolution of the entry was logged. */
  function IsLogged(f: Fate): bool { f == Removed || f == Unnotified }

  // ----- which entries are attempted -----

  /** Number of attempts among the first `i` entries. */
  function Attempts(fates: seq<Fate>, i: nat): nat
    requires i <= |fates|
  {
    if i == 0 then 0 else Attempts(fates, i - 1) + if fates[i - 1] == Skipped then 0 else 1
  }

  /**
   * The law of one pass: an entry is passed over exactly when the entry before it is removed; every
   * other entry is attempted, and its fate is how that attempt ends.
   */
  ghost predicate PassLaw(fates: seq<Fate>, outcome: nat -> Outcome, n: nat) {
    forall i | 0 <= i < |fates| :: LawAt(fates, outcome, n, i)
  }

  predicate LawAt(fates: seq<Fate>, outcome: nat -> Outcome, n: nat, i: nat)
    requires i < |fates|
  {
    && (fates[i] == Skipped <==> i > 0 && fates[i - 1] == Removed)
    && (fates[i] != Skipped ==> fates[i] == FateOf(outcome(n + Attempts(fates, i))))
  }

  lemma {:induction false} AttemptsAfter(fates: seq<Fate>, k: nat, i: nat)
    requires k <= i <= |fates|
    ensures Attempts(fates, i) == Attempts(fates, k) + Attempts(fates[k..], i - k)
  {
    if i > k {
      AttemptsAfter(fates, k, i - 1);
    }
  }

  lemma LawOfRest(f: seq<Fate>, outcome: nat -> Outcome, n: nat, k: nat, i: nat)
    requires k <= i < |f| && Attempts(f, k) == 1
    requires i == k ==> f[k - 1] != Removed && k > 0
    requires LawAt(f[k..], outcome, n + 1, i - k)
    ensures LawAt(f, outcome, n, i)
  {
    AttemptsAfter(f, k, i);
  }

  lemma {:induction false} FatesObeyLawAt(length: nat, outcome: nat -> Outcome, n: nat, i: nat)
    requires i < length
    ensures LawAt(Fates(length, outcome, n), outcome, n, i)
    decreases length
  {
    var f := Fates(length, outcome, n);
    var k := if outcome(n) == Resolved && length > 1 then 2 else 1;
    assert Attempts(f, 1) == Attempts(f, 0) + 1;
    if i >= k {
      FatesObeyLawAt(length - k, outcome, n + 1, i - k);
      assert f[k..] == Fates(length - k, outcome, n + 1);
      LawOfRest(f, outcome, n, k, i);
    }
  }

  lemma FatesObeyLaw(length: nat, outcome: nat -> Outcome, n: nat)
    ensures PassLaw(Fates(length, outcome, n), outcome, n)
  {
    forall i | 0 <= i < length
      ensures LawAt(Fates(length, outcome, n), outcome, n, i)
    {
      FatesObeyLawAt(length, outcome, n, i);
    }
  }

  lemma {:induction false} SameAttempts(f: seq<Fate>, g: seq<Fate>, i: nat)
    requires i <= |f| && i <= |g| && forall j | 0 <= j < i :: f[j] == g[j]
    ensures Attempts(f, i) == Attempts(g, i)
  {
    if i > 0 {
      SameAttempts(f, g, i - 1);
    }
  }

  lemma {:induction false} LawDeterminesFate(f: seq<Fate>, g: seq<Fate>, outcome: nat -> Outcome, n: nat, i: nat)
    requires |f| == |g| && PassLaw(f, outcome, n) && PassLaw(g, outcome, n) && i <= |f|
    ensures forall j | 0 <= j < i :: f[j] == g[j]
  {
    if i > 0 {
      LawDeterminesFate(f, g, outcome, n, i - 1);
      SameAttempts(f, g, i - 1);
      assert LawAt(f, outcome, n, i - 1) && LawAt(g, outcome, n, i - 1);
    }
  }

  /** The law leaves no choice: `Fates` are the only fates that obey it. */
  lemma FatesAreTheLaw(fates: seq<Fate>, outcome: nat -> Outcome, n: nat)
    ensures fates == Fates(|fates|, outcome, n) <==> PassLaw(fates, outcome, n)
  {
    FatesObeyLaw(|fates|, outcome, n);
    if PassLaw(fates, outcome, n) {
      LawDeterminesFate(fates, Fates(|fates|, outcome, n), outcome, n, |fates|);
    }
  }

  // ----- nothing is lost, and order is kept -----

  lemma {:induction false} SelectSplits<T>(xs: seq<T>, fates: seq<Fate>)
    requires |xs| == |fates|
    ensures multiset(Select(xs, fates, IsRemoved)) + multiset(Select(xs, fates, IsLeft)) == multiset(xs)
    ensures |Select(xs, fates, IsRemoved)| + |Select(xs, fates, IsLeft)| == |xs|
  {
    if xs != [] {
      SelectSplits(xs[1..], fates[1..]);
      assert xs == [xs[0]] + xs[1..];
    }
  }

  /** Position in the selection of the entry that was at `i`. */
  function NewPosition(fates: seq<Fate>, p: Fate -> bool, i: nat): (k: nat)
    requires i <= |fates|
    ensures k <= i
  {
    if i == 0 then 0 else NewPosition(fates, p, i - 1) + if p(fates[i - 1]) then 1 else 0
  }

  lemma {:induction false} NewPositionAfterHead(fates: seq<Fate>, p: Fate -> bool, i: nat)
    requires 0 < i <= |fates|
    ensures NewPosition(fates, p, i) == (if p(fates[0]) then 1 else 0) + NewPosition(fates[1..], p, i - 1)
  {
    if i > 1 {
      NewPositionAfterHead(fates, p, i - 1);
    }
  }

  /** Every selected entry is found at its new position, and new positions grow with old ones. */
  lemma {:induction false} SelectedAt<T>(xs: seq<T>, fates: seq<Fate>, p: Fate -> bool, i: nat)
    requires |xs| == |fates| && i < |xs| && p(fates[i])
    ensures NewPosition(fates, p, i) < |Select(xs, fates, p)|
    ensures Select(xs, fates, p)[NewPosition(fates, p, i)] == xs[i]
  {
    if i > 0 {
      SelectedAt(xs[1..], fates[1..], p, i - 1);
      NewPositionAfterHead(fates, p, i);
    }
  }

  lemma {:induction false} NewPositionsGrow(fates: seq<Fate>, p: Fate -> bool, i: nat, j: nat)
    requires i < j <= |fates| && p(fates[i])
    ensures NewPosition(fates, p, i) < NewPosition(fates, p, j)
  {
    if i + 1 < j {
      NewPositionsGrow(fates, p, i, j - 1);
    }
  }

  /**
   * One pass with any outcomes: removed and remaining entries together are the queue, and the
   * remaining ones keep their relative order.
   */
  lemma PassConserves<T>(xs: seq<T>, outcome: nat -> Outcome)
    ensures var f := Fates(|xs|, outcome, 0);
            && multiset(Select(xs, f, IsRemoved)) + multiset(Select(xs, f, IsLeft)) == multiset(xs)
            && (forall i | 0 <= i < |xs| && f[i] != Removed ::
                  && NewPosition(f, IsLeft, i) < |Select(xs, f, IsLeft)|
                  && Select(xs, f, IsLeft)[NewPosition(f, IsLeft, i)] == xs[i])
            && (forall i, j | 0 <= i < j < |xs| && f[i] != Removed ::
                  NewPosition(f, IsLeft, i) < NewPosition(f, IsLeft, j))
  {
    var f := Fates(|xs|, outcome, 0);
    SelectSplits(xs, f);
    forall i | 0 <= i < |xs| && f[i] != Removed
      ensures NewPosition(f, IsLeft, i) < |Select(xs, f, IsLeft)|
      ensures Select(xs, f, IsLeft)[NewPosition(f, IsLeft, i)] == xs[i]
    {
      SelectedAt(xs, f, IsLeft, i);
    }
    forall i, j | 0 <= i < j < |xs| && f[i] != Removed
      ensures NewPosition(f, IsLeft, i) < NewPosition(f, IsLeft, j)
    {
      NewPositionsGrow(f, IsLeft, i, j);
    }
  }
}
