/** Facts about finite sequences that the other modules share. */
module Sequences {

  // ----- distinctness -----

  ghost predicate Distinct<T>(xs: seq<T>) {
    forall i, j | 0 <= i < j < |xs| :: xs[i] != xs[j]
  }

  lemma {:induction false} CountsOfDistinct<T>(xs: seq<T>)
    ensures Distinct(xs) <==> forall x | x in xs :: multiset(xs)[x] == 1
  {
    if xs != [] {
      var n := |xs| - 1;
      var front, last := xs[..n], xs[n];
      assert xs == front + [last];
      CountsOfDistinct(front);
      if Distinct(xs) {
        assert Distinct(front) && last !in front;
      } else if forall x | x in xs :: multiset(xs)[x] == 1 {
        assert last in xs && multiset(xs)[last] == multiset(front)[last] + 1;
        assert last !in front;
        assert forall x | x in front :: x in xs && multiset(front)[x] == multiset(xs)[x];
      }
    }
  }

  lemma PermutationKeepsDistinct<T>(xs: seq<T>, ys: seq<T>)
    requires multiset(xs) == multiset(ys) && Distinct(xs)
    ensures Distinct(ys)
  {
    CountsOfDistinct(xs);
    CountsOfDistinct(ys);
    forall y | y in ys
      ensures multiset(ys)[y] == 1
    {
      assert y in multiset(ys);
      assert y in xs;
    }
  }

  lemma DistinctParts<T>(xs: seq<T>, ys: seq<T>)
    requires Distinct(xs + ys)
    ensures Distinct(xs) && Distinct(ys)
    ensures forall i, j | 0 <= i < |xs| && 0 <= j < |ys| :: xs[i] != ys[j]
  {
    assert forall i | 0 <= i < |xs| :: (xs + ys)[i] == xs[i];
    forall i, j | 0 <= i < |xs| && 0 <= j < |ys|
      ensures xs[i] != ys[j]
    {
      assert (xs + ys)[|xs| + j] == ys[j];
    }
    forall i, j | 0 <= i < j < |ys|
      ensures ys[i] != ys[j]
    {
      assert (xs + ys)[|xs| + i] == ys[i] && (xs + ys)[|xs| + j] == ys[j];
    }
  }

  // ----- sums -----

  function Sum(xs: seq<int>): int {
    if xs == [] then 0 else xs[0] + Sum(xs[1..])
  }

  lemma {:induction false} SumAppend(xs: seq<int>, ys: seq<int>)
    ensures Sum(xs + ys) == Sum(xs) + Sum(ys)
  {
    if xs == [] {
      assert xs + ys == ys;
    } else {
      SumAppend(xs[1..], ys);
      assert (xs + ys)[1..] == xs[1..] + ys;
    }
  }

  lemma {:induction false} SumUpdate(xs: seq<int>, i: nat, v: int)
    requires i < |xs|
    ensures Sum(xs[i := v]) == Sum(xs) - xs[i] + v
  {
    if i == 0 {
      assert xs[i := v][1..] == xs[1..];
    } else {
      SumUpdate(xs[1..], i - 1, v);
      assert xs[i := v][1..] == xs[1..][i - 1 := v];
    }
  }

  // ----- filtering -----

  function Filter<T>(xs: seq<T>, p: T -> bool): (ys: seq<T>)
    ensures |ys| <= |xs|
  {
    if xs == [] then []
    else if p(xs[0]) then [xs[0]] + Filter(xs[1..], p)
    else Filter(xs[1..], p)
  }

  function Not<T>(p: T -> bool): T -> bool {
    x => !p(x)
  }

  function Both<T>(p: T -> bool, q: T -> bool): T -> bool {
    x => p(x) && q(x)
  }

  lemma {:induction false} FilterAppend<T>(xs: seq<T>, ys: seq<T>, p: T -> bool)
    ensures Filter(xs + ys, p) == Filter(xs, p) + Filter(ys, p)
  {
    if xs == [] {
      assert xs + ys == ys;
    } else {
      FilterAppend(xs[1..], ys, p);
      assert (xs + ys)[1..] == xs[1..] + ys && (xs + ys)[0] == xs[0];
      var rest := Filter(xs[1..], p) + Filter(ys, p);
      assert [xs[0]] + rest == ([xs[0]] + Filter(xs[1..], p)) + Filter(ys, p);
    }
  }

  lemma {:induction false} FilterSelects<T>(xs: seq<T>, p: T -> bool)
    ensures forall x :: x in Filter(xs, p) <==> x in xs && p(x)
  {
    if xs != [] {
      FilterSelects(xs[1..], p);
      assert xs == [xs[0]] + xs[1..];
    }
  }

  lemma {:induction false} FilterCounts<T>(xs: seq<T>, p: T -> bool, x: T)
    ensures multiset(Filter(xs, p))[x] == if p(x) then multiset(xs)[x] else 0
  {
    if xs != [] {
      FilterCounts(xs[1..], p, x);
      assert xs == [xs[0]] + xs[1..];
    }
  }

  lemma {:induction false} FilterAgrees<T>(xs: seq<T>, p: T -> bool, q: T -> bool)
    requires forall x | x in xs :: p(x) == q(x)
    ensures Filter(xs, p) == Filter(xs, q)
  {
    if xs != [] {
      FilterAgrees(xs[1..], p, q);
    }
  }

  lemma {:induction false} FilterTwice<T>(xs: seq<T>, p: T -> bool, q: T -> bool)
    ensures Filter(Filter(xs, p), q) == Filter(xs, Both(p, q))
  {
    if xs != [] {
      FilterTwice(xs[1..], p, q);
    }
  }

  lemma FiltersCommute<T>(xs: seq<T>, p: T -> bool, q: T -> bool)
    ensures Filter(Filter(xs, p), q) == Filter(Filter(xs, q), p)
  {
    FilterTwice(xs, p, q);
    FilterTwice(xs, q, p);
    FilterAgrees(xs, Both(p, q), Both(q, p));
  }

  lemma {:induction false} FilterAll<T>(xs: seq<T>, p: T -> bool)
    requires forall x | x in xs :: p(x)
    ensures Filter(xs, p) == xs
  {
    if xs != [] {
      FilterAll(xs[1..], p);
    }
  }

  lemma {:induction false} FilterNone<T>(xs: seq<T>, p: T -> bool)
    requires forall x | x in xs :: !p(x)
    ensures Filter(xs, p) == []
  {
    if xs != [] {
      FilterNone(xs[1..], p);
    }
  }

  lemma {:induction false} FilterWeaker<T>(xs: seq<T>, p: T -> bool, q: T -> bool)
    requires forall x | x in xs :: p(x) ==> q(x)
    ensures |Filter(xs, p)| <= |Filter(xs, q)|
  {
    if xs != [] {
      FilterWeaker(xs[1..], p, q);
    }
  }

  /** When nothing satisfies `p`, everything satisfies its negation. */
  lemma {:induction false} FilterRest<T>(xs: seq<T>, p: T -> bool)
    requires Filter(xs, p) == []
    ensures Filter(xs, Not(p)) == xs
  {
    if xs != [] {
      assert !p(xs[0]);
      FilterRest(xs[1..], p);
      assert xs == [xs[0]] + xs[1..];
    }
  }

  lemma FilterKeepsDistinct<T>(xs: seq<T>, p: T -> bool)
    requires Distinct(xs)
    ensures Distinct(Filter(xs, p))
  {
    CountsOfDistinct(xs);
    FilterSelects(xs, p);
    forall x | x in Filter(xs, p)
      ensures multiset(Filter(xs, p))[x] == 1
    {
      FilterCounts(xs, p, x);
    }
    CountsOfDistinct(Filter(xs, p));
  }

  // ----- searching -----

  /** `k` is the first position whose entry satisfies `p`, or the length of the list when none does. */
  predicate IsFirst<T>(xs: seq<T>, p: T -> bool, k: nat) {
    k <= |xs| && (forall i | 0 <= i < k :: !p(xs[i])) && (k < |xs| ==> p(xs[k]))
  }

  lemma {:induction false} FirstExists<T>(xs: seq<T>, p: T -> bool)
    ensures exists k: nat :: IsFirst(xs, p, k)
  {
    if xs == [] || p(xs[0]) {
      assert IsFirst(xs, p, 0);
    } else {
      FirstExists(xs[1..], p);
      var k: nat :| IsFirst(xs[1..], p, k);
      assert IsFirst(xs, p, k + 1);
    }
  }

  /** The position that `find` and `findIndex` stop at. */
  function FirstIndex<T>(xs: seq<T>, p: T -> bool): (k: nat)
    ensures IsFirst(xs, p, k)
  {
    FirstExists(xs, p);
    var k: nat :| k <= |xs| && IsFirst(xs, p, k);
    k
  }

  // ----- mapping -----

  function Map<S, T>(f: S -> T, xs: seq<S>): (ys: seq<T>)
    ensures |ys| == |xs|
    ensures forall i | 0 <= i < |xs| :: ys[i] == f(xs[i])
  {
    seq(|xs|, i requires 0 <= i < |xs| => f(xs[i]))
  }

  // ----- order -----

  predicate Below(list: seq<nat>, n: nat) {
    forall k | 0 <= k < |list| :: list[k] < n
  }

  ghost predicate Ascending(list: seq<nat>) {
    forall i, j | 0 <= i < j < |list| :: list[i] < list[j]
  }

  /** The entries at the listed positions, in the order of the list. */
  function Chosen<T>(xs: seq<T>, chosen: seq<nat>): (ys: seq<T>)
    requires forall k | 0 <= k < |chosen| :: chosen[k] < |xs|
    ensures |ys| == |chosen| && forall k | 0 <= k < |ys| :: ys[k] == xs[chosen[k]]
  {
    seq(|chosen|, k requires 0 <= k < |chosen| => xs[chosen[k]])
  }

  /** The positions 0, 1, ..., n - 1. */
  function Range(n: nat): (r: seq<nat>)
    ensures |r| == n && forall i | 0 <= i < n :: r[i] == i
  {
    seq(n, i => i)
  }
}
