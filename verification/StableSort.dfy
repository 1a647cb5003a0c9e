/** lodash's `sortBy` and `orderBy`: a stable sort by a total preorder. */
module StableSort {
  import opened Sequences

  ghost predicate TotalPreorder<T(!new)>(le: (T, T) -> bool) {
    && (forall a, b :: le(a, b) || le(b, a))
    && (forall a, b, c :: le(a, b) && le(b, c) ==> le(a, c))
  }

  ghost predicate Sorted<T>(xs: seq<T>, le: (T, T) -> bool) {
    forall i, j | 0 <= i < j < |xs| :: le(xs[i], xs[j])
  }

  /** Elements that rank the same as `k`. */
  function Tied<T>(k: T, le: (T, T) -> bool): T -> bool {
    x => le(x, k) && le(k, x)
  }

  /** Tied elements appear in `ys` exactly as they appear in `xs`. */
  ghost predicate KeepsTies<T(!new)>(xs: seq<T>, ys: seq<T>, le: (T, T) -> bool) {
    forall k :: Filter(ys, Tied(k, le)) == Filter(xs, Tied(k, le))
  }

  /** Puts `x` just before the first element that `x` strictly precedes. */
  function Insert<T>(xs: seq<T>, x: T, le: (T, T) -> bool): (ys: seq<T>) {
    if xs == [] then [x]
    else if le(xs[0], x) then [xs[0]] + Insert(xs[1..], x, le)
    else [x] + xs
  }

  function Sort<T>(xs: seq<T>, le: (T, T) -> bool): (ys: seq<T>) {
    if xs == [] then []
    else Insert(Sort(xs[..|xs| - 1], le), xs[|xs| - 1], le)
  }

  // ----- insertion -----

  /** The position at which `Insert` places its element. */
  function InsertPosition<T>(xs: seq<T>, x: T, le: (T, T) -> bool): (k: nat)
    ensures k <= |xs|
    ensures forall i | 0 <= i < k :: le(xs[i], x)
    ensures k < |xs| ==> !le(xs[k], x)
  {
    if xs == [] || !le(xs[0], x) then 0 else 1 + InsertPosition(xs[1..], x, le)
  }

  lemma {:induction false} InsertSplits<T>(xs: seq<T>, x: T, le: (T, T) -> bool)
    ensures var k := InsertPosition(xs, x, le);
            Insert(xs, x, le) == xs[..k] + [x] + xs[k..]
  {
    if xs != [] && le(xs[0], x) {
      InsertSplits(xs[1..], x, le);
      var k := InsertPosition(xs[1..], x, le);
      assert xs[..k + 1] == [xs[0]] + xs[1..][..k];
      assert xs[k + 1..] == xs[1..][k..];
    }
  }

  lemma InsertPermutes<T>(xs: seq<T>, x: T, le: (T, T) -> bool)
    ensures multiset(Insert(xs, x, le)) == multiset(xs) + multiset{x}
  {
    var k := InsertPosition(xs, x, le);
    InsertSplits(xs, x, le);
    PutAt(xs, k, x);
  }

  lemma PutAt<T>(xs: seq<T>, k: nat, x: T)
    requires k <= |xs|
    ensures multiset(xs[..k] + [x] + xs[k..]) == multiset(xs) + multiset{x}
  {
    assert xs == xs[..k] + xs[k..];
  }

  lemma InsertSorted<T(!new)>(xs: seq<T>, x: T, le: (T, T) -> bool)
    requires TotalPreorder(le) && Sorted(xs, le)
    ensures Sorted(Insert(xs, x, le), le)
  {
    var k := InsertPosition(xs, x, le);
    InsertSplits(xs, x, le);
    if k < |xs| {
      assert le(x, xs[k]);
    }
    forall i | k <= i < |xs|
      ensures le(x, xs[i])
    {
      assert i == k || le(xs[k], xs[i]);
    }
  }

  lemma {:induction false} InsertKeepsTie<T(!new)>(xs: seq<T>, x: T, le: (T, T) -> bool, k: T)
    requires TotalPreorder(le) && Sorted(xs, le)
    ensures Filter(Insert(xs, x, le), Tied(k, le)) == Filter(xs + [x], Tied(k, le))
  {
    if xs == [] {
    } else if le(xs[0], x) {
      InsertKeepsTie(xs[1..], x, le, k);
      assert (xs + [x])[0] == xs[0] && (xs + [x])[1..] == xs[1..] + [x];
    } else {
      var tied := Tied(k, le);
      FilterAppend(xs, [x], tied);
      if tied(x) {
        forall y | y in xs
          ensures !tied(y)
        {
          assert y == xs[0] || le(xs[0], y);
        }
        FilterNone(xs, tied);
      }
      assert ([x] + xs)[1..] == xs && Filter([x], tied) == if tied(x) then [x] else [];
    }
  }

  lemma InsertKeepsTies<T(!new)>(xs: seq<T>, x: T, le: (T, T) -> bool)
    requires TotalPreorder(le) && Sorted(xs, le)
    ensures KeepsTies(xs + [x], Insert(xs, x, le), le)
  {
    forall k
      ensures Filter(Insert(xs, x, le), Tied(k, le)) == Filter(xs + [x], Tied(k, le))
    {
      InsertKeepsTie(xs, x, le, k);
    }
  }

  // ----- sorting -----

  lemma {:induction false} SortPermutes<T>(xs: seq<T>, le: (T, T) -> bool)
    ensures multiset(Sort(xs, le)) == multiset(xs)
    ensures |Sort(xs, le)| == |xs|
  {
    if xs != [] {
      var n := |xs| - 1;
      SortPermutes(xs[..n], le);
      InsertPermutes(Sort(xs[..n], le), xs[n], le);
      assert xs == xs[..n] + [xs[n]];
    }
    assert |multiset(Sort(xs, le))| == |Sort(xs, le)|;
  }

  lemma {:induction false} SortSortsStably<T(!new)>(xs: seq<T>, le: (T, T) -> bool)
    requires TotalPreorder(le)
    ensures Sorted(Sort(xs, le), le)
    ensures KeepsTies(xs, Sort(xs, le), le)
  {
    if xs != [] {
      var n := |xs| - 1;
      var front, x := xs[..n], xs[n];
      SortSortsStably(front, le);
      InsertSorted(Sort(front, le), x, le);
      InsertKeepsTies(Sort(front, le), x, le);
      assert xs == front + [x];
      forall k
        ensures Filter(Sort(xs, le), Tied(k, le)) == Filter(xs, Tied(k, le))
      {
        FilterAppend(front, [x], Tied(k, le));
        FilterAppend(Sort(front, le), [x], Tied(k, le));
      }
    }
  }

  lemma {:induction false} StableOrderIsUnique<T(!new)>(xs: seq<T>, ys: seq<T>, le: (T, T) -> bool)
    requires TotalPreorder(le)
    requires Sorted(xs, le) && Sorted(ys, le) && KeepsTies(xs, ys, le)
    ensures xs == ys
  {
    if xs == [] {
      if ys != [] {
        SameHead(ys, xs, le);
      }
    } else {
      SameHead(xs, ys, le);
      forall k
        ensures Filter(ys[1..], Tied(k, le)) == Filter(xs[1..], Tied(k, le))
      {
        assert Filter(ys, Tied(k, le)) == Filter(xs, Tied(k, le));
        var h := if Tied(k, le)(xs[0]) then [xs[0]] else [];
        assert h + Filter(ys[1..], Tied(k, le)) == h + Filter(xs[1..], Tied(k, le));
        assert Filter(ys[1..], Tied(k, le)) == (h + Filter(ys[1..], Tied(k, le)))[|h|..];
      }
      StableOrderIsUnique(xs[1..], ys[1..], le);
      assert xs == [xs[0]] + xs[1..] && ys == [ys[0]] + ys[1..];
    }
  }

  lemma SameHead<T(!new)>(xs: seq<T>, ys: seq<T>, le: (T, T) -> bool)
    requires TotalPreorder(le) && xs != []
    requires Sorted(xs, le) && Sorted(ys, le) && KeepsTies(xs, ys, le)
    ensures ys != [] && ys[0] == xs[0]
  {
    var x := xs[0];
    assert Filter(xs, Tied(x, le))[0] == x;
    FilterSelects(ys, Tied(x, le));
    assert x in Filter(ys, Tied(x, le));
    assert le(ys[0], x);
    var y := ys[0];
    assert Filter(ys, Tied(y, le))[0] == y;
    FilterSelects(xs, Tied(y, le));
    assert y in Filter(xs, Tied(y, le));
    assert le(x, y);
    assert Filter(ys, Tied(x, le))[0] == y;
  }

  /** `Sort` is the one stable sort: sorted, and ties keep their order. */
  lemma SortIsTheStableSort<T(!new)>(xs: seq<T>, ys: seq<T>, le: (T, T) -> bool)
    requires TotalPreorder(le)
    ensures ys == Sort(xs, le) <==> Sorted(ys, le) && KeepsTies(xs, ys, le)
  {
    SortSortsStably(xs, le);
    if Sorted(ys, le) && KeepsTies(xs, ys, le) {
      forall k
        ensures Filter(Sort(xs, le), Tied(k, le)) == Filter(ys, Tied(k, le))
      {
        assert Filter(ys, Tied(k, le)) == Filter(xs, Tied(k, le));
      }
      StableOrderIsUnique(ys, Sort(xs, le), le);
    }
  }

  lemma {:induction false} FilterKeepsSorted<T(!new)>(xs: seq<T>, le: (T, T) -> bool, p: T -> bool)
    requires Sorted(xs, le)
    ensures Sorted(Filter(xs, p), le)
  {
    if xs != [] {
      FilterKeepsSorted(xs[1..], le, p);
      FilterSelects(xs[1..], p);
      forall y | y in Filter(xs[1..], p)
        ensures le(xs[0], y)
      {
        assert y in xs[1..];
        var i :| 0 <= i < |xs[1..]| && xs[1..][i] == y;
        assert xs[1 + i] == y;
      }
    }
  }

  /** Dropping elements before or after sorting gives the same list. */
  lemma FilterThenSort<T(!new)>(xs: seq<T>, le: (T, T) -> bool, p: T -> bool)
    requires TotalPreorder(le)
    ensures Filter(Sort(xs, le), p) == Sort(Filter(xs, p), le)
  {
    var ys := Filter(Sort(xs, le), p);
    SortSortsStably(xs, le);
    FilterKeepsSorted(Sort(xs, le), le, p);
    forall k
      ensures Filter(ys, Tied(k, le)) == Filter(Filter(xs, p), Tied(k, le))
    {
      FiltersCommute(Sort(xs, le), p, Tied(k, le));
      FiltersCommute(xs, p, Tied(k, le));
    }
    SortIsTheStableSort(Filter(xs, p), ys, le);
  }

  lemma SortOfSorted<T(!new)>(xs: seq<T>, le: (T, T) -> bool)
    requires TotalPreorder(le) && Sorted(xs, le)
    ensures Sort(xs, le) == xs
  {
    SortIsTheStableSort(xs, xs, le);
  }
}
