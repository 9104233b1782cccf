/** The library's stable sort, as a function: insertion, each element behind those it does not precede. */
module Sorting {

  function Insert<T>(x: T, sorted: seq<T>, less: (T, T) -> bool): (r: seq<T>)
    ensures multiset(r) == multiset(sorted) + multiset{x}
  {
    if sorted == [] || !less(x, sorted[|sorted| - 1]) then sorted + [x]
    else
      var front, last := sorted[..|sorted| - 1], sorted[|sorted| - 1];
      assert sorted == front + [last];
      Insert(x, front, less) + [last]
  }

  function StableSort<T>(xs: seq<T>, less: (T, T) -> bool): (r: seq<T>)
    ensures multiset(r) == multiset(xs)
  {
    if xs == [] then []
    else
      var front, last := xs[..|xs| - 1], xs[|xs| - 1];
      assert xs == front + [last];
      Insert(last, StableSort(front, less), less)
  }

  ghost predicate Sorted<T(!new)>(xs: seq<T>, less: (T, T) -> bool)
  {
    forall i, j :: 0 <= i < j < |xs| ==> !less(xs[j], xs[i])
  }

  ghost predicate StrictWeakOrder<T(!new)>(less: (T, T) -> bool)
  {
    && (forall x, y :: less(x, y) ==> !less(y, x))
    && (forall x, y, z :: !less(x, y) && !less(y, z) ==> !less(x, z))
  }

  lemma {:induction false} InsertSorted<T(!new)>(x: T, sorted: seq<T>, less: (T, T) -> bool)
    requires StrictWeakOrder(less) && Sorted(sorted, less)
    ensures Sorted(Insert(x, sorted, less), less)
    decreases |sorted|
  {
    if sorted == [] {
    } else if !less(x, sorted[|sorted| - 1]) {
      var last := sorted[|sorted| - 1];
      assert forall i :: 0 <= i < |sorted| ==> !less(last, sorted[i]);
    } else {
      var front, last := sorted[..|sorted| - 1], sorted[|sorted| - 1];
      InsertSorted(x, front, less);
      var r := Insert(x, front, less);
      forall i | 0 <= i < |r|
        ensures !less(last, r[i])
      {
        assert r[i] in multiset(r);
      }
    }
  }

  lemma {:induction false} StableSortSorts<T(!new)>(xs: seq<T>, less: (T, T) -> bool)
    requires StrictWeakOrder(less)
    ensures Sorted(StableSort(xs, less), less)
    decreases |xs|
  {
    if xs != [] {
      StableSortSorts(xs[..|xs| - 1], less);
      InsertSorted(xs[|xs| - 1], StableSort(xs[..|xs| - 1], less), less);
    }
  }

  function Reverse<T>(xs: seq<T>): (r: seq<T>)
    ensures |r| == |xs|
    ensures forall i :: 0 <= i < |xs| ==> r[i] == xs[|xs| - 1 - i]
  {
    seq(|xs|, i requires 0 <= i < |xs| => xs[|xs| - 1 - i])
  }

  /** If every element precedes all earlier ones, sorting is reversing. */
  lemma {:induction false} SortReverses<T(!new)>(xs: seq<T>, less: (T, T) -> bool)
    requires forall i, j :: 0 <= i < j < |xs| ==> less(xs[j], xs[i])
    ensures StableSort(xs, less) == Reverse(xs)
    decreases |xs|
  {
    if xs != [] {
      var front, last := xs[..|xs| - 1], xs[|xs| - 1];
      SortReverses(front, less);
      ReverseSnoc(front, last);
      assert xs == front + [last];
      forall i | 0 <= i < |front|
        ensures less(last, Reverse(front)[i])
      {
        assert less(xs[|front|], xs[|front| - 1 - i]);
      }
      InsertFirst(last, Reverse(front), less);
    }
  }

  lemma ReverseSnoc<T>(xs: seq<T>, x: T)
    ensures Reverse(xs + [x]) == [x] + Reverse(xs)
  {
  }

  lemma {:induction false} InsertFirst<T(!new)>(x: T, ys: seq<T>, less: (T, T) -> bool)
    requires forall i :: 0 <= i < |ys| ==> less(x, ys[i])
    ensures Insert(x, ys, less) == [x] + ys
    decreases |ys|
  {
    if ys == [] {
      assert Insert(x, ys, less) == [x];
    } else {
      var front, last := ys[..|ys| - 1], ys[|ys| - 1];
      InsertFirst(x, front, less);
      assert Insert(x, ys, less) == Insert(x, front, less) + [last];
      assert [x] + ys == ([x] + front) + [last];
    }
  }

  /** Pairs that the order leaves undecided are equal. */
  ghost predicate Decided<T(!new)>(xs: seq<T>, less: (T, T) -> bool)
  {
    forall i, j :: 0 <= i < |xs| && 0 <= j < |xs| && !less(xs[i], xs[j]) && !less(xs[j], xs[i]) ==> xs[i] == xs[j]
  }

  lemma SameHead<T(!new)>(xs: seq<T>, ys: seq<T>, less: (T, T) -> bool)
    requires Sorted(xs, less) && Sorted(ys, less) && multiset(xs) == multiset(ys) && xs != [] && ys != []
    requires Decided(xs, less)
    ensures xs[0] == ys[0]
  {
    assert xs[0] in multiset(xs) && ys[0] in multiset(ys);
    var i :| 0 <= i < |ys| && ys[i] == xs[0];
    var j :| 0 <= j < |xs| && xs[j] == ys[0];
    assert i == 0 || !less(ys[i], ys[0]);
    assert j == 0 || !less(xs[j], xs[0]);
  }

  lemma TailsPermute<T>(xs: seq<T>, ys: seq<T>)
    requires xs != [] && ys != [] && xs[0] == ys[0] && multiset(xs) == multiset(ys)
    ensures multiset(xs[1..]) == multiset(ys[1..])
  {
    assert xs == [xs[0]] + xs[1..] && ys == [ys[0]] + ys[1..];
    assert multiset(xs[1..]) == multiset(xs) - multiset{xs[0]};
    assert multiset(ys[1..]) == multiset(ys) - multiset{ys[0]};
  }

  lemma SameLength<T>(xs: seq<T>, ys: seq<T>)
    requires multiset(xs) == multiset(ys)
    ensures |xs| == |ys|
  {
    assert |multiset(xs)| == |xs| && |multiset(ys)| == |ys|;
  }

  lemma TailSorted<T(!new)>(xs: seq<T>, less: (T, T) -> bool)
    requires xs != []
    ensures Sorted(xs, less) ==> Sorted(xs[1..], less)
    ensures Decided(xs, less) ==> Decided(xs[1..], less)
  {
  }

  /** Where every pair is decided, the sorted order is unique: it depends on the elements alone. */
  lemma {:induction false} SortedUnique<T(!new)>(xs: seq<T>, ys: seq<T>, less: (T, T) -> bool)
    requires Sorted(xs, less) && Sorted(ys, less) && multiset(xs) == multiset(ys)
    requires Decided(xs, less)
    ensures xs == ys
    decreases |xs|
  {
    SameLength(xs, ys);
    if xs != [] {
      SameHead(xs, ys, less);
      TailsPermute(xs, ys);
      TailSorted(xs, less);
      TailSorted(ys, less);
      SortedUnique(xs[1..], ys[1..], less);
      assert xs == [xs[0]] + xs[1..] && ys == [ys[0]] + ys[1..];
    }
  }

  /** Neither comes before the other. */
  predicate Tied<T>(x: T, y: T, less: (T, T) -> bool) { !less(x, y) && !less(y, x) }

  /** The elements tied with z, in their order. */
  function Ties<T>(xs: seq<T>, z: T, less: (T, T) -> bool): seq<T>
  {
    if xs == [] then []
    else Ties(xs[..|xs| - 1], z, less) + if Tied(xs[|xs| - 1], z, less) then [xs[|xs| - 1]] else []
  }

  lemma TiesSnoc<T>(xs: seq<T>, x: T, z: T, less: (T, T) -> bool)
    ensures Ties(xs + [x], z, less) == Ties(xs, z, less) + if Tied(x, z, less) then [x] else []
  {
    assert (xs + [x])[..|xs|] == xs;
  }

  lemma {:induction false} InsertKeepsTies<T(!new)>(x: T, sorted: seq<T>, z: T, less: (T, T) -> bool)
    requires StrictWeakOrder(less)
    ensures Ties(Insert(x, sorted, less), z, less) == Ties(sorted, z, less) + if Tied(x, z, less) then [x] else []
    decreases |sorted|
  {
    if sorted == [] || !less(x, sorted[|sorted| - 1]) {
      TiesSnoc(sorted, x, z, less);
    } else {
      var front, last := sorted[..|sorted| - 1], sorted[|sorted| - 1];
      InsertKeepsTies(x, front, z, less);
      TiesSnoc(Insert(x, front, less), last, z, less);
    }
  }

  /** The sort is stable: elements that the order does not decide stay in their order. */
  lemma {:induction false} SortKeepsTies<T(!new)>(xs: seq<T>, z: T, less: (T, T) -> bool)
    requires StrictWeakOrder(less)
    ensures Ties(StableSort(xs, less), z, less) == Ties(xs, z, less)
    decreases |xs|
  {
    if xs != [] {
      SortKeepsTies(xs[..|xs| - 1], z, less);
      InsertKeepsTies(xs[|xs| - 1], StableSort(xs[..|xs| - 1], less), z, less);
    }
  }
}
