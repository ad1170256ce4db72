/** Order-preserving filtering, and sorting as Go's sort.Slice promises it. */
module Filtering {

  function Filter<T>(xs: seq<T>, keep: T -> bool): seq<T> {
    if xs == [] then []
    else Filter(xs[..|xs|-1], keep) + (if keep(xs[|xs|-1]) then [xs[|xs|-1]] else [])
  }

  lemma {:induction false} FilterMembers<T>(xs: seq<T>, keep: T -> bool)
    ensures forall x :: x in Filter(xs, keep) <==> x in xs && keep(x)
  {
    if xs != [] {
      FilterMembers(xs[..|xs|-1], keep);
      assert xs == xs[..|xs|-1] + [xs[|xs|-1]];
    }
  }

  /** Filtering a prefix extended by one element. */
  lemma FilterSnoc<T>(xs: seq<T>, i: nat, keep: T -> bool)
    requires i < |xs|
    ensures Filter(xs[..i+1], keep) == Filter(xs[..i], keep) + (if keep(xs[i]) then [xs[i]] else [])
  {
    assert xs[..i+1][..i] == xs[..i];
  }

  lemma FilterAppend<T>(xs: seq<T>, x: T, keep: T -> bool)
    ensures Filter(xs + [x], keep) == Filter(xs, keep) + (if keep(x) then [x] else [])
  {
    assert (xs + [x])[..|xs|] == xs;
  }

  lemma {:induction false} FilterShort<T>(xs: seq<T>, keep: T -> bool)
    ensures |Filter(xs, keep)| <= |xs|
    ensures |Filter(xs, keep)| == |xs| ==> Filter(xs, keep) == xs
  {
    if xs != [] {
      FilterShort(xs[..|xs|-1], keep);
      assert xs == xs[..|xs|-1] + [xs[|xs|-1]];
    }
  }

  /** Filtering twice is filtering by the conjunction. */
  lemma {:induction false} FilterFilter<T>(xs: seq<T>, p: T -> bool, q: T -> bool, both: T -> bool)
    requires forall x :: x in xs ==> (both(x) <==> p(x) && q(x))
    ensures Filter(Filter(xs, p), q) == Filter(xs, both)
  {
    if xs != [] {
      var front, x := xs[..|xs|-1], xs[|xs|-1];
      FilterFilter(front, p, q, both);
      if p(x) {
        FilterAppend(Filter(front, p), x, q);
      } else {
        assert Filter(front, p) + [] == Filter(front, p);
      }
    }
  }

  lemma {:induction false} FilterAgree<T>(xs: seq<T>, p: T -> bool, q: T -> bool)
    requires forall x :: x in xs ==> (p(x) <==> q(x))
    ensures Filter(xs, p) == Filter(xs, q)
  {
    if xs != [] {
      FilterAgree(xs[..|xs|-1], p, q);
    }
  }

  lemma {:induction false} FilterAll<T>(xs: seq<T>, p: T -> bool)
    requires forall x :: x in xs ==> p(x)
    ensures Filter(xs, p) == xs
  {
    if xs != [] {
      var front, last := xs[..|xs|-1], xs[|xs|-1];
      assert xs == front + [last];
      assert last in xs && forall x :: x in front ==> x in xs;
      FilterAll(front, p);
    }
  }

  lemma {:induction false} FilterNone<T>(xs: seq<T>, p: T -> bool)
    requires forall x :: x in xs ==> !p(x)
    ensures Filter(xs, p) == []
  {
    if xs != [] {
      FilterNone(xs[..|xs|-1], p);
    }
  }

  /** A strict weak order: what sort.Slice asks of its less function. */
  ghost predicate StrictWeakOrder<T(!new)>(less: (T, T) -> bool) {
    && (forall x :: !less(x, x))
    && (forall x, y, z :: less(x, y) && less(y, z) ==> less(x, z))
    && (forall x, y, z :: less(x, z) ==> less(x, y) || less(y, z))
  }

  ghost predicate SortedBy<T>(xs: seq<T>, less: (T, T) -> bool) {
    forall i, j :: 0 <= i < j < |xs| ==> !less(xs[j], xs[i])
  }

  method Insert<T(!new)>(x: T, xs: seq<T>, less: (T, T) -> bool) returns (r: seq<T>)
    requires StrictWeakOrder(less) && SortedBy(xs, less)
    ensures multiset(r) == multiset(xs) + multiset{x} && SortedBy(r, less)
  {
    var k := 0;
    while k < |xs| && !less(x, xs[k])
      invariant 0 <= k <= |xs|
      invariant forall i :: 0 <= i < k ==> !less(x, xs[i])
    {
      k := k + 1;
    }
    assert xs == xs[..k] + xs[k..];
    r := xs[..k] + [x] + xs[k..];
    InsertedIsSorted(x, xs, k, less);
  }

  lemma InsertedIsSorted<T(!new)>(x: T, xs: seq<T>, k: nat, less: (T, T) -> bool)
    requires StrictWeakOrder(less) && SortedBy(xs, less) && k <= |xs|
    requires (forall i :: 0 <= i < k ==> !less(x, xs[i])) && (k < |xs| ==> less(x, xs[k]))
    ensures SortedBy(xs[..k] + [x] + xs[k..], less)
  {
    var r := xs[..k] + [x] + xs[k..];
    forall j | k <= j < |xs| ensures !less(xs[j], x) {
      if j > k {
        assert !less(xs[j], xs[k]);
      }
      NotBelow(x, xs[k], xs[j], less);
    }
    forall i, j | 0 <= i < j < |r| ensures !less(r[j], r[i]) {
      assert r[i] == if i < k then xs[i] else if i == k then x else xs[i - 1];
      assert r[j] == if j < k then xs[j] else if j == k then x else xs[j - 1];
    }
  }

  lemma NotBelow<T(!new)>(x: T, y: T, z: T, less: (T, T) -> bool)
    requires StrictWeakOrder(less) && less(x, y) && !less(z, y)
    ensures !less(z, x)
  {
  }

  /** sort.Slice: some sorted permutation; nothing is promised about the order of equivalent elements. */
  method SortSlice<T(!new)>(xs: seq<T>, less: (T, T) -> bool) returns (r: seq<T>)
    requires StrictWeakOrder(less)
    ensures multiset(r) == multiset(xs) && SortedBy(r, less)
  {
    r := [];
    for i := 0 to |xs|
      invariant multiset(r) == multiset(xs[..i]) && SortedBy(r, less)
    {
      assert xs[..i+1] == xs[..i] + [xs[i]];
      r := Insert(xs[i], r, less);
    }
    assert xs[..|xs|] == xs;
  }

  lemma PermutationMembers<T>(xs: seq<T>, ys: seq<T>)
    requires multiset(xs) == multiset(ys)
    ensures forall x :: x in xs <==> x in ys
    ensures |xs| == |ys|
  {
    forall x ensures x in xs <==> x in ys {
      assert x in xs <==> x in multiset(xs);
      assert x in ys <==> x in multiset(ys);
    }
    assert |multiset(xs)| == |xs|;
    assert |multiset(ys)| == |ys|;
  }

  predicate Distinct<T(==)>(xs: seq<T>) {
    forall i, j :: 0 <= i < j < |xs| ==> xs[i] != xs[j]
  }

  lemma {:induction false} DistinctHasSingles<T>(xs: seq<T>)
    requires Distinct(xs)
    ensures forall x :: multiset(xs)[x] <= 1
  {
    if xs != [] {
      DistinctHasSingles(xs[..|xs|-1]);
      assert xs == xs[..|xs|-1] + [xs[|xs|-1]];
    }
  }

  lemma EqualPairCounts<T>(xs: seq<T>, i: nat, j: nat)
    requires i < j < |xs| && xs[i] == xs[j]
    ensures multiset(xs)[xs[i]] >= 2
  {
    assert xs == xs[..i] + [xs[i]] + xs[i+1..j] + [xs[j]] + xs[j+1..];
  }

  lemma PermutationStaysDistinct<T>(xs: seq<T>, ys: seq<T>)
    requires Distinct(xs) && multiset(xs) == multiset(ys)
    ensures Distinct(ys)
  {
    DistinctHasSingles(xs);
    forall i, j | 0 <= i < j < |ys| ensures ys[i] != ys[j] {
      if ys[i] == ys[j] {
        EqualPairCounts(ys, i, j);
      }
    }
  }

  // ---- Strictly ascending sequences ----

  ghost predicate Ascending<T>(xs: seq<T>, less: (T, T) -> bool) {
    forall i, j :: 0 <= i < j < |xs| ==> less(xs[i], xs[j])
  }

  ghost predicate SameElements<T(!new)>(xs: seq<T>, ys: seq<T>) {
    forall x :: x in xs <==> x in ys
  }

  lemma BothEmptyOrNeither<T(!new)>(xs: seq<T>, ys: seq<T>)
    requires SameElements(xs, ys)
    ensures xs == [] <==> ys == []
  {
    if xs != [] {
      assert xs[0] in xs;
    }
    if ys != [] {
      assert ys[0] in ys;
    }
  }

  ghost predicate Asymmetric<T(!new)>(less: (T, T) -> bool) {
    forall x, y :: less(x, y) ==> !less(y, x)
  }

  lemma StrictWeakOrderIsAsymmetric<T(!new)>(less: (T, T) -> bool)
    requires StrictWeakOrder(less)
    ensures Asymmetric(less)
  {
  }

  lemma LastsAgree<T(!new)>(xs: seq<T>, ys: seq<T>, less: (T, T) -> bool)
    requires Asymmetric(less) && Ascending(xs, less) && Ascending(ys, less)
    requires SameElements(xs, ys) && xs != [] && ys != []
    ensures xs[|xs|-1] == ys[|ys|-1]
  {
    var x, y := xs[|xs|-1], ys[|ys|-1];
    assert x in xs && y in ys;
    var i :| 0 <= i < |ys| && ys[i] == x;
    var j :| 0 <= j < |xs| && xs[j] == y;
    assert i < |ys| - 1 ==> less(x, y);
    assert j < |xs| - 1 ==> less(y, x);
  }

  lemma LastIsNew<T(!new)>(xs: seq<T>, less: (T, T) -> bool)
    requires Asymmetric(less) && Ascending(xs, less) && xs != []
    ensures xs[|xs|-1] !in xs[..|xs|-1]
    ensures forall x :: x in xs && x != xs[|xs|-1] ==> x in xs[..|xs|-1]
  {
    var last := xs[|xs|-1];
    forall i | 0 <= i < |xs| - 1 ensures xs[i] != last {
      assert less(xs[i], last);
    }
    assert xs == xs[..|xs|-1] + [last];
  }

  lemma DropSameLast<T(!new)>(xs: seq<T>, ys: seq<T>, less: (T, T) -> bool)
    requires Asymmetric(less) && Ascending(xs, less) && Ascending(ys, less)
    requires SameElements(xs, ys) && xs != [] && ys != [] && xs[|xs|-1] == ys[|ys|-1]
    ensures SameElements(xs[..|xs|-1], ys[..|ys|-1])
  {
    var xs', ys' := xs[..|xs|-1], ys[..|ys|-1];
    LastIsNew(xs, less);
    LastIsNew(ys, less);
    assert forall x :: x in xs' ==> x in xs;
    assert forall x :: x in ys' ==> x in ys;
    assert forall x :: x in xs' ==> x in ys';
    assert forall x :: x in ys' ==> x in xs';
  }

  /** Two strictly ascending sequences with the same elements are equal. */
  lemma {:induction false} AscendingIsUnique<T(!new)>(xs: seq<T>, ys: seq<T>, less: (T, T) -> bool)
    requires Asymmetric(less) && Ascending(xs, less) && Ascending(ys, less) && SameElements(xs, ys)
    ensures xs == ys
  {
    BothEmptyOrNeither(xs, ys);
    if xs != [] {
      LastsAgree(xs, ys, less);
      DropSameLast(xs, ys, less);
      AscendingIsUnique(xs[..|xs|-1], ys[..|ys|-1], less);
    }
  }
}
