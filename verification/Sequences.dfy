/** Sequences without repetitions, and removal of an item from them. */
module Sequences {

  ghost predicate NoDup<T>(xs: seq<T>) {
    forall i, j :: 0 <= i < j < |xs| ==> xs[i] != xs[j]
  }

  function Without<T(==)>(xs: seq<T>, x: T): seq<T> {
    if xs == [] then []
    else Without(xs[..|xs| - 1], x) + if xs[|xs| - 1] == x then [] else [xs[|xs| - 1]]
  }

  lemma {:induction false} InInit<T>(xs: seq<T>, x: T)
    requires xs != []
    ensures x in xs <==> x in xs[..|xs| - 1] || x == xs[|xs| - 1]
  {
    assert xs == xs[..|xs| - 1] + [xs[|xs| - 1]];
  }

  lemma {:induction false} WithoutMembers<T>(xs: seq<T>, x: T, y: T)
    ensures y in Without(xs, x) <==> y in xs && y != x
  {
    if xs != [] {
      WithoutMembers(xs[..|xs| - 1], x, y);
      InInit(xs, y);
    }
  }

  lemma {:induction false} NoDupAppend<T>(xs: seq<T>, x: T)
    requires NoDup(xs) && x !in xs
    ensures NoDup(xs + [x])
  {
  }

  lemma {:induction false} WithoutNoDup<T>(xs: seq<T>, x: T)
    requires NoDup(xs)
    ensures NoDup(Without(xs, x))
  {
    if xs != [] {
      var init, last := xs[..|xs| - 1], xs[|xs| - 1];
      WithoutNoDup(init, x);
      if last != x {
        WithoutMembers(init, x, last);
        NoDupAppend(Without(init, x), last);
      }
    }
  }

  /** What is not there is not removed. */
  lemma {:induction false} WithoutAbsent<T>(xs: seq<T>, x: T)
    requires x !in xs
    ensures Without(xs, x) == xs
  {
    if xs != [] {
      WithoutAbsent(xs[..|xs| - 1], x);
      assert xs == xs[..|xs| - 1] + [xs[|xs| - 1]];
    }
  }

  /** Removing the item at an index is removing the item, if items do not repeat. */
  lemma {:induction false} WithoutIsRemoveAt<T>(xs: seq<T>, i: nat)
    requires NoDup(xs) && i < |xs|
    ensures Without(xs, xs[i]) == xs[..i] + xs[i + 1..]
  {
    var last := |xs| - 1;
    if i == last {
      WithoutAbsent(xs[..last], xs[i]);
    } else {
      WithoutIsRemoveAt(xs[..last], i);
      assert xs[..i] + xs[i + 1..] == xs[..last][..i] + xs[..last][i + 1..] + [xs[last]];
    }
  }

  lemma {:induction false} WithoutSnoc<T>(xs: seq<T>, x: T, y: T)
    ensures Without(xs + [y], x) == if x == y then Without(xs, x) else Without(xs, x) + [y]
  {
    assert (xs + [y])[..|xs|] == xs;
  }

  /** Two lists without repetitions and without a common item make one without repetitions. */
  lemma {:induction false} NoDupJoin<T>(xs: seq<T>, ys: seq<T>)
    requires NoDup(xs) && NoDup(ys) && forall x :: x in xs ==> x !in ys
    ensures NoDup(xs + ys)
  {
    var zs := xs + ys;
    forall i, j | 0 <= i < j < |zs| ensures zs[i] != zs[j] {
      if i < |xs| <= j {
        assert xs[i] in xs && ys[j - |xs|] in ys;
      }
    }
  }

  lemma {:induction false} NoDupSplit<T>(xs: seq<T>, ys: seq<T>)
    requires NoDup(xs + ys)
    ensures NoDup(xs) && NoDup(ys) && forall x :: x in xs ==> x !in ys
  {
    var zs := xs + ys;
    forall i, j | 0 <= i < j < |xs| ensures xs[i] != xs[j] {
      assert zs[i] != zs[j];
    }
    forall i, j | 0 <= i < j < |ys| ensures ys[i] != ys[j] {
      assert zs[|xs| + i] != zs[|xs| + j];
    }
    forall i, j | 0 <= i < |xs| && 0 <= j < |ys| ensures xs[i] != ys[j] {
      assert zs[i] != zs[|xs| + j];
    }
  }
}
