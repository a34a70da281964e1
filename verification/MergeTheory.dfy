/** The sequence-level facts behind the natural merge sort of lib/kernel/list.c. */
module MergeTheory {

  /** `less` is a strict weak order on the elements of `s`. */
  ghost predicate StrictWeak<T>(less: (T, T) -> bool, s: seq<T>) {
    && (forall x, y :: x in s && y in s && less(x, y) ==> !less(y, x))
    && (forall x, y, z :: x in s && y in s && z in s && less(x, y) ==> less(x, z) || less(z, y))
  }

  predicate Sorted<T>(less: (T, T) -> bool, s: seq<T>) {
    forall i :: 0 < i < |s| ==> !less(s[i], s[i - 1])
  }

  /** Neither of the two comes first. */
  predicate Alike<T>(less: (T, T) -> bool, x: T, y: T) {
    !less(x, y) && !less(y, x)
  }

  /** The elements of `s` that are alike with `e`, in order. */
  ghost function Class<T>(less: (T, T) -> bool, e: T, s: seq<T>): (c: seq<T>) {
    if s == [] then [] else (if Alike(less, e, s[0]) then [s[0]] else []) + Class(less, e, s[1..])
  }

  /** `b` is a rearrangement of `a` that keeps alike elements in their order. */
  ghost predicate Stable<T>(less: (T, T) -> bool, a: seq<T>, b: seq<T>) {
    multiset(a) == multiset(b) && forall e :: e in a ==> Class(less, e, a) == Class(less, e, b)
  }

  /** Merging two runs; on a tie the first run goes first. */
  ghost function Merge<T>(less: (T, T) -> bool, xs: seq<T>, ys: seq<T>): (r: seq<T>)
    ensures |r| == |xs| + |ys|
    decreases |xs| + |ys|
  {
    if xs == [] then ys
    else if ys == [] then xs
    else if !less(ys[0], xs[0]) then [xs[0]] + Merge(less, xs[1..], ys)
    else [ys[0]] + Merge(less, xs, ys[1..])
  }

  // ---- Order -------------------------------------------------------------------------------------

  /** In a sorted run nothing later is less than anything earlier. */
  lemma {:induction false} SortedPair<T>(less: (T, T) -> bool, s: seq<T>, i: nat, j: nat)
    requires StrictWeak(less, s) && Sorted(less, s) && i < j < |s|
    ensures !less(s[j], s[i])
  {
    if i + 1 < j {
      SortedPair(less, s, i, j - 1);
      assert s[i] in s && s[j] in s && s[j - 1] in s;
    }
  }

  lemma SubOrder<T>(less: (T, T) -> bool, s: seq<T>, t: seq<T>)
    requires StrictWeak(less, s) && forall x :: x in t ==> x in s
    ensures StrictWeak(less, t)
  {
  }

  lemma {:induction false} MergeMultiset<T>(less: (T, T) -> bool, xs: seq<T>, ys: seq<T>)
    ensures multiset(Merge(less, xs, ys)) == multiset(xs) + multiset(ys)
    decreases |xs| + |ys|
  {
    if xs != [] && ys != [] {
      if !less(ys[0], xs[0]) {
        MergeMultiset(less, xs[1..], ys);
        FirstOut(xs);
        FirstOut(Merge(less, xs, ys));
        assert Merge(less, xs, ys)[1..] == Merge(less, xs[1..], ys);
      } else {
        MergeMultiset(less, xs, ys[1..]);
        FirstOut(ys);
        FirstOut(Merge(less, xs, ys));
        assert Merge(less, xs, ys)[1..] == Merge(less, xs, ys[1..]);
      }
    }
  }

  lemma FirstOut<T>(s: seq<T>)
    requires s != []
    ensures multiset(s) == multiset{s[0]} + multiset(s[1..])
  {
    assert s == [s[0]] + s[1..];
  }

  lemma {:induction false} MergeSorted<T>(less: (T, T) -> bool, xs: seq<T>, ys: seq<T>)
    requires StrictWeak(less, xs + ys) && Sorted(less, xs) && Sorted(less, ys)
    ensures Sorted(less, Merge(less, xs, ys))
    decreases |xs| + |ys|
  {
    if xs != [] && ys != [] {
      assert xs[0] in xs + ys && ys[0] in xs + ys;
      if !less(ys[0], xs[0]) {
        SubOrder(less, xs + ys, xs[1..] + ys);
        MergeSorted(less, xs[1..], ys);
        MergeHead(less, xs[1..], ys);
      } else {
        SubOrder(less, xs + ys, xs + ys[1..]);
        MergeSorted(less, xs, ys[1..]);
        MergeHead(less, xs, ys[1..]);
      }
    }
  }

  /** The merge starts with one of the two heads. */
  lemma MergeHead<T>(less: (T, T) -> bool, xs: seq<T>, ys: seq<T>)
    ensures var m := Merge(less, xs, ys); m != [] ==> (xs != [] && m[0] == xs[0]) || (ys != [] && m[0] == ys[0])
  {
  }

  // ---- Stability -----------------------------------------------------------------------------------

  lemma {:induction false} ClassConcat<T>(less: (T, T) -> bool, e: T, a: seq<T>, b: seq<T>)
    ensures Class(less, e, a + b) == Class(less, e, a) + Class(less, e, b)
  {
    if a == [] {
      assert a + b == b;
    } else {
      ClassConcat(less, e, a[1..], b);
      assert (a + b)[1..] == a[1..] + b;
    }
  }

  lemma {:induction false} ClassEmpty<T>(less: (T, T) -> bool, e: T, s: seq<T>)
    requires forall x :: x in s ==> !Alike(less, e, x)
    ensures Class(less, e, s) == []
  {
    if s != [] { ClassEmpty(less, e, s[1..]); }
  }

  /** If `y` precedes the head of a sorted run, nothing in the run is alike with `y`'s likes. */
  lemma NoneAlike<T>(less: (T, T) -> bool, e: T, y: T, xs: seq<T>, all: seq<T>)
    requires StrictWeak(less, all) && e in all && y in all && (forall x :: x in xs ==> x in all)
    requires xs != [] && Sorted(less, xs) && less(y, xs[0]) && Alike(less, e, y)
    ensures forall x :: x in xs ==> !Alike(less, e, x)
  {
    SubOrder(less, all, xs);
    forall x | x in xs ensures !Alike(less, e, x) {
      var i :| 0 <= i < |xs| && xs[i] == x;
      if i > 0 { SortedPair(less, xs, 0, i); }
      assert less(y, x) by { assert xs[0] in all && x in all; }
    }
  }

  lemma {:induction false} ClassMerge<T>(less: (T, T) -> bool, e: T, xs: seq<T>, ys: seq<T>, all: seq<T>)
    requires StrictWeak(less, all) && e in all && (forall x :: x in xs || x in ys ==> x in all)
    requires Sorted(less, xs)
    ensures Class(less, e, Merge(less, xs, ys)) == Class(less, e, xs) + Class(less, e, ys)
    decreases |xs| + |ys|
  {
    hide Class, StrictWeak, Sorted;
    ClassNil(less, e);
    var m := Merge(less, xs, ys);
    if xs != [] && ys != [] {
      ClassStep(less, e, m);
      if !less(ys[0], xs[0]) {
        if |xs| >= 2 { SortedTail(less, xs); } else { SortedNil(less, xs[1..]); }
        ClassMerge(less, e, xs[1..], ys, all);
        ClassStep(less, e, xs);
        assert m[1..] == Merge(less, xs[1..], ys);
      } else {
        ClassMerge(less, e, xs, ys[1..], all);
        ClassStep(less, e, ys);
        assert m[1..] == Merge(less, xs, ys[1..]);
        if Alike(less, e, ys[0]) {
          NoneAlike(less, e, ys[0], xs, all);
          ClassEmpty(less, e, xs);
        }
      }
    }
  }

  lemma SortedNil<T>(less: (T, T) -> bool, s: seq<T>)
    requires |s| <= 1
    ensures Sorted(less, s)
  {
  }

  lemma ClassNil<T>(less: (T, T) -> bool, e: T)
    ensures Class(less, e, []) == []
  {
  }

  lemma ClassStep<T>(less: (T, T) -> bool, e: T, s: seq<T>)
    requires s != []
    ensures Class(less, e, s) == (if Alike(less, e, s[0]) then [s[0]] else []) + Class(less, e, s[1..])
  {
  }

  lemma StableMerge<T>(less: (T, T) -> bool, a: seq<T>, xs: seq<T>, ys: seq<T>, b: seq<T>)
    requires StrictWeak(less, a + xs + ys + b) && Sorted(less, xs)
    ensures Stable(less, a + xs + ys + b, a + Merge(less, xs, ys) + b)
  {
    var all, m := a + xs + ys + b, Merge(less, xs, ys);
    MergeMultiset(less, xs, ys);
    forall e | e in all ensures Class(less, e, all) == Class(less, e, a + m + b) {
      ClassMerge(less, e, xs, ys, all);
      ClassSegments(less, e, a, xs, ys, m, b);
    }
  }

  lemma ClassSegments<T>(less: (T, T) -> bool, e: T, a: seq<T>, xs: seq<T>, ys: seq<T>, m: seq<T>, b: seq<T>)
    requires Class(less, e, m) == Class(less, e, xs) + Class(less, e, ys)
    ensures Class(less, e, a + xs + ys + b) == Class(less, e, a + m + b)
  {
    hide Class;
    ClassOfThree(less, e, a, m, b);
    ClassOfThree(less, e, a, xs + ys, b);
    ClassConcat(less, e, xs, ys);
    Regroup(a, xs, ys, b);
  }

  lemma ClassOfThree<T>(less: (T, T) -> bool, e: T, a: seq<T>, m: seq<T>, b: seq<T>)
    ensures Class(less, e, a + m + b) == Class(less, e, a) + Class(less, e, m) + Class(less, e, b)
  {
    hide Class;
    ClassConcat(less, e, a + m, b);
    ClassConcat(less, e, a, m);
  }

  lemma Regroup<T>(a: seq<T>, x: seq<T>, y: seq<T>, b: seq<T>)
    ensures a + x + y + b == a + (x + y) + b
  {
  }

  lemma StableTrans<T>(less: (T, T) -> bool, a: seq<T>, b: seq<T>, c: seq<T>)
    requires Stable(less, a, b) && Stable(less, b, c)
    ensures Stable(less, a, c)
  {
    forall e | e in a ensures Class(less, e, a) == Class(less, e, c) {
      assert e in multiset(a);
      assert e in b;
    }
  }

  lemma StableOrder<T>(less: (T, T) -> bool, a: seq<T>, b: seq<T>)
    requires StrictWeak(less, a) && multiset(a) == multiset(b)
    ensures StrictWeak(less, b)
  {
    forall x | x in b ensures x in a { assert x in multiset(b); }
    SubOrder(less, a, b);
  }

  // ---- Runs ------------------------------------------------------------------------------------------

  /** Number of places where the order is broken. */
  ghost function Descents<T>(less: (T, T) -> bool, s: seq<T>): (n: nat) {
    if |s| < 2 then 0 else (if less(s[1], s[0]) then 1 else 0) + Descents(less, s[1..])
  }

  /** Number of maximal nondecreasing runs. */
  ghost function Runs<T>(less: (T, T) -> bool, s: seq<T>): (n: nat) {
    if s == [] then 0 else 1 + Descents(less, s)
  }

  lemma {:induction false} DescentsConcat<T>(less: (T, T) -> bool, a: seq<T>, b: seq<T>)
    requires a != [] && b != []
    ensures Descents(less, a + b) == Descents(less, a) + Descents(less, b) + if less(b[0], a[|a| - 1]) then 1 else 0
  {
    if |a| == 1 {
      assert (a + b)[1..] == b;
    } else {
      DescentsConcat(less, a[1..], b);
      assert (a + b)[1..] == a[1..] + b;
    }
  }

  lemma {:induction false} SortedDescents<T>(less: (T, T) -> bool, s: seq<T>)
    ensures Sorted(less, s) <==> Descents(less, s) == 0
  {
    if |s| >= 2 {
      SortedDescents(less, s[1..]);
      assert Sorted(less, s) <==> !less(s[1], s[0]) && Sorted(less, s[1..]) by { SortedTail(less, s); }
    }
  }

  lemma SortedTail<T>(less: (T, T) -> bool, s: seq<T>)
    requires |s| >= 2
    ensures Sorted(less, s) <==> !less(s[1], s[0]) && Sorted(less, s[1..])
  {
    if !less(s[1], s[0]) && Sorted(less, s[1..]) {
      forall i | 0 < i < |s| ensures !less(s[i], s[i - 1]) {
        if i > 1 { assert s[1..][i - 1] == s[i] && s[1..][i - 2] == s[i - 1]; }
      }
    }
    if Sorted(less, s) {
      forall i | 0 < i < |s| - 1 ensures !less(s[1..][i], s[1..][i - 1]) { assert !less(s[i + 1], s[i]); }
    }
  }

  /** A maximal run at the front is one run. */
  lemma FirstRun<T>(less: (T, T) -> bool, x: seq<T>, y: seq<T>)
    requires x != [] && Sorted(less, x) && (y == [] || less(y[0], x[|x| - 1]))
    ensures Runs(less, x + y) == 1 + Runs(less, y)
  {
    SortedDescents(less, x);
    if y == [] { assert x + y == x; } else { DescentsConcat(less, x, y); }
  }

  /** A sorted piece adds at most one run. */
  lemma OneMoreRun<T>(less: (T, T) -> bool, p: seq<T>, m: seq<T>)
    requires Sorted(less, m) && m != []
    ensures Runs(less, p + m) <= Runs(less, p) + 1
  {
    SortedDescents(less, m);
    if p == [] { assert p + m == m; } else { DescentsConcat(less, p, m); }
  }
}
