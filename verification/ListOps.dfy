/** The other list algorithms of lib/kernel/list.c: reversal, ordered insertion, removal of duplicates. */
module ListOps {
  import opened MergeTheory
  import opened List

  // ---- list_reverse --------------------------------------------------------------------------------------

  /** `r` is `s` with everything between its two ends turned round. */
  ghost predicate Reversed(s: seq<Elem>, r: seq<Elem>) {
    && |r| == |s| >= 2 && r[0] == s[0] && r[|s| - 1] == s[|s| - 1]
    && (forall k :: 0 < k < |s| - 1 ==> r[k] == s[|s| - 1 - k])
  }

  ghost function Flip(s: seq<Elem>): (r: seq<Elem>)
    requires |s| >= 2
    ensures Reversed(s, r)
  {
    seq(|s|, k requires 0 <= k < |s| => if k == 0 || k == |s| - 1 then s[k] else s[|s| - 1 - k])
  }

  /** Links inside turned round, the four links at the sentinels as they must be. */
  ghost predicate TurnedLinks(s: seq<Elem>)
    reads s
  {
    && |s| >= 3
    && (forall k {:trigger s[k].next} :: 1 < k < |s| - 1 ==> s[k].next == s[k - 1])
    && (forall k {:trigger s[k].prev} :: 0 < k < |s| - 2 ==> s[k].prev == s[k + 1])
    && s[0].next == s[|s| - 2] && s[|s| - 2].prev == s[0]
    && s[|s| - 1].prev == s[1] && s[1].next == s[|s| - 1]
  }

  lemma TurnedIsChained(s: seq<Elem>, r: seq<Elem>)
    requires Distinct(s) && TurnedLinks(s) && Reversed(s, r)
    ensures Distinct(r) && Chained(r)
  {
    var n := |s| - 1;
    forall i | 0 <= i < n ensures r[i].next == r[i + 1] {
      if 0 < i < n - 1 { assert r[i] == s[n - i] && r[i + 1] == s[n - i - 1]; }
    }
    forall i | 0 < i <= n ensures r[i].prev == r[i - 1] {
      if 1 < i < n { assert r[i] == s[n - i] && r[i - 1] == s[n - i + 1]; }
    }
  }

  /** The loop of list_reverse swaps the two links of every element; the ends are mended afterwards. */
  method Reverse(list: ListHead)
    requires list.Valid()
    modifies list, list.nodes
    ensures list.Valid() && Reversed(old(list.nodes), list.nodes)
  {
    ghost var s := list.nodes;
    if list.head.next == list.tail {
      ShortReversal(list);
      return;
    }
    var e := list.head.next;
    ghost var i := 1;
    while e != list.tail
      invariant list.nodes == s && 0 < i < |s| && e == s[i]
      invariant forall k {:trigger s[k].next} :: 0 < k < i ==> s[k].next == s[k - 1]
      invariant forall k {:trigger s[k].prev} :: 0 < k < i ==> s[k].prev == s[k + 1]
      invariant forall k {:trigger s[k].next} :: i <= k < |s| - 1 ==> s[k].next == s[k + 1]
      invariant forall k {:trigger s[k].prev} :: i <= k < |s| ==> s[k].prev == s[k - 1]
      invariant s[0].next == s[1] && s[0].prev == null && s[|s| - 1].next == null
      decreases |s| - i
    {
      e.prev, e.next := e.next, e.prev;
      e, i := e.prev, i + 1;
    }
    list.head.next, list.tail.prev := list.tail.prev, list.head.next;
    list.head.next.prev, list.tail.prev.next := list.tail.prev.next, list.head.next.prev;
    list.nodes := Flip(s);
    TurnedIsChained(s, list.nodes);
  }

  lemma ShortReversal(list: ListHead)
    requires list.Valid() && list.head.next == list.tail
    ensures Reversed(list.nodes, list.nodes)
  {
    NextPrev(list, 0);
  }

  // ---- list_insert_ordered -------------------------------------------------------------------------------

  /** Inserting before the first element that is greater keeps a sorted list sorted, and puts the new
      element after all its likes. */
  lemma InsertSorted(less: (Elem, Elem) -> bool, s: seq<Elem>, k: nat, x: Elem)
    requires k <= |s| && Sorted(less, s) && StrictWeak(less, s + [x])
    requires (forall i :: 0 <= i < k ==> !less(x, s[i])) && (k < |s| ==> less(x, s[k]))
    ensures Sorted(less, InsertAt(s, k, x))
    ensures forall i :: k <= i < |s| ==> !Alike(less, x, s[i])
  {
    SubOrder(less, s + [x], s);
    forall i | k <= i < |s| ensures less(x, s[i]) {
      if i > k { SortedPair(less, s, k, i); }
      assert s[i] in s + [x] && s[k] in s + [x] && x in s + [x];
    }
    if k < |s| { assert x in s + [x] && s[k] in s + [x]; }
  }

  lemma InsertOfElems(s: seq<Elem>, k: nat, x: Elem)
    requires 0 < k < |s|
    ensures InsertAt(s, k, x)[1..|s|] == InsertAt(s[1..|s| - 1], k - 1, x)
  {
    var a, b := InsertAt(s, k, x)[1..|s|], InsertAt(s[1..|s| - 1], k - 1, x);
    assert |a| == |b|;
    forall i | 0 <= i < |a| ensures a[i] == b[i] {
    }
  }

  method InsertOrdered(list: ListHead, elem: Elem, less: (Elem, Elem) -> bool) returns (ghost k: nat)
    requires list.Valid() && elem !in list.nodes
    requires Sorted(less, list.Elems()) && StrictWeak(less, list.Elems() + [elem])
    modifies list, list.nodes, elem
    ensures list.Valid() && k <= |old(list.Elems())| && list.Elems() == InsertAt(old(list.Elems()), k, elem)
    ensures Sorted(less, list.Elems())
    ensures forall i :: 0 <= i < |old(list.Elems())| && Alike(less, elem, old(list.Elems())[i]) ==> i < k
  {
    ghost var s, es := list.nodes, list.Elems();
    var e := list.head.next;
    ghost var j := 1;
    while e != list.tail && !less(elem, e)
      invariant 0 < j < |s| && e == s[j]
      invariant forall i :: 0 <= i < j - 1 ==> !less(elem, es[i])
      decreases |s| - j
    {
      assert es[j - 1] == e;
      e, j := e.next, j + 1;
    }
    k := j - 1;
    SamePlace(s, j, |s| - 1);
    assert k < |es| ==> es[k] == e;
    InsertSorted(less, es, k, elem);
    InsertOfElems(s, j, elem);
    list.Insert(e, elem, j);
  }

  // ---- list_unique -----------------------------------------------------------------------------------------

  /** What stays: the first of each group of neighbours that are alike with the last one that stayed. */
  ghost function Kept(less: (Elem, Elem) -> bool, s: seq<Elem>): (r: seq<Elem>)
    ensures s != [] ==> r != [] && r[0] == s[0]
    decreases |s|
  {
    if |s| <= 1 then s
    else if Alike(less, s[0], s[1]) then Kept(less, [s[0]] + s[2..])
    else [s[0]] + Kept(less, s[1..])
  }

  /** What goes, in order. */
  ghost function Dropped(less: (Elem, Elem) -> bool, s: seq<Elem>): (r: seq<Elem>)
    decreases |s|
  {
    if |s| <= 1 then []
    else if Alike(less, s[0], s[1]) then [s[1]] + Dropped(less, [s[0]] + s[2..])
    else Dropped(less, s[1..])
  }

  /** Nothing is lost. */
  lemma {:induction false} KeptAndDropped(less: (Elem, Elem) -> bool, s: seq<Elem>)
    ensures multiset(Kept(less, s)) + multiset(Dropped(less, s)) == multiset(s)
    decreases |s|
  {
    if |s| > 1 {
      if Alike(less, s[0], s[1]) {
        var t := [s[0]] + s[2..];
        KeptAndDropped(less, t);
        SecondOut(s);
      } else {
        KeptAndDropped(less, s[1..]);
        assert s == [s[0]] + s[1..];
      }
    }
  }

  lemma SecondOut(s: seq<Elem>)
    requires |s| > 1
    ensures multiset(s) == multiset{s[1]} + multiset([s[0]] + s[2..])
  {
    assert s == [s[0]] + [s[1]] + s[2..];
  }

  /** No two neighbours that remain are alike. */
  lemma {:induction false} KeptNeighbours(less: (Elem, Elem) -> bool, s: seq<Elem>)
    ensures forall i :: 0 < i < |Kept(less, s)| ==> !Alike(less, Kept(less, s)[i - 1], Kept(less, s)[i])
    decreases |s|
  {
    if |s| > 1 {
      if Alike(less, s[0], s[1]) { KeptNeighbours(less, [s[0]] + s[2..]); } else { KeptNeighbours(less, s[1..]); }
    }
  }

  /** On a sorted list the survivors increase strictly: no two of them, anywhere, are alike. */
  lemma {:induction false} KeptIncreases(less: (Elem, Elem) -> bool, s: seq<Elem>)
    requires StrictWeak(less, s) && Sorted(less, s)
    ensures forall i :: 0 < i < |Kept(less, s)| ==> less(Kept(less, s)[i - 1], Kept(less, s)[i])
    decreases |s|
  {
    if |s| > 1 {
      if Alike(less, s[0], s[1]) {
        var t := [s[0]] + s[2..];
        SubOrder(less, s, t);
        if |s| > 2 { SortedPair(less, s, 0, 2); }
        SortedAfterDrop(less, s);
        KeptIncreases(less, t);
      } else {
        SubOrder(less, s, s[1..]);
        SortedTail(less, s);
        KeptIncreases(less, s[1..]);
      }
    }
  }

  lemma SortedAfterDrop(less: (Elem, Elem) -> bool, s: seq<Elem>)
    requires |s| > 1 && Sorted(less, s) && (|s| > 2 ==> !less(s[2], s[0]))
    ensures Sorted(less, [s[0]] + s[2..])
  {
    var t := [s[0]] + s[2..];
    forall i | 0 < i < |t| ensures !less(t[i], t[i - 1]) {
      if i > 1 { assert t[i] == s[i + 1] && t[i - 1] == s[i]; }
    }
  }

  /** Element `a` is the last one known to stay. */
  ghost predicate UniqueInv(less: (Elem, Elem) -> bool, s0: seq<Elem>, s: seq<Elem>, a: int, dropped: seq<Elem>) {
    && 0 <= a < |s|
    && Kept(less, s0) == s[..a] + Kept(less, s[a..])
    && Dropped(less, s0) == dropped + Dropped(less, s[a..])
  }

  lemma UniqueDrop(less: (Elem, Elem) -> bool, s0: seq<Elem>, s: seq<Elem>, a: nat, dropped: seq<Elem>)
    requires a + 1 < |s| && UniqueInv(less, s0, s, a, dropped) && Alike(less, s[a], s[a + 1])
    ensures UniqueInv(less, s0, RemoveAt(s, a + 1), a, dropped + [s[a + 1]])
  {
    var r := RemoveAt(s, a + 1);
    assert r[..a] == s[..a];
    assert r[a..] == [s[a]] + s[a..][2..];
    assert dropped + ([s[a + 1]] + Dropped(less, r[a..])) == (dropped + [s[a + 1]]) + Dropped(less, r[a..]);
  }

  lemma UniqueKeep(less: (Elem, Elem) -> bool, s0: seq<Elem>, s: seq<Elem>, a: nat, dropped: seq<Elem>)
    requires a + 1 < |s| && UniqueInv(less, s0, s, a, dropped) && !Alike(less, s[a], s[a + 1])
    ensures UniqueInv(less, s0, s, a + 1, dropped)
  {
    assert s[a..][1..] == s[a + 1..];
    assert s[..a] + ([s[a]] + Kept(less, s[a + 1..])) == s[..a + 1] + Kept(less, s[a + 1..]);
  }

  lemma UniqueEnd(less: (Elem, Elem) -> bool, s0: seq<Elem>, s: seq<Elem>, dropped: seq<Elem>)
    requires s != [] && UniqueInv(less, s0, s, |s| - 1, dropped)
    ensures s == Kept(less, s0) && dropped == Dropped(less, s0)
  {
  }

  lemma RemoveOfElems(s: seq<Elem>, k: nat)
    requires 0 < k < |s| - 1
    ensures RemoveAt(s, k)[1..|s| - 2] == RemoveAt(s[1..|s| - 1], k - 1)
  {
    var a, b := RemoveAt(s, k)[1..|s| - 2], RemoveAt(s[1..|s| - 1], k - 1);
    assert |a| == |b|;
    forall i | 0 <= i < |a| ensures a[i] == b[i] {
    }
  }

  lemma StayApart(a: seq<Elem>, b: seq<Elem>, k: nat)
    requires Distinct(a) && Apart(a, b) && 0 < k < |a| && |b| >= 2
    ensures a[k] !in RemoveAt(a, k) && a[k] !in b
    ensures Apart(RemoveAt(a, k), InsertAt(b, |b| - 1, a[k])) && Apart(RemoveAt(a, k), b)
    ensures forall i :: 0 <= i < |b| ==> b[i] !in a && b[i] !in RemoveAt(a, k)
  {
  }

  /** Removes the element at `k` and appends it to `dups`. Both lists keep to the nodes in `a` and `b`. */
  method MoveToEnd(list: ListHead, dups: ListHead, elem: Elem, ghost k: nat, ghost a: seq<Elem>, ghost b: seq<Elem>)
    requires list.Valid() && 1 < k < |list.nodes| - 1 && list.nodes[k] == elem
    requires dups != list && dups.Valid() && Apart(list.nodes, dups.nodes)
    requires Within(list.nodes, a) && WithinEither(dups.nodes, a, b)
    modifies list, list.nodes, dups, dups.nodes
    ensures list.Valid() && |list.nodes| == |old(list.nodes)| - 1 && list.nodes[k - 1] == old(list.nodes)[k - 1]
    ensures list.Elems() == RemoveAt(old(list.Elems()), k - 1)
    ensures dups.Valid() && dups.Elems() == old(dups.Elems()) + [elem]
    ensures Apart(list.nodes, dups.nodes) && Within(list.nodes, a) && WithinEither(dups.nodes, a, b)
  {
    hide Distinct, Chained, Apart, InsertAt, RemoveAt, Within, WithinEither;
    StayApart(list.nodes, dups.nodes, k);
    DropFacts(list.nodes, dups.nodes, k - 2);
    DropWithin(list.nodes, dups.nodes, k, a, b);
    var after := list.Remove(elem, k);
    ghost var n := |dups.nodes| - 1;
    dups.Insert(dups.tail, elem, n);
  }

  /** list_unique with a list for the duplicates: the survivors stay, the others move there in order. */
  method Unique(list: ListHead, dups: ListHead, less: (Elem, Elem) -> bool)
    requires list.Valid() && dups.Valid() && dups != list && Apart(list.nodes, dups.nodes)
    modifies list, list.nodes, dups, dups.nodes
    ensures list.Valid() && list.Elems() == Kept(less, old(list.Elems()))
    ensures dups.Valid() && dups.Elems() == old(dups.Elems()) + Dropped(less, old(list.Elems()))
  {
    hide Distinct, Chained, Apart, InsertAt, RemoveAt, UniqueInv, Kept, Dropped;
    WithinStart(list.nodes, dups.nodes);
    ghost var s0, d0 := list.Elems(), dups.Elems();
    NextPrev(list, 0);
    SamePlace(list.nodes, 1, |list.nodes| - 1);
    if list.head.next == list.tail {
      UniqueEmpty(less, s0);
      return;
    }
    var elem := list.head.next;
    ghost var a := 0;
    ghost var dropped: seq<Elem> := [];
    UniqueStart(less, s0);
    NextPrev(list, 1);
    var next := elem.next;
    while next != list.tail
      invariant list.Valid() && dups.Valid() && Apart(list.nodes, dups.nodes)
      invariant Within(list.nodes, old(list.nodes)) && WithinEither(dups.nodes, old(list.nodes), old(dups.nodes))
      invariant 0 <= a < |list.nodes| - 2 && elem == list.nodes[a + 1] && next == list.nodes[a + 2]
      invariant UniqueInv(less, s0, list.Elems(), a, dropped) && dups.Elems() == d0 + dropped
      decreases |list.nodes| - a
    {
      SamePlace(list.nodes, a + 2, |list.nodes| - 1);
      assert list.Elems()[a] == elem && list.Elems()[a + 1] == next;
      if !less(elem, next) && !less(next, elem) {
        UniqueDrop(less, s0, list.Elems(), a, dropped);
        MoveToEnd(list, dups, next, a + 2, old(list.nodes), old(dups.nodes));
        dropped := dropped + [next];
      } else {
        UniqueKeep(less, s0, list.Elems(), a, dropped);
        elem, a := next, a + 1;
      }
      NextPrev(list, a + 1);
      next := elem.next;
    }
    SamePlace(list.nodes, a + 2, |list.nodes| - 1);
    UniqueEnd(less, s0, list.Elems(), dropped);
  }

  /** list_unique without a list for the duplicates: they are only removed. */
  method UniqueAlone(list: ListHead, less: (Elem, Elem) -> bool)
    requires list.Valid()
    modifies list, list.nodes
    ensures list.Valid() && list.Elems() == Kept(less, old(list.Elems()))
  {
    hide Distinct, Chained, InsertAt, RemoveAt, UniqueInv, Kept, Dropped;
    WithinStart(list.nodes, []);
    ghost var s0 := list.Elems();
    NextPrev(list, 0);
    SamePlace(list.nodes, 1, |list.nodes| - 1);
    if list.head.next == list.tail {
      UniqueEmpty(less, s0);
      return;
    }
    var elem := list.head.next;
    ghost var a := 0;
    ghost var dropped: seq<Elem> := [];
    UniqueStart(less, s0);
    NextPrev(list, 1);
    var next := elem.next;
    while next != list.tail
      invariant list.Valid() && Within(list.nodes, old(list.nodes))
      invariant 0 <= a < |list.nodes| - 2 && elem == list.nodes[a + 1] && next == list.nodes[a + 2]
      invariant UniqueInv(less, s0, list.Elems(), a, dropped)
      decreases |list.nodes| - a
    {
      SamePlace(list.nodes, a + 2, |list.nodes| - 1);
      assert list.Elems()[a] == elem && list.Elems()[a + 1] == next;
      if !less(elem, next) && !less(next, elem) {
        UniqueDrop(less, s0, list.Elems(), a, dropped);
        Discard(list, next, a + 2, old(list.nodes));
        dropped := dropped + [next];
      } else {
        UniqueKeep(less, s0, list.Elems(), a, dropped);
        elem, a := next, a + 1;
      }
      NextPrev(list, a + 1);
      next := elem.next;
    }
    SamePlace(list.nodes, a + 2, |list.nodes| - 1);
    UniqueEnd(less, s0, list.Elems(), dropped);
  }

  /** Removes the element at `k`. */
  method Discard(list: ListHead, elem: Elem, ghost k: nat, ghost a: seq<Elem>)
    requires list.Valid() && 1 < k < |list.nodes| - 1 && list.nodes[k] == elem && Within(list.nodes, a)
    modifies list, list.nodes
    ensures list.Valid() && |list.nodes| == |old(list.nodes)| - 1 && list.nodes[k - 1] == old(list.nodes)[k - 1]
    ensures list.Elems() == RemoveAt(old(list.Elems()), k - 1) && Within(list.nodes, a)
  {
    hide Distinct, Chained, RemoveAt, Within;
    ghost var two := list.nodes[..2];
    DropFacts(list.nodes, two, k - 2);
    DropWithin(list.nodes, two, k, a, two);
    var after := list.Remove(elem, k);
  }

  ghost predicate WithinEither(s: seq<Elem>, a: seq<Elem>, b: seq<Elem>) {
    forall i :: 0 <= i < |s| ==> s[i] in a || s[i] in b
  }

  lemma WithinStart(a: seq<Elem>, b: seq<Elem>)
    ensures Within(a, a) && WithinEither(b, a, b)
  {
  }

  lemma DropWithin(s: seq<Elem>, d: seq<Elem>, k: nat, a: seq<Elem>, b: seq<Elem>)
    requires k < |s| && |d| >= 2 && Within(s, a) && WithinEither(d, a, b)
    ensures Within(RemoveAt(s, k), a) && WithinEither(InsertAt(d, |d| - 1, s[k]), a, b)
  {
  }

  lemma UniqueEmpty(less: (Elem, Elem) -> bool, s: seq<Elem>)
    requires s == []
    ensures Kept(less, s) == [] && Dropped(less, s) == []
  {
  }

  lemma UniqueStart(less: (Elem, Elem) -> bool, s: seq<Elem>)
    requires s != []
    ensures UniqueInv(less, s, s, 0, [])
  {
    assert s[0..] == s;
  }

  lemma DropFacts(s: seq<Elem>, d: seq<Elem>, a: nat)
    requires a + 3 < |s| && |d| >= 2
    ensures var r, e := RemoveAt(s, a + 2), InsertAt(d, |d| - 1, s[a + 2]);
            && |r| == |s| - 1 && r[a + 1] == s[a + 1]
            && r[1..|r| - 1] == RemoveAt(s[1..|s| - 1], a + 1)
            && |e| == |d| + 1 && e[1..|e| - 1] == d[1..|d| - 1] + [s[a + 2]]
  {
    RemoveOfElems(s, a + 2);
  }
}
