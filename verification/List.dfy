/** Intrusive doubly linked lists with two sentinels (lib/kernel/list.c), rewired in place.

    An element is known only by its identity; the comparison function of the source is any total
    function on elements. The ghost field `nodes` is the list from head to tail. */
module List {
  import opened MergeTheory

  class Elem {
    var prev: Elem?
    var next: Elem?
  }

  ghost predicate Distinct(ns: seq<Elem>) {
    forall i, j :: 0 <= i < j < |ns| ==> ns[i] != ns[j]
  }

  ghost predicate Apart(a: seq<Elem>, b: seq<Elem>) {
    forall i, j :: 0 <= i < |a| && 0 <= j < |b| ==> a[i] != b[j]
  }

  ghost predicate Within(a: seq<Elem>, b: seq<Elem>) {
    forall i :: 0 <= i < |a| ==> a[i] in b
  }

  lemma DistinctRemove(s: seq<Elem>, i: nat, j: nat)
    requires Distinct(s) && i <= j <= |s|
    ensures Distinct(RemoveRange(s, i, j))
  {
  }

  lemma DistinctInsert(s: seq<Elem>, k: nat, seg: seq<Elem>)
    requires Distinct(s) && Distinct(seg) && Apart(s, seg) && k <= |s|
    ensures Distinct(InsertRange(s, k, seg))
  {
  }

  /** Neighbours in the sequence are neighbours in memory. */
  ghost predicate Chained(ns: seq<Elem>)
    reads ns
  {
    && (forall i {:trigger ns[i].next} :: 0 <= i < |ns| - 1 ==> ns[i].next == ns[i + 1])
    && (forall i {:trigger ns[i].prev} :: 0 < i < |ns| ==> ns[i].prev == ns[i - 1])
  }

  /** Chained except between `k - 1` and `k`. */
  ghost predicate Gap(ns: seq<Elem>, k: int)
    reads ns
  {
    && (forall i {:trigger ns[i].next} :: 0 <= i < |ns| - 1 && i != k - 1 ==> ns[i].next == ns[i + 1])
    && (forall i {:trigger ns[i].prev} :: 0 < i < |ns| && i != k ==> ns[i].prev == ns[i - 1])
  }

  lemma ChainInsert(s: seq<Elem>, k: nat, seg: seq<Elem>)
    requires 0 < k < |s| && Gap(s, k) && seg != [] && Chained(seg)
    requires s[k - 1].next == seg[0] && seg[0].prev == s[k - 1]
    requires seg[|seg| - 1].next == s[k] && s[k].prev == seg[|seg| - 1]
    ensures Chained(InsertRange(s, k, seg))
  {
  }

  ghost function InsertAt(s: seq<Elem>, k: nat, x: Elem): (r: seq<Elem>)
    requires k <= |s|
    ensures |r| == |s| + 1
    ensures forall i :: 0 <= i < |r| ==> r[i] == if i < k then s[i] else if i == k then x else s[i - 1]
  {
    s[..k] + [x] + s[k..]
  }

  ghost function RemoveAt(s: seq<Elem>, k: nat): (r: seq<Elem>)
    requires k < |s|
    ensures |r| == |s| - 1
    ensures forall i :: 0 <= i < |r| ==> r[i] == if i < k then s[i] else s[i + 1]
  {
    s[..k] + s[k + 1..]
  }

  ghost function RemoveRange(s: seq<Elem>, i: nat, j: nat): (r: seq<Elem>)
    requires i <= j <= |s|
    ensures |r| == |s| - (j - i)
    ensures forall k :: 0 <= k < |r| ==> r[k] == if k < i then s[k] else s[k + (j - i)]
  {
    s[..i] + s[j..]
  }

  ghost function InsertRange(s: seq<Elem>, k: nat, seg: seq<Elem>): (r: seq<Elem>)
    requires k <= |s|
    ensures |r| == |s| + |seg|
    ensures forall i :: 0 <= i < |r| ==>
            r[i] == if i < k then s[i] else if i < k + |seg| then seg[i - k] else s[i - |seg|]
  {
    s[..k] + seg + s[k..]
  }

  lemma RemoveRangeElems(s: seq<Elem>, i: nat, j: nat)
    requires i <= j <= |s|
    ensures var r := RemoveRange(s, i, j);
            && |r| == |s| - (j - i)
            && (forall k :: 0 <= k < i ==> r[k] == s[k])
            && (forall k :: i <= k < |r| ==> r[k] == s[k + (j - i)])
  {
  }

  lemma InsertRangeElems(s: seq<Elem>, k: nat, seg: seq<Elem>)
    requires k <= |s|
    ensures var r := InsertRange(s, k, seg);
            && |r| == |s| + |seg|
            && (forall i :: 0 <= i < k ==> r[i] == s[i])
            && (forall i :: k <= i < k + |seg| ==> r[i] == seg[i - k])
            && (forall i :: k + |seg| <= i < |r| ==> r[i] == s[i - |seg|])
  {
  }

  class ListHead {
    const head: Elem
    const tail: Elem
    ghost var nodes: seq<Elem>

    ghost predicate Valid()
      reads this, nodes
    {
      && |nodes| >= 2 && nodes[0] == head && nodes[|nodes| - 1] == tail
      && Distinct(nodes) && Chained(nodes)
      && head.prev == null && tail.next == null
    }

    ghost function Elems(): (s: seq<Elem>)
      requires |nodes| >= 2
      reads this
    {
      nodes[1..|nodes| - 1]
    }

    constructor ()
      ensures Valid() && Elems() == [] && fresh(nodes)
    {
      head, tail := new Elem, new Elem;
      new;
      head.prev, head.next := null, tail;
      tail.prev, tail.next := head, null;
      nodes := [head, tail];
    }

    /** list_insert; `k` is where `before` stands. */
    method Insert(before: Elem, elem: Elem, ghost k: nat)
      requires Valid() && 0 < k < |nodes| && nodes[k] == before && elem !in nodes
      modifies this, nodes, elem
      ensures Valid() && nodes == InsertAt(old(nodes), k, elem)
    {
      elem.prev := before.prev;
      elem.next := before;
      before.prev.next := elem;
      before.prev := elem;
      nodes := InsertAt(nodes, k, elem);
    }

    /** list_remove returns the element that followed. */
    method Remove(elem: Elem, ghost k: nat) returns (after: Elem)
      requires Valid() && 0 < k < |nodes| - 1 && nodes[k] == elem
      modifies this, nodes
      ensures Valid() && nodes == RemoveAt(old(nodes), k) && after == old(nodes)[k + 1]
      ensures elem.prev == old(elem.prev) && elem.next == old(elem.next)
    {
      elem.prev.next := elem.next;
      elem.next.prev := elem.prev;
      nodes := RemoveAt(nodes, k);
      after := elem.next;
    }

    /** The first half of list_splice: takes the range from `first` to `last` out of its list. */
    method Cut(first: Elem, last: Elem, ghost i: nat, ghost j: nat)
      requires Valid() && 0 < i < j < |nodes| && nodes[i] == first && nodes[j - 1] == last
      modifies this`nodes, nodes[i - 1], nodes[j]
      ensures Valid() && nodes == RemoveRange(old(nodes), i, j)
    {
      first.prev.next := last.next;
      last.next.prev := first.prev;
      DistinctRemove(nodes, i, j);
      nodes := RemoveRange(nodes, i, j);
    }

    /** The second half: puts a chain in before `before`. */
    method Paste(before: Elem, first: Elem, last: Elem, ghost k: nat, ghost seg: seq<Elem>)
      requires Valid() && 0 < k < |nodes| && nodes[k] == before
      requires seg != [] && seg[0] == first && seg[|seg| - 1] == last && Distinct(seg) && Chained(seg)
      requires Apart(nodes, seg)
      modifies this`nodes, nodes[k], nodes[k - 1], seg[0], seg[|seg| - 1]
      ensures Valid() && nodes == InsertRange(old(nodes), k, seg)
    {
      first.prev := before.prev;
      last.next := before;
      before.prev.next := first;
      before.prev := last;
      ghost var s := nodes;
      assert Gap(s, k);
      assert Chained(seg);
      DistinctInsert(s, k, seg);
      ChainInsert(s, k, seg);
      nodes := InsertRange(s, k, seg);
    }

    /** list_splice within one list: the elements from `first` up to but not including `last`, which
        stand at `i`..`j`, move in before `before`, which stands at `k` once they are out. */
    method SpliceWithin(before: Elem, first: Elem, last: Elem, ghost i: nat, ghost j: nat, ghost k: nat)
      requires Valid() && 0 < i <= j < |nodes| && nodes[i] == first && nodes[j] == last
      requires 0 < k < |RemoveRange(nodes, i, j)| && RemoveRange(nodes, i, j)[k] == before
      modifies this, nodes
      ensures Valid() && nodes == InsertRange(RemoveRange(old(nodes), i, j), k, old(nodes)[i..j])
    {
      hide Distinct, Chained, Apart, InsertRange, RemoveRange;
      SamePlace(nodes, i, j);
      if first == last {
        SpliceNothing(nodes, i, k);
        return;
      }
      var end := last.prev;
      ghost var seg := nodes[i..j];
      RangeFacts(nodes, i, j);
      RemovedMembers(nodes, i, j);
      Cut(first, end, i, j);
      Paste(before, first, end, k, seg);
    }

    /** list_splice from another list. */
    method SpliceFrom(src: ListHead, before: Elem, first: Elem, last: Elem, ghost i: nat, ghost j: nat, ghost k: nat)
      requires Valid() && src.Valid() && src != this && Apart(nodes, src.nodes)
      requires 0 < i <= j < |src.nodes| && src.nodes[i] == first && src.nodes[j] == last
      requires 0 < k < |nodes| && nodes[k] == before
      modifies this, src, nodes, src.nodes
      ensures Valid() && src.Valid()
      ensures src.nodes == RemoveRange(old(src.nodes), i, j)
              && nodes == InsertRange(old(nodes), k, old(src.nodes)[i..j])
    {
      hide Distinct, Chained, Apart, InsertRange, RemoveRange;
      SamePlace(src.nodes, i, j);
      if first == last {
        SpliceNothing(src.nodes, i, k);
        SpliceNothing(nodes, k, k);
        return;
      }
      var end := last.prev;
      ghost var seg := src.nodes[i..j];
      RangeFacts(src.nodes, i, j);
      ApartPart(nodes, src.nodes, i, j, k);
      src.Cut(first, end, i, j);
      Paste(before, first, end, k, seg);
    }
  }

  lemma SpliceNothing(s: seq<Elem>, i: nat, k: nat)
    requires i <= |s|
    ensures RemoveRange(s, i, i) == s && s[i..i] == []
    ensures k <= |s| ==> InsertRange(s, k, []) == s
  {
  }

  lemma SamePlace(s: seq<Elem>, i: nat, j: nat)
    requires Distinct(s) && Chained(s) && 0 < i <= j < |s|
    ensures s[i] == s[j] <==> i == j
    ensures s[j].prev == s[j - 1]
  {
  }

  lemma RangeFacts(s: seq<Elem>, i: nat, j: nat)
    requires Distinct(s) && Chained(s) && 0 < i < j < |s|
    ensures Distinct(s[i..j]) && Chained(s[i..j]) && Apart(RemoveRange(s, i, j), s[i..j])
    ensures forall x :: x in s[i..j] ==> x != s[i - 1] && x != s[j]
    ensures s[i] !in RemoveRange(s, i, j) && s[j - 1] !in RemoveRange(s, i, j)
  {
  }

  lemma RemovedMembers(s: seq<Elem>, i: nat, j: nat)
    requires i <= j <= |s|
    ensures forall k :: 0 <= k < |RemoveRange(s, i, j)| ==> RemoveRange(s, i, j)[k] in s
  {
  }

  lemma ApartPart(a: seq<Elem>, b: seq<Elem>, i: nat, j: nat, k: nat)
    requires Apart(a, b) && Distinct(b) && 0 < i <= j < |b| && 0 < k < |a|
    ensures Apart(a, b[i..j])
    ensures b[i - 1] !in a && b[j] !in a
    ensures a[k] !in RemoveRange(b, i, j) && a[k - 1] !in RemoveRange(b, i, j)
  {
  }

  // ---- Sorting ---------------------------------------------------------------------------------------

  /** Where the run that starts at `i` ends, looking no further than `m`. */
  ghost predicate EndsRun(less: (Elem, Elem) -> bool, s: seq<Elem>, i: int, j: int, m: int) {
    && 0 <= i < j <= m <= |s|
    && Sorted(less, s[i..j])
    && (j == m || less(s[j], s[j - 1]))
  }

  /** find_end_of_run. */
  method FindEndOfRun(list: ListHead, start: Elem, end: Elem, less: (Elem, Elem) -> bool, ghost i: nat, ghost m: nat)
    returns (a: Elem, ghost j: nat)
    requires list.Valid() && 0 < i < m < |list.nodes| && list.nodes[i] == start && list.nodes[m] == end
    ensures EndsRun(less, list.nodes, i, j, m) && a == list.nodes[j]
  {
    a, j := start.next, i + 1;
    while a != end && !less(a, a.prev)
      invariant i < j <= m && a == list.nodes[j]
      invariant Sorted(less, list.nodes[i..j])
      decreases m - j
    {
      SortedExtend(less, list.nodes, i, j);
      a, j := a.next, j + 1;
    }
  }

  lemma SortedExtend(less: (Elem, Elem) -> bool, s: seq<Elem>, i: nat, j: nat)
    requires i < j < |s| && Sorted(less, s[i..j]) && !less(s[j], s[j - 1])
    ensures Sorted(less, s[i..j + 1])
  {
    var t := s[i..j + 1];
    forall k | 0 < k < |t| ensures !less(t[k], t[k - 1]) {
      if k < j - i { assert t[k] == s[i..j][k] && t[k - 1] == s[i..j][k - 1]; }
    }
  }

  ghost function MergedAt(less: (Elem, Elem) -> bool, s: seq<Elem>, p: nat, q: nat, m: nat): (r: seq<Elem>)
    requires p <= q <= m <= |s|
    ensures |r| == |s|
  {
    s[..p] + Merge(less, s[p..q], s[q..m]) + s[m..]
  }

  lemma MergeDone(less: (Elem, Elem) -> bool, s: seq<Elem>, p: nat, q: nat, m: nat)
    requires p <= q <= m <= |s| && (p == q || q == m)
    ensures MergedAt(less, s, p, q, m) == s
  {
  }

  lemma MergeKeepsFirst(less: (Elem, Elem) -> bool, s: seq<Elem>, p: nat, q: nat, m: nat)
    requires p < q < m <= |s| && !less(s[q], s[p])
    ensures MergedAt(less, s, p, q, m) == MergedAt(less, s, p + 1, q, m)
  {
    assert s[p..q][1..] == s[p + 1..q];
    assert s[..p] + [s[p]] == s[..p + 1];
  }

  /** `r` is `s` with the element at `q` moved back to `p`. */
  ghost predicate Moved(s: seq<Elem>, r: seq<Elem>, p: int, q: int) {
    && 0 <= p <= q < |s| == |r|
    && (forall x :: 0 <= x < p ==> r[x] == s[x])
    && r[p] == s[q]
    && (forall x :: p < x <= q ==> r[x] == s[x - 1])
    && (forall x :: q < x < |s| ==> r[x] == s[x])
  }

  lemma MovedOne(s: seq<Elem>, r: seq<Elem>, p: nat, q: nat)
    requires p <= q < |s| && r == InsertRange(RemoveRange(s, q, q + 1), p, s[q..q + 1])
    ensures Moved(s, r, p, q)
  {
    hide InsertRange, RemoveRange;
    var t := RemoveRange(s, q, q + 1);
    RemoveRangeElems(s, q, q + 1);
    InsertRangeElems(t, p, s[q..q + 1]);
    forall x | q < x < |s| ensures r[x] == s[x] { assert r[x] == t[x - 1]; }
    forall x | p < x <= q ensures r[x] == s[x - 1] { assert r[x] == t[x - 1]; }
  }

  lemma MovedSame(s: seq<Elem>, r: seq<Elem>, p: nat, q: nat)
    requires Moved(s, r, p, q)
    ensures multiset(r) == multiset(s)
    ensures Within(r, s)
  {
    var a, b, c := s[..p], s[p..q], s[q + 1..];
    assert r == a + [s[q]] + b + c;
    assert s == a + b + [s[q]] + c;
    SwapMiddle(a, b, [s[q]], c);
    forall i | 0 <= i < |r| ensures r[i] in s { assert r[i] in multiset(r); }
  }

  lemma SwapMiddle<T>(a: seq<T>, b: seq<T>, c: seq<T>, d: seq<T>)
    ensures multiset(a + c + b + d) == multiset(a + b + c + d)
  {
  }

  lemma MergeTakesSecond(less: (Elem, Elem) -> bool, s: seq<Elem>, r: seq<Elem>, p: nat, q: nat, m: nat)
    requires p < q < m <= |s| && less(s[q], s[p]) && Moved(s, r, p, q)
    ensures MergedAt(less, s, p, q, m) == MergedAt(less, r, p + 1, q + 1, m)
  {
    MovedSlices(s, r, p, q, m);
    assert s[q..m][1..] == s[q + 1..m];
  }

  lemma MovedSlices(s: seq<Elem>, r: seq<Elem>, p: nat, q: nat, m: nat)
    requires p < q < m <= |s| && Moved(s, r, p, q)
    ensures r[..p + 1] == s[..p] + [s[q]]
    ensures r[p + 1..q + 1] == s[p..q]
    ensures r[q + 1..m] == s[q + 1..m]
    ensures r[m..] == s[m..]
  {
  }

  /** The splice of inplace_merge: the element at `q` moves back to `p`. */
  method MoveElem(list: ListHead, before: Elem, elem: Elem, ghost p: nat, ghost q: nat)
    requires list.Valid() && 0 < p < q < |list.nodes| - 1 && list.nodes[p] == before && list.nodes[q] == elem
    modifies list, list.nodes
    ensures list.Valid() && Moved(old(list.nodes), list.nodes, p, q)
    ensures multiset(list.nodes) == multiset(old(list.nodes))
    ensures Within(list.nodes, old(list.nodes))
  {
    hide Distinct, Chained, Moved, Within, InsertRange, RemoveRange;
    NextPrev(list, q);
    RemovedBefore(list.nodes, p, q);
    list.SpliceWithin(before, elem, elem.next, q, q + 1, p);
    MovedOne(old(list.nodes), list.nodes, p, q);
    MovedSame(old(list.nodes), list.nodes, p, q);
  }

  lemma RemovedBefore(s: seq<Elem>, p: nat, q: nat)
    requires p < q < |s|
    ensures |RemoveRange(s, q, q + 1)| == |s| - 1 && RemoveRange(s, q, q + 1)[p] == s[p]
  {
  }

  lemma NextPrev(list: ListHead, q: nat)
    requires list.Valid() && q < |list.nodes| - 1
    ensures list.nodes[q].next == list.nodes[q + 1] && list.nodes[q + 1].prev == list.nodes[q]
  {
  }

  /** inplace_merge: the runs at `i`..`j` and `j`..`m` become their stable merge, in place. */
  method InplaceMerge(list: ListHead, a: Elem, mid: Elem, b1: Elem, less: (Elem, Elem) -> bool, ghost i: nat,
          ghost j: nat, ghost m: nat)
    requires list.Valid() && 0 < i < j < m < |list.nodes|
    requires list.nodes[i] == a && list.nodes[j] == mid && list.nodes[m] == b1
    modifies list, list.nodes
    ensures list.Valid() && list.nodes == MergedAt(less, old(list.nodes), i, j, m)
    ensures multiset(list.nodes) == multiset(old(list.nodes))
    ensures Within(list.nodes, old(list.nodes))
  {
    hide Merge, MergedAt, Distinct, Moved, Chained;
    var a0, a1b0 := a, mid;
    ghost var p, q := i, j;
    while a0 != a1b0 && a1b0 != b1
      invariant list.Valid() && |list.nodes| == |old(list.nodes)|
      invariant 0 < p <= q <= m < |list.nodes|
      invariant a0 == list.nodes[p] && a1b0 == list.nodes[q] && b1 == list.nodes[m]
      invariant MergedAt(less, list.nodes, p, q, m) == MergedAt(less, old(list.nodes), i, j, m)
      invariant multiset(list.nodes) == multiset(old(list.nodes))
      invariant Within(list.nodes, old(list.nodes))
      decreases m - p
    {
      SamePlace(list.nodes, p, q);
      SamePlace(list.nodes, q, m);
      if !less(a1b0, a0) {
        MergeKeepsFirst(less, list.nodes, p, q, m);
        NextPrev(list, p);
        a0, p := a0.next, p + 1;
      } else {
        ghost var s := list.nodes;
        NextPrev(list, q);
        a1b0 := a1b0.next;
        MoveElem(list, a0, a1b0.prev, p, q);
        MovedEnds(s, list.nodes, p, q, m);
        MergeTakesSecond(less, s, list.nodes, p, q, m);
        p, q := p + 1, q + 1;
      }
    }
    SamePlace(list.nodes, p, q);
    SamePlace(list.nodes, q, m);
    MergeDone(less, list.nodes, p, q, m);
  }

  lemma MovedEnds(s: seq<Elem>, r: seq<Elem>, p: nat, q: nat, m: nat)
    requires Moved(s, r, p, q) && p < q < m < |s|
    ensures |r| == |s| && r[p + 1] == s[p] && r[q + 1] == s[q + 1] && r[m] == s[m]
  {
  }

  // ---- One pass, on the elements between the sentinels ---------------------------------------------------

  lemma PassRuns(less: (Elem, Elem) -> bool, e: seq<Elem>, a: nat, b: nat, c: nat)
    requires b < |e| && EndsRun(less, e, a, b, |e|) && EndsRun(less, e, b, c, |e|)
    ensures Runs(less, e[a..]) == 2 + Runs(less, e[c..])
  {
    assert e[a..] == e[a..b] + e[b..];
    assert e[b..] == e[b..c] + e[c..];
    FirstRun(less, e[a..b], e[b..]);
    FirstRun(less, e[b..c], e[c..]);
  }

  lemma PassStable(less: (Elem, Elem) -> bool, e: seq<Elem>, a: nat, b: nat, c: nat)
    requires StrictWeak(less, e) && EndsRun(less, e, a, b, |e|) && EndsRun(less, e, b, c, |e|)
    ensures Stable(less, e, MergedAt(less, e, a, b, c)) && StrictWeak(less, MergedAt(less, e, a, b, c))
  {
    var m := MergedAt(less, e, a, b, c);
    assert e == e[..a] + e[a..b] + e[b..c] + e[c..];
    StableMerge(less, e[..a], e[a..b], e[b..c], e[c..]);
    StableOrder(less, e, m);
  }

  lemma PassPrefix(less: (Elem, Elem) -> bool, e: seq<Elem>, a: nat, b: nat, c: nat)
    requires StrictWeak(less, e) && EndsRun(less, e, a, b, |e|) && EndsRun(less, e, b, c, |e|)
    ensures var f := MergedAt(less, e, a, b, c);
            f[c..] == e[c..] && Runs(less, f[..c]) <= Runs(less, e[..a]) + 1
  {
    var f, g := MergedAt(less, e, a, b, c), Merge(less, e[a..b], e[b..c]);
    SubOrder(less, e, e[a..b] + e[b..c]);
    MergeSorted(less, e[a..b], e[b..c]);
    assert f[..c] == e[..a] + g;
    OneMoreRun(less, e[..a], g);
  }

  lemma PassLast(less: (Elem, Elem) -> bool, e: seq<Elem>, a: nat)
    requires EndsRun(less, e, a, |e|, |e|)
    ensures Runs(less, e[a..]) == 1 && Runs(less, e) <= Runs(less, e[..a]) + 1
  {
    FirstRun(less, e[a..], []);
    assert e[a..] + [] == e[a..];
    assert e == e[..a] + e[a..];
    OneMoreRun(less, e[..a], e[a..]);
  }

  /** Reading a run or a merge of the nodes as one of the elements, which start one place later. */
  lemma RunOfElems(less: (Elem, Elem) -> bool, ns: seq<Elem>, i: nat, j: nat)
    requires |ns| >= 2 && 0 < i && EndsRun(less, ns, i, j, |ns| - 1)
    ensures EndsRun(less, ns[1..|ns| - 1], i - 1, j - 1, |ns| - 2)
  {
    var e := ns[1..|ns| - 1];
    ElemsSlice(ns, i, j);
  }

  lemma ElemsSlice(ns: seq<Elem>, i: nat, j: nat)
    requires 0 < i <= j < |ns|
    ensures ns[1..|ns| - 1][i - 1..j - 1] == ns[i..j]
  {
    var a, b := ns[1..|ns| - 1][i - 1..j - 1], ns[i..j];
    assert |a| == |b|;
    forall k | 0 <= k < |a| ensures a[k] == b[k] { assert a[k] == ns[i + k]; }
  }

  lemma MergeOfElems(less: (Elem, Elem) -> bool, ns: seq<Elem>, i: nat, j: nat, m: nat)
    requires |ns| >= 2 && 0 < i <= j <= m < |ns|
    ensures MergedAt(less, ns, i, j, m)[1..|ns| - 1] == MergedAt(less, ns[1..|ns| - 1], i - 1, j - 1, m - 1)
    ensures MergedAt(less, ns, i, j, m)[m] == ns[m]
  {
    hide Merge;
    var e := ns[1..|ns| - 1];
    ElemsSlice(ns, i, j);
    ElemsSlice(ns, j, m);
    assert ns[..i] == [ns[0]] + e[..i - 1];
    assert ns[m..] == e[m - 1..] + [ns[|ns| - 1]];
  }

  /** One iteration: everything the pass keeps. */
  lemma PassStep(less: (Elem, Elem) -> bool, ns: seq<Elem>, i: nat, j: nat, m: nat, first: seq<Elem>, cnt: nat, r0: nat)
    requires |ns| >= 2 && 0 < i && j < |ns| - 1 && EndsRun(less, ns, i, j, |ns| - 1)
             && EndsRun(less, ns, j, m, |ns| - 1)
    requires PassInv(less, ns[1..|ns| - 1], i - 1, first, cnt, r0)
    ensures PassInv(less, MergedAt(less, ns, i, j, m)[1..|ns| - 1], m - 1, first, cnt + 1, r0)
  {
    hide Stable, StrictWeak, Runs, Merge, MergedAt, Sorted;
    var e := ns[1..|ns| - 1];
    RunOfElems(less, ns, i, j);
    RunOfElems(less, ns, j, m);
    MergeOfElems(less, ns, i, j, m);
    PassRuns(less, e, i - 1, j - 1, m - 1);
    PassStable(less, e, i - 1, j - 1, m - 1);
    PassPrefix(less, e, i - 1, j - 1, m - 1);
    StableTrans(less, first, e, MergedAt(less, e, i - 1, j - 1, m - 1));
  }

  /** The first `a` elements form at most `cnt` runs, and each of those used up two of the runs there were. */
  ghost predicate PassInv(less: (Elem, Elem) -> bool, e: seq<Elem>, a: int, first: seq<Elem>, cnt: nat, r0: nat) {
    && 0 <= a <= |e|
    && StrictWeak(less, e) && Stable(less, first, e)
    && Runs(less, e[..a]) <= cnt
    && 2 * cnt + Runs(less, e[a..]) == r0
  }

  /** One pass of list_sort: r runs become at most half as many, rounded up. */
  method MergePass(list: ListHead, less: (Elem, Elem) -> bool) returns (cnt: nat)
    requires list.Valid() && StrictWeak(less, list.Elems())
    modifies list, list.nodes
    ensures list.Valid() && Within(list.nodes, old(list.nodes)) && |list.nodes| == |old(list.nodes)|
    ensures Stable(less, old(list.Elems()), list.Elems()) && StrictWeak(less, list.Elems())
    ensures cnt == (Runs(less, old(list.Elems())) + 1) / 2
    ensures Runs(less, list.Elems()) <= cnt
  {
    hide Distinct, Chained, Stable, StrictWeak, Runs, MergedAt, PassInv;
    ghost var first := list.Elems();
    ghost var r0 := Runs(less, first);
    PassStart(less, first);
    cnt := 0;
    NextPrev(list, 0);
    var a0 := list.head.next;
    ghost var i := 1;
    while a0 != list.tail
      invariant list.Valid() && |list.nodes| == |old(list.nodes)| && Within(list.nodes, old(list.nodes))
      invariant 0 < i < |list.nodes| && a0 == list.nodes[i]
      invariant PassInv(less, list.Elems(), i - 1, first, cnt, r0)
      decreases |list.nodes| - i
    {
      SamePlace(list.nodes, i, |list.nodes| - 1);
      cnt := cnt + 1;
      var a1b0, j := FindEndOfRun(list, a0, list.tail, less, i, |list.nodes| - 1);
      SamePlace(list.nodes, j, |list.nodes| - 1);
      if a1b0 == list.tail {
        PassEnd(less, list.nodes, i, first, cnt - 1, r0);
        return;
      }
      var b1, m := FindEndOfRun(list, a1b0, list.tail, less, j, |list.nodes| - 1);
      PassStep(less, list.nodes, i, j, m, first, cnt - 1, r0);
      MergeOfElems(less, list.nodes, i, j, m);
      InplaceMerge(list, a0, a1b0, b1, less, i, j, m);
      a0, i := b1, m;
    }
    SamePlace(list.nodes, i, |list.nodes| - 1);
    PassDone(less, list.nodes, first, cnt, r0);
  }

  lemma PassStart(less: (Elem, Elem) -> bool, e: seq<Elem>)
    requires StrictWeak(less, e)
    ensures PassInv(less, e, 0, e, 0, Runs(less, e))
  {
    assert e[0..] == e;
  }

  lemma PassEnd(less: (Elem, Elem) -> bool, ns: seq<Elem>, i: nat, first: seq<Elem>, cnt: nat, r0: nat)
    requires |ns| >= 2 && 0 < i && EndsRun(less, ns, i, |ns| - 1, |ns| - 1)
    requires PassInv(less, ns[1..|ns| - 1], i - 1, first, cnt, r0)
    ensures var e := ns[1..|ns| - 1]; StrictWeak(less, e) && Stable(less, first, e) && Runs(less, e) <= cnt + 1
    ensures cnt + 1 == (r0 + 1) / 2
  {
    RunOfElems(less, ns, i, |ns| - 1);
    PassLast(less, ns[1..|ns| - 1], i - 1);
  }

  lemma PassDone(less: (Elem, Elem) -> bool, ns: seq<Elem>, first: seq<Elem>, cnt: nat, r0: nat)
    requires |ns| >= 2 && PassInv(less, ns[1..|ns| - 1], |ns| - 2, first, cnt, r0)
    ensures var e := ns[1..|ns| - 1]; StrictWeak(less, e) && Stable(less, first, e) && Runs(less, e) <= cnt
    ensures cnt == (r0 + 1) / 2
  {
    var e := ns[1..|ns| - 1];
    assert e[..|e|] == e && e[|e|..] == [];
  }

  /** list_sort: a sorted, stable rearrangement of the same nodes, well linked. It ends because a pass
      that produced more than one run left fewer runs than it found. */
  method Sort(list: ListHead, less: (Elem, Elem) -> bool)
    requires list.Valid() && StrictWeak(less, list.Elems())
    modifies list, list.nodes
    ensures list.Valid() && Sorted(less, list.Elems()) && Stable(less, old(list.Elems()), list.Elems())
  {
    hide Distinct, Chained, Stable, StrictWeak, Runs, Sorted;
    ghost var first := list.Elems();
    StableRefl(less, first);
    var cnt := MergePass(list, less);
    while cnt > 1
      invariant list.Valid() && |list.nodes| == |old(list.nodes)| && Within(list.nodes, old(list.nodes))
      invariant StrictWeak(less, list.Elems()) && Stable(less, first, list.Elems())
      invariant Runs(less, list.Elems()) <= cnt
      decreases cnt
    {
      ghost var before := list.Elems();
      cnt := MergePass(list, less);
      StableTrans(less, first, before, list.Elems());
    }
    OneRunSorted(less, list.Elems());
  }

  lemma StableRefl(less: (Elem, Elem) -> bool, e: seq<Elem>)
    ensures Stable(less, e, e)
  {
  }

  lemma OneRunSorted(less: (Elem, Elem) -> bool, e: seq<Elem>)
    requires Runs(less, e) <= 1
    ensures Sorted(less, e)
  {
    SortedDescents(less, e);
  }
}
