/** The in-place heap sort and binary search of lib/stdlib.c. Indexes are 1-based, as in the source. */
module Heapsort {

  /** A strcmp()-type comparison of a total preorder. */
  ghost predicate Preorder<T(!new)>(cmp: (T, T) -> int) {
    && (forall x, y :: cmp(x, y) > 0 <==> cmp(y, x) < 0)
    && (forall x, y, z :: cmp(x, y) <= 0 && cmp(y, z) <= 0 ==> cmp(x, z) <= 0)
  }

  /** Element number `k`. */
  function Nth<T>(s: seq<T>, k: int): (x: T)
    requires 1 <= k <= |s|
  {
    s[k - 1]
  }

  /** Among the first `n` elements, `j` does not exceed its parent. */
  ghost predicate Below<T>(cmp: (T, T) -> int, s: seq<T>, j: int, n: int)
    requires n <= |s|
  {
    2 <= j <= n ==> cmp(Nth(s, j), Nth(s, j / 2)) <= 0
  }

  /** The first `n` elements form a heap below every element from `lo` on. */
  ghost predicate HeapFrom<T>(cmp: (T, T) -> int, s: seq<T>, lo: int, n: int) {
    n <= |s| && forall j :: 2 <= j <= n && lo <= j / 2 ==> Below(cmp, s, j, n)
  }

  /** As `HeapFrom`, except between `i` and its children; those do not exceed the parent of `i`. */
  ghost predicate HeapExcept<T>(cmp: (T, T) -> int, s: seq<T>, lo: int, n: int, i: int) {
    && n <= |s| && 1 <= lo <= i <= n
    && (forall j :: 2 <= j <= n && lo <= j / 2 && j / 2 != i ==> Below(cmp, s, j, n))
    && (lo <= i / 2 ==>
         && (2 * i <= n ==> cmp(Nth(s, 2 * i), Nth(s, i / 2)) <= 0)
         && (2 * i + 1 <= n ==> cmp(Nth(s, 2 * i + 1), Nth(s, i / 2)) <= 0))
  }

  ghost function Swapped<T>(s: seq<T>, i: int, j: int): (r: seq<T>)
    requires 1 <= i <= |s| && 1 <= j <= |s|
  {
    s[i - 1 := s[j - 1]][j - 1 := s[i - 1]]
  }

  lemma SwapPermutes<T>(s: seq<T>, i: int, j: int, n: int)
    requires 1 <= i < j <= n <= |s|
    ensures multiset(Swapped(s, i, j)[..n]) == multiset(s[..n])
    ensures Swapped(s, i, j)[n..] == s[n..]
  {
    var p := s[..n];
    assert Swapped(s, i, j)[..n] == p[i - 1 := p[j - 1]][j - 1 := p[i - 1]];
  }

  method DoSwap<T>(a: array<T>, i: nat, j: nat)
    requires 1 <= i < j <= a.Length
    modifies a
    ensures a[..] == Swapped(old(a[..]), i, j)
  {
    a[i - 1], a[j - 1] := a[j - 1], a[i - 1];
  }

  /** do_swap's loop, on the bytes of two elements that lie at `a` and `b`: they change places, and no other byte
      changes. */
  method SwapBytes(mem: array<bv8>, a: nat, b: nat, size: nat)
    requires a + size <= b && b + size <= mem.Length
    modifies mem
    ensures mem[a..a + size] == old(mem[b..b + size]) && mem[b..b + size] == old(mem[a..a + size])
    ensures mem[..a] == old(mem[..a]) && mem[a + size..b] == old(mem[a + size..b])
            && mem[b + size..] == old(mem[b + size..])
  {
    for i := 0 to size
      invariant forall k :: a <= k < a + i ==> mem[k] == old(mem[k + (b - a)])
      invariant forall k :: b <= k < b + i ==> mem[k] == old(mem[k - (b - a)])
      invariant forall k :: 0 <= k < mem.Length && !(a <= k < a + i) && !(b <= k < b + i) ==> mem[k] == old(mem[k])
    {
      var t := mem[a + i];
      mem[a + i] := mem[b + i];
      mem[b + i] := t;
    }
  }

  /** `m` is the greatest child of `i`, and greater than `i`. */
  ghost predicate GreaterChild<T>(cmp: (T, T) -> int, s: seq<T>, n: int, i: int, m: int) {
    && 1 <= i && (m == 2 * i || m == 2 * i + 1) && m <= n <= |s|
    && cmp(Nth(s, m), Nth(s, i)) > 0
    && cmp(Nth(s, 2 * i), Nth(s, m)) <= 0
    && (2 * i + 1 <= n ==> cmp(Nth(s, 2 * i + 1), Nth(s, m)) <= 0)
  }

  lemma SwapNth<T>(s: seq<T>, i: int, j: int)
    requires 1 <= i < j <= |s|
    ensures |Swapped(s, i, j)| == |s| && Nth(Swapped(s, i, j), i) == Nth(s, j) && Nth(Swapped(s, i, j), j) == Nth(s, i)
    ensures forall k :: 1 <= k <= |s| && k != i && k != j ==> Nth(Swapped(s, i, j), k) == Nth(s, k)
  {
  }

  lemma FloatDownAt<T>(cmp: (T, T) -> int, s: seq<T>, lo: int, n: int, i: int, m: int, j: int)
    requires HeapExcept(cmp, s, lo, n, i) && GreaterChild(cmp, s, n, i, m) && cmp(Nth(s, i), Nth(s, m)) < 0
    requires 2 <= j <= n && lo <= j / 2 && j / 2 != m
    ensures n <= |Swapped(s, i, m)| && Below(cmp, Swapped(s, i, m), j, n)
  {
    hide Swapped;
    SwapNth(s, i, m);
    if j / 2 != i {
      assert j != m;
      if j != i { assert Below(cmp, s, j, n); }
    } else {
      assert j == 2 * i || j == 2 * i + 1;
    }
  }

  /** Swapping `i` with its greatest child moves the exception down to that child. */
  lemma FloatDown<T(!new)>(cmp: (T, T) -> int, s: seq<T>, lo: int, n: int, i: int, m: int)
    requires Preorder(cmp) && HeapExcept(cmp, s, lo, n, i) && GreaterChild(cmp, s, n, i, m)
    ensures HeapExcept(cmp, Swapped(s, i, m), lo, n, m)
  {
    hide Swapped;
    assert cmp(Nth(s, i), Nth(s, m)) < 0;
    hide Preorder;
    SwapNth(s, i, m);
    var r := Swapped(s, i, m);
    forall j | 2 <= j <= n && lo <= j / 2 && j / 2 != m ensures Below(cmp, r, j, n) {
      FloatDownAt(cmp, s, lo, n, i, m, j);
    }
    assert m / 2 == i;
    assert Below(cmp, s, 2 * m, n) && Below(cmp, s, 2 * m + 1, n);
  }

  lemma NoException<T(!new)>(cmp: (T, T) -> int, s: seq<T>, lo: int, n: int, i: int)
    requires HeapExcept(cmp, s, lo, n, i)
    requires 2 * i <= n ==> cmp(Nth(s, 2 * i), Nth(s, i)) <= 0
    requires 2 * i + 1 <= n ==> cmp(Nth(s, 2 * i + 1), Nth(s, i)) <= 0
    ensures HeapFrom(cmp, s, lo, n)
  {
    forall j | 2 <= j <= n && lo <= j / 2 ensures Below(cmp, s, j, n) {
      if j / 2 == i { assert j == 2 * i || j == 2 * i + 1; }
    }
  }

  /** Index of the greatest among `i` and its children, as heapify finds it. */
  method MaxOfThree<T(!new)>(a: array<T>, i: nat, cnt: nat, cmp: (T, T) -> int) returns (max: nat)
    requires Preorder(cmp) && 1 <= i <= cnt <= a.Length
    ensures max == i || GreaterChild(cmp, a[..], cnt, i, max)
    ensures max == i ==>
              (2 * i <= cnt ==> cmp(a[2 * i - 1], a[i - 1]) <= 0)
              && (2 * i + 1 <= cnt ==> cmp(a[2 * i], a[i - 1]) <= 0)
  {
    var left, right := 2 * i, 2 * i + 1;
    max := i;
    if left <= cnt && cmp(a[left - 1], a[max - 1]) > 0 {
      max := left;
    }
    if right <= cnt && cmp(a[right - 1], a[max - 1]) > 0 {
      max := right;
    }
  }

  /** heapify: given heaps below `i`, makes one at `i`, touching only the first `cnt` elements. */
  method Heapify<T(!new)>(a: array<T>, start: nat, cnt: nat, cmp: (T, T) -> int)
    requires Preorder(cmp) && 1 <= start <= cnt <= a.Length && HeapFrom(cmp, a[..], start + 1, cnt)
    modifies a
    ensures HeapFrom(cmp, a[..], start, cnt)
    ensures SameUpTo(old(a[..]), a[..], cnt)
  {
    hide Preorder, SameUpTo, Swapped, HeapFrom;
    var i := start;
    ghost var s := a[..];
    HeapStart(cmp, s, start, cnt);
    while true
      invariant start <= i <= cnt && HeapExcept(cmp, a[..], start, cnt, i)
      invariant SameUpTo(s, a[..], cnt)
      decreases cnt - i
    {
      var max := MaxOfThree(a, i, cnt, cmp);
      if max == i {
        NoException(cmp, a[..], start, cnt, i);
        break;
      }
      FloatDown(cmp, a[..], start, cnt, i, max);
      SwapSame(s, a[..], i, max, cnt);
      DoSwap(a, i, max);
      i := max;
    }
  }

  lemma HeapStart<T>(cmp: (T, T) -> int, s: seq<T>, start: nat, cnt: nat)
    requires 1 <= start <= cnt <= |s| && HeapFrom(cmp, s, start + 1, cnt)
    ensures HeapExcept(cmp, s, start, cnt, start) && SameUpTo(s, s, cnt)
  {
  }

  /** `t` rearranges the first `n` elements of `s` and leaves the rest alone. */
  ghost predicate SameUpTo<T>(s: seq<T>, t: seq<T>, n: int) {
    0 <= n <= |s| == |t| && multiset(t[..n]) == multiset(s[..n]) && t[n..] == s[n..]
  }

  lemma SwapSame<T>(s: seq<T>, t: seq<T>, i: int, j: int, n: int)
    requires SameUpTo(s, t, n) && 1 <= i < j <= n
    ensures SameUpTo(s, Swapped(t, i, j), n)
  {
    SwapPermutes(t, i, j, n);
  }

  // ---- sort ---------------------------------------------------------------------------------------------

  /** The root of a heap is a greatest element. */
  lemma {:induction false} RootIsMax<T(!new)>(cmp: (T, T) -> int, s: seq<T>, n: int, j: int)
    requires Preorder(cmp) && HeapFrom(cmp, s, 1, n) && 1 <= j <= n
    ensures cmp(Nth(s, j), Nth(s, 1)) <= 0
    decreases j
  {
    if j > 1 {
      RootIsMax(cmp, s, n, j / 2);
      assert Below(cmp, s, j, n);
    }
  }

  ghost predicate SortedFrom<T>(cmp: (T, T) -> int, s: seq<T>, lo: int) {
    forall i, j :: 0 <= lo <= i < j < |s| ==> cmp(s[i], s[j]) <= 0
  }

  /** Everything in the heap part is at most everything in the sorted part. */
  ghost predicate Split<T>(cmp: (T, T) -> int, s: seq<T>, n: int) {
    forall i, j :: 0 <= i < n <= j < |s| ==> cmp(s[i], s[j]) <= 0
  }

  /** Rearranging the heap part keeps the two parts apart. */
  lemma SplitSame<T>(cmp: (T, T) -> int, s: seq<T>, t: seq<T>, n: int)
    requires SameUpTo(s, t, n) && Split(cmp, s, n) && SortedFrom(cmp, s, n)
    ensures Split(cmp, t, n) && SortedFrom(cmp, t, n)
  {
    forall i, j | 0 <= i < n <= j < |t| ensures cmp(t[i], t[j]) <= 0 {
      assert t[..n][i] in multiset(t[..n]);
      assert t[i] in s[..n];
      assert t[j] == t[n..][j - n] == s[j];
    }
    forall i, j | 0 <= n <= i < j < |t| ensures cmp(t[i], t[j]) <= 0 {
      assert t[i] == t[n..][i - n] && t[j] == t[n..][j - n];
    }
  }

  /** Moving the root to the end of the heap part extends the sorted part. */
  lemma ExtractMax<T(!new)>(cmp: (T, T) -> int, s: seq<T>, n: int)
    requires Preorder(cmp) && 2 <= n <= |s| && HeapFrom(cmp, s, 1, n) && Split(cmp, s, n) && SortedFrom(cmp, s, n)
    ensures var r := Swapped(s, 1, n); HeapFrom(cmp, r, 2, n - 1) && Split(cmp, r, n - 1) && SortedFrom(cmp, r, n - 1)
  {
    var r := Swapped(s, 1, n);
    forall j | 1 <= j <= n ensures cmp(Nth(s, j), Nth(s, 1)) <= 0 { RootIsMax(cmp, s, n, j); }
    ExtractHeap(cmp, s, n);
    forall i, j | 0 <= i < n - 1 <= j < |r| ensures cmp(r[i], r[j]) <= 0 {
      assert j == n - 1 ==> r[j] == Nth(s, 1);
      assert r[i] == Nth(s, if i == 0 then n else i + 1);
    }
  }

  lemma ExtractHeap<T>(cmp: (T, T) -> int, s: seq<T>, n: int)
    requires 2 <= n <= |s| && HeapFrom(cmp, s, 1, n)
    ensures HeapFrom(cmp, Swapped(s, 1, n), 2, n - 1)
  {
    SwapNth(s, 1, n);
    forall j | 2 <= j <= n - 1 && 2 <= j / 2 ensures Below(cmp, Swapped(s, 1, n), j, n - 1) {
      assert Below(cmp, s, j, n);
    }
  }

  /** sort. */
  method Sort<T(!new)>(a: array<T>, cmp: (T, T) -> int)
    requires Preorder(cmp)
    modifies a
    ensures SortedFrom(cmp, a[..], 0)
    ensures multiset(a[..]) == multiset(old(a[..]))
  {
    hide Preorder, HeapFrom, SameUpTo, Swapped, Split, SortedFrom;
    var cnt := a.Length;
    ghost var s := a[..];
    NoHeapYet(cmp, s, cnt / 2);
    var i := cnt / 2;
    while i > 0
      invariant 0 <= i <= cnt && HeapFrom(cmp, a[..], i + 1, cnt) && SameUpTo(s, a[..], cnt)
    {
      ghost var t := a[..];
      Heapify(a, i, cnt, cmp);
      SameTrans(s, t, a[..], cnt, cnt);
      i := i - 1;
    }
    NothingSorted(cmp, a[..]);
    i := cnt;
    while i > 1
      invariant 0 <= i <= cnt && HeapFrom(cmp, a[..], 1, i) && Split(cmp, a[..], i) && SortedFrom(cmp, a[..], i)
      invariant SameUpTo(s, a[..], cnt)
    {
      ExtractMax(cmp, a[..], i);
      SwapSame(s, a[..], 1, i, cnt);
      DoSwap(a, 1, i);
      ghost var t := a[..];
      Heapify(a, 1, i - 1, cmp);
      SplitSame(cmp, t, a[..], i - 1);
      SameTrans(s, t, a[..], cnt, i - 1);
      i := i - 1;
    }
    AllSorted(cmp, s, a[..], i, cnt);
  }

  lemma NoHeapYet<T>(cmp: (T, T) -> int, s: seq<T>, h: int)
    requires h == |s| / 2
    ensures HeapFrom(cmp, s, h + 1, |s|) && SameUpTo(s, s, |s|)
  {
  }

  lemma NothingSorted<T>(cmp: (T, T) -> int, s: seq<T>)
    ensures Split(cmp, s, |s|) && SortedFrom(cmp, s, |s|)
  {
  }

  lemma SameTrans<T>(s: seq<T>, t: seq<T>, r: seq<T>, n: int, m: int)
    requires SameUpTo(s, t, n) && SameUpTo(t, r, m) && m <= n
    ensures SameUpTo(s, r, n)
  {
    assert t[..n] == t[..m] + t[m..][..n - m] && r[..n] == r[..m] + r[m..][..n - m];
    assert t[n..] == t[m..][n - m..] && r[n..] == r[m..][n - m..];
  }

  lemma AllSorted<T>(cmp: (T, T) -> int, s: seq<T>, t: seq<T>, i: int, n: int)
    requires SameUpTo(s, t, n) && n == |s| && i <= 1 && i <= n
    requires Split(cmp, t, i) && SortedFrom(cmp, t, i) && 0 <= i
    ensures SortedFrom(cmp, t, 0) && multiset(t) == multiset(s)
  {
    assert t[..n] == t && s[..n] == s;
  }

  /** binary_search: an element that compares equal to the key, or the certainty that there is none. */
  method BinarySearch<T(!new)>(a: array<T>, key: T, cmp: (T, T) -> int) returns (r: int)
    requires Preorder(cmp) && SortedFrom(cmp, a[..], 0)
    ensures -1 <= r < a.Length
    ensures r >= 0 ==> cmp(key, a[r]) == 0
    ensures r == -1 ==> forall k :: 0 <= k < a.Length ==> cmp(key, a[k]) != 0
  {
    var first, last := 0, a.Length;
    while first < last
      invariant 0 <= first <= last <= a.Length
      invariant forall k :: 0 <= k < first ==> cmp(key, a[k]) > 0
      invariant forall k :: last <= k < a.Length ==> cmp(key, a[k]) < 0
      decreases last - first
    {
      var middle := first + (last - first) / 2;
      var c := cmp(key, a[middle]);
      if c < 0 {
        Outside(cmp, a[..], key, middle);
        last := middle;
      } else if c > 0 {
        Outside(cmp, a[..], key, middle);
        first := middle + 1;
      } else {
        return middle;
      }
    }
    return -1;
  }

  lemma Outside<T(!new)>(cmp: (T, T) -> int, s: seq<T>, key: T, m: nat)
    requires Preorder(cmp) && SortedFrom(cmp, s, 0) && m < |s|
    ensures cmp(key, s[m]) < 0 ==> forall k :: m <= k < |s| ==> cmp(key, s[k]) < 0
    ensures cmp(key, s[m]) > 0 ==> forall k :: 0 <= k <= m ==> cmp(key, s[k]) > 0
  {
    forall k | m < k < |s| && cmp(key, s[m]) < 0 ensures cmp(key, s[k]) < 0 { LessTrans(cmp, key, s[m], s[k]); }
    forall k | 0 <= k < m && cmp(key, s[m]) > 0 ensures cmp(key, s[k]) > 0 { LessTrans(cmp, s[k], s[m], key); }
  }

  /** A strict step before or after a weak one. */
  lemma LessTrans<T(!new)>(cmp: (T, T) -> int, x: T, y: T, z: T)
    requires Preorder(cmp)
    ensures cmp(x, y) < 0 && cmp(y, z) <= 0 ==> cmp(x, z) < 0
    ensures cmp(x, y) <= 0 && cmp(z, y) > 0 ==> cmp(z, x) > 0
  {
    var zx, yx, zy := cmp(z, x), cmp(y, x), cmp(z, y);
    assert cmp(x, z) < 0 <==> cmp(z, x) > 0;
  }
}
