/** Bitwise "and" on naturals, and the two bit tricks of lib/kernel/hash.c. */
module HashBits {
  import opened Basics

  function BitAnd(x: nat, y: nat): (r: nat)
    ensures r <= y
  {
    if x == 0 || y == 0 then 0 else (if x % 2 == 1 && y % 2 == 1 then 1 else 0) + 2 * BitAnd(x / 2, y / 2)
  }

  function TurnOffLeast1Bit(x: nat): (r: nat)
    requires x > 0
  {
    BitAnd(x, x - 1)
  }

  predicate IsPowerOf2(x: nat) {
    x != 0 && TurnOffLeast1Bit(x) == 0
  }

  function LowestBit(x: nat): (r: int)
    requires x > 0
  {
    x - TurnOffLeast1Bit(x)
  }

  lemma {:induction false} AndSame(x: nat)
    ensures BitAnd(x, x) == x
  {
    if x > 0 { AndSame(x / 2); }
  }

  lemma TurnOffOdd(m: nat)
    ensures TurnOffLeast1Bit(2 * m + 1) == 2 * m
  {
    AndSame(m);
    assert (2 * m + 1) / 2 == m && (2 * m) / 2 == m;
  }

  lemma TurnOffEven(m: nat)
    requires m > 0
    ensures TurnOffLeast1Bit(2 * m) == 2 * TurnOffLeast1Bit(m)
  {
    assert (2 * m) / 2 == m && (2 * m - 1) / 2 == m - 1 && (2 * m) % 2 == 0;
  }

  /** Turning a bit off leaves a lowest bit at least twice as high. */
  lemma {:induction false} LowBitDoubles(x: nat)
    requires x > 0
    ensures TurnOffLeast1Bit(x) < x
    ensures TurnOffLeast1Bit(x) != 0 ==> LowestBit(TurnOffLeast1Bit(x)) >= 2 * LowestBit(x)
  {
    var m := x / 2;
    if x % 2 == 1 {
      TurnOffOdd(m);
      if m > 0 { TurnOffEven(m); LowBitDoubles(m); }
    } else {
      TurnOffEven(m);
      LowBitDoubles(m);
      if TurnOffLeast1Bit(m) != 0 { TurnOffEven(TurnOffLeast1Bit(m)); }
    }
  }

  function Pow(k: nat): (r: nat)
    ensures r > 0
  {
    if k == 0 then 1 else 2 * Pow(k - 1)
  }

  /** The test finds exactly the powers of two. */
  lemma {:induction false} PowerOf2(x: nat) returns (k: nat)
    requires IsPowerOf2(x)
    ensures x == Pow(k)
  {
    if x == 1 {
      k := 0;
      assert Pow(0) == 1;
    } else if x % 2 == 1 {
      TurnOffOdd(x / 2);
    } else {
      TurnOffEven(x / 2);
      var j := PowerOf2(x / 2);
      k := j + 1;
    }
  }

  lemma {:induction false} PowIsPowerOf2(k: nat)
    ensures IsPowerOf2(Pow(k))
  {
    if k > 0 {
      PowIsPowerOf2(k - 1);
      TurnOffEven(Pow(k - 1));
    }
  }

  /** Masking with a power of two less one takes the remainder. */
  lemma {:induction false} MaskIsRemainder(h: nat, c: nat)
    requires IsPowerOf2(c)
    ensures BitAnd(h, c - 1) == h % c
  {
    var k := PowerOf2(c);
    MaskPow(h, k);
  }

  lemma {:induction false} MaskPow(h: nat, k: nat)
    ensures BitAnd(h, Pow(k) - 1) == h % Pow(k)
  {
    if k == 0 {
      assert Pow(0) == 1;
    } else if h == 0 {
      RemainderUnique(0, Pow(k), 0, 0);
    } else {
      MaskPow(h / 2, k - 1);
      MaskStep(h, Pow(k - 1));
    }
  }

  lemma MaskStep(h: nat, m: nat)
    requires h > 0 && m > 0 && BitAnd(h / 2, m - 1) == h / 2 % m
    ensures BitAnd(h, 2 * m - 1) == h % (2 * m)
  {
    hide BitAnd;
    AndOdd(h, m);
    RemainderHalves(h, m);
  }

  lemma AndOdd(h: nat, m: nat)
    requires h > 0 && m > 0
    ensures BitAnd(h, 2 * m - 1) == h % 2 + 2 * BitAnd(h / 2, m - 1)
  {
    assert (2 * m - 1) / 2 == m - 1 && (2 * m - 1) % 2 == 1;
  }

  lemma RemainderHalves(h: nat, m: nat)
    requires m > 0
    ensures h % (2 * m) == h % 2 + 2 * (h / 2 % m)
  {
    var q, r := h / 2 / m, h / 2 % m;
    assert h / 2 == q * m + r;
    var s := h % 2 + 2 * r;
    assert h == q * (2 * m) + s by { assert q * (2 * m) == 2 * (q * m); }
    RemainderUnique(h, 2 * m, q, s);
  }

  /** rehash's bucket count: the largest power of two that is at most half the elements, and at least 4. */
  method IdealBuckets(elemCnt: nat) returns (n: nat)
    ensures IsPowerOf2(n) && n >= 4
    ensures var want := if elemCnt / 2 < 4 then 4 else elemCnt / 2; n <= want < 2 * n
  {
    n := elemCnt / 2;
    if n < 4 { n := 4; }
    ghost var want := n;
    while !IsPowerOf2(n)
      invariant 0 < n <= want && want - n < LowestBit(n)
      decreases n
    {
      LowBitDoubles(n);
      n := TurnOffLeast1Bit(n);
    }
    if n == 3 { TurnOffOdd(1); }
  }
}

/** The hash table of lib/kernel/hash.c: an array of bucket lists, resized to suit the number of elements. */
module Hash {
  import opened Basics
  import opened HashBits

  /** find_elem's notion of equality. */
  predicate Equal<E>(less: (E, E) -> bool, x: E, y: E) {
    !less(x, y) && !less(y, x)
  }

  /** `less` is irreflexive, equality is transitive, and equal elements have equal hashes. */
  ghost predicate Lawful<E(!new)>(hash: E -> nat, less: (E, E) -> bool) {
    && (forall x :: Equal(less, x, x))
    && (forall x, y, z :: Equal(less, x, y) && Equal(less, y, z) ==> Equal(less, x, z))
    && (forall x, y :: Equal(less, x, y) ==> hash(x) == hash(y))
  }

  /** All elements of all buckets. */
  ghost function Elements<E>(b: seq<seq<E>>): (m: multiset<E>) {
    if b == [] then multiset{} else multiset(b[0]) + Elements(b[1..])
  }

  function BucketOf<E>(hash: E -> nat, e: E, cnt: nat): (i: nat)
    requires cnt > 0
    ensures i < cnt
  {
    BitAnd(hash(e), cnt - 1)
  }

  ghost predicate Placed<E>(hash: E -> nat, b: seq<seq<E>>)
    requires |b| > 0
  {
    forall i, e :: 0 <= i < |b| && e in b[i] ==> BucketOf(hash, e, |b|) == i
  }

  /** No two elements are equal, and none occurs twice: a set modulo equality. */
  ghost predicate Distinct<E>(less: (E, E) -> bool, m: multiset<E>) {
    && (forall x :: x in m ==> m[x] == 1)
    && (forall x, y :: x in m && y in m && Equal(less, x, y) ==> x == y)
  }

  lemma {:induction false} ElementsUpdate<E>(b: seq<seq<E>>, i: nat, s: seq<E>)
    requires i < |b|
    ensures Elements(b[i := s]) + multiset(b[i]) == Elements(b) + multiset(s)
  {
    var c := b[i := s];
    if i == 0 {
      assert c[1..] == b[1..];
    } else {
      ElementsUpdate(b[1..], i - 1, s);
      assert c[1..] == b[1..][i - 1 := s] && b[1..][i - 1] == b[i];
      SumSwap(Elements(c), multiset(b[0]), Elements(c[1..]), multiset(b[i]), Elements(b), Elements(b[1..]),
        multiset(s));
    }
  }

  lemma SumSwap<E>(c: multiset<E>, h: multiset<E>, c': multiset<E>, x: multiset<E>, b: multiset<E>, b': multiset<E>,
          y: multiset<E>)
    requires c == h + c' && b == h + b' && c' + x == b' + y
    ensures c + x == b + y
  {
    assert c + x == h + (c' + x);
    assert b + y == h + (b' + y);
  }

  lemma ElementsPush<E>(b: seq<seq<E>>, i: nat, e: E)
    requires i < |b|
    ensures Elements(b[i := [e] + b[i]]) == Elements(b) + multiset{e}
  {
    hide Elements;
    ElementsUpdate(b, i, [e] + b[i]);
    var c, x, y := Elements(b[i := [e] + b[i]]), multiset(b[i]), multiset([e] + b[i]);
    assert y == x + multiset{e};
    assert c == c + x - x == Elements(b) + y - x == Elements(b) + multiset{e};
  }

  lemma ElementsTake<E>(b: seq<seq<E>>, i: nat, k: nat)
    requires i < |b| && k < |b[i]|
    ensures b[i][k] in Elements(b)
    ensures Elements(b[i := b[i][..k] + b[i][k + 1..]]) == Elements(b) - multiset{b[i][k]}
  {
    hide Elements;
    var s, e := b[i][..k] + b[i][k + 1..], b[i][k];
    ElementsIn(b, i, e);
    ElementsUpdate(b, i, s);
    TakeOut(b[i], k);
    var c := Elements(b[i := s]);
    assert c == c + multiset(b[i]) - multiset(b[i]) == Elements(b) + multiset(s) - multiset(b[i]);
    assert multiset(b[i]) == multiset(s) + multiset{e};
  }

  lemma {:induction false} ElementsIn<E>(b: seq<seq<E>>, i: nat, e: E)
    requires i < |b| && e in b[i]
    ensures e in Elements(b)
  {
    if i > 0 { ElementsIn(b[1..], i - 1, e); }
  }

  lemma {:induction false} ElementsWhere<E>(b: seq<seq<E>>, e: E) returns (i: nat)
    requires e in Elements(b)
    ensures i < |b| && e in b[i]
  {
    if e in b[0] {
      i := 0;
    } else {
      var j := ElementsWhere(b[1..], e);
      i := j + 1;
    }
  }

  lemma {:induction false} ElementsNone<E>(b: seq<seq<E>>)
    requires forall i :: 0 <= i < |b| ==> b[i] == []
    ensures Elements(b) == multiset{}
  {
    if b != [] { ElementsNone(b[1..]); }
  }

  /** An element equal to `e` can only be in the bucket where `e` is looked for. */
  lemma EqualSameBucket<E(!new)>(hash: E -> nat, less: (E, E) -> bool, b: seq<seq<E>>, e: E, x: E)
    requires |b| > 0 && Placed(hash, b) && Lawful(hash, less) && x in Elements(b) && Equal(less, x, e)
    ensures x in b[BucketOf(hash, e, |b|)]
  {
    hide Lawful, Elements, BitAnd;
    var i := ElementsWhere(b, x);
    LawfulHash(hash, less, x, e);
    assert BucketOf(hash, e, |b|) == BucketOf(hash, x, |b|) == i;
  }

  lemma LawfulHash<E(!new)>(hash: E -> nat, less: (E, E) -> bool, x: E, y: E)
    requires Lawful(hash, less)
    ensures Equal(less, x, x) && (Equal(less, x, y) ==> hash(x) == hash(y))
  {
  }

  lemma LawfulTrans<E(!new)>(hash: E -> nat, less: (E, E) -> bool, x: E, y: E, z: E)
    requires Lawful(hash, less) && Equal(less, x, y) && Equal(less, y, z)
    ensures Equal(less, x, z)
  {
  }

  lemma PlacedUpdate<E>(hash: E -> nat, b: seq<seq<E>>, i: nat, s: seq<E>)
    requires i < |b| && Placed(hash, b) && forall e :: e in s ==> BucketOf(hash, e, |b|) == i
    ensures Placed(hash, b[i := s])
  {
  }

  lemma TakeOut<E>(s: seq<E>, k: nat)
    requires k < |s|
    ensures multiset(s) == multiset(s[..k] + s[k + 1..]) + multiset{s[k]}
  {
    assert s == s[..k] + [s[k]] + s[k + 1..];
  }

  /** Adding an element that equals none keeps a set modulo equality. */
  lemma DistinctAdd<E(!new)>(less: (E, E) -> bool, m: multiset<E>, e: E)
    requires Distinct(less, m) && Equal(less, e, e) && forall x :: x in m ==> !Equal(less, x, e)
    ensures Distinct(less, m + multiset{e})
  {
    var r := m + multiset{e};
    forall x, y | x in r && y in r && Equal(less, x, y) ensures x == y {
      assert (x in m || x == e) && (y in m || y == e);
    }
  }

  /** Taking an element out leaves none that equals it. */
  lemma DistinctSub<E(!new)>(less: (E, E) -> bool, m: multiset<E>, e: E)
    requires Distinct(less, m) && e in m
    ensures Distinct(less, m - multiset{e}) && forall x :: x in m - multiset{e} ==> !Equal(less, x, e)
  {
    var r := m - multiset{e};
    assert forall x :: x in r ==> x in m && x != e;
  }

  lemma NonePlaced<E>(hash: E -> nat, b: seq<seq<E>>)
    requires |b| > 0 && forall i :: 0 <= i < |b| ==> b[i] == []
    ensures Placed(hash, b)
  {
  }

  lemma PushPlaced<E>(hash: E -> nat, b: seq<seq<E>>, i: nat, e: E)
    requires i < |b| && Placed(hash, b) && BucketOf(hash, e, |b|) == i
    ensures Placed(hash, b[i := [e] + b[i]])
  {
    PlacedUpdate(hash, b, i, [e] + b[i]);
  }

  lemma TakePlaced<E>(hash: E -> nat, b: seq<seq<E>>, i: nat, k: nat)
    requires i < |b| && k < |b[i]| && Placed(hash, b)
    ensures Placed(hash, b[i := b[i][..k] + b[i][k + 1..]])
  {
    PlacedUpdate(hash, b, i, b[i][..k] + b[i][k + 1..]);
  }

  lemma MovedSum<E>(o: multiset<E>, b: multiset<E>, e: E)
    requires e in o
    ensures (o - multiset{e}) + (b + multiset{e}) == o + b
  {
  }

  /** The counter follows the contents, modulo the word size. */
  lemma CountAfter<E>(m: multiset<E>, e: E)
    ensures (|m| % WORD + 1) % WORD == |m + multiset{e}| % WORD
    ensures e in m ==> (|m| % WORD - 1) % WORD == |m - multiset{e}| % WORD
  {
    assert |m + multiset{e}| == |m| + 1;
    if e in m { assert |m - multiset{e}| == |m| - 1; }
  }

  class HashTable<E(==,!new)> {
    const hash: E -> nat
    const less: (E, E) -> bool
    var elemCnt: nat
    var bucketCnt: nat
    var buckets: array<seq<E>>

    ghost function View(): (m: multiset<E>)
      reads this, buckets
    {
      Elements(buckets[..])
    }

    ghost predicate Valid()
      reads this, buckets
    {
      && Lawful(hash, less)
      && bucketCnt == buckets.Length >= 4 && IsPowerOf2(bucketCnt)
      && Placed(hash, buckets[..])
      && Distinct(less, View())
      && elemCnt == |View()| % WORD
    }

    /** hash_init, when its allocation succeeds. */
    constructor (hash: E -> nat, less: (E, E) -> bool)
      requires Lawful(hash, less)
      ensures Valid() && View() == multiset{} && this.hash == hash && this.less == less && fresh(buckets)
    {
      this.hash, this.less := hash, less;
      elemCnt, bucketCnt := 0, 4;
      buckets := new seq<E>[4](_ => []);
      new;
      ElementsNone(buckets[..]);
      PowIsPowerOf2(2);
      assert Pow(2) == 4 by { assert Pow(0) == 1; assert Pow(1) == 2; }
    }

    /** find_elem: the position of an element of bucket `i` that equals `e`, or the bucket's end. */
    method FindElem(i: nat, e: E) returns (k: nat)
      requires i < buckets.Length
      ensures k <= |buckets[i]|
      ensures k < |buckets[i]| ==> Equal(less, buckets[i][k], e)
      ensures k == |buckets[i]| ==> forall x :: x in buckets[i] ==> !Equal(less, x, e)
    {
      k := 0;
      while k < |buckets[i]|
        invariant k <= |buckets[i]| && forall j :: 0 <= j < k ==> !Equal(less, buckets[i][j], e)
      {
        if !less(buckets[i][k], e) && !less(e, buckets[i][k]) { return; }
        k := k + 1;
      }
    }

    /** hash_find: an equal element of the table, and null only if there is none. */
    method Find(e: E) returns (r: Option<E>)
      requires Valid()
      ensures r.Some? ==> r.value in View() && Equal(less, r.value, e)
      ensures r.None? ==> forall x :: x in View() ==> !Equal(less, x, e)
    {
      hide Lawful, Elements, Distinct, Placed, IsPowerOf2;
      LawfulHash(hash, less, e, e);
      var i := BucketOf(hash, e, bucketCnt);
      var k := FindElem(i, e);
      if k < |buckets[i]| {
        r := Some(buckets[i][k]);
        ElementsIn(buckets[..], i, buckets[i][k]);
      } else {
        r := None;
        NoneEqual(i, e);
      }
    }

    lemma NoneEqual(i: nat, e: E)
      requires Valid() && i == BucketOf(hash, e, bucketCnt) && forall x :: x in buckets[i] ==> !Equal(less, x, e)
      ensures forall x :: x in View() ==> !Equal(less, x, e)
    {
      hide Lawful, Elements, Placed;
      forall x | x in View() ensures !Equal(less, x, e) {
        if Equal(less, x, e) { EqualSameBucket(hash, less, buckets[..], e, x); }
      }
    }

    /** insert_elem. */
    method InsertElem(i: nat, e: E)
      requires i < buckets.Length == bucketCnt && i == BucketOf(hash, e, bucketCnt) && Placed(hash, buckets[..])
      modifies this`elemCnt, buckets
      ensures Placed(hash, buckets[..]) && View() == old(View()) + multiset{e} && elemCnt == (old(elemCnt) + 1) % WORD
    {
      hide Elements, Placed;
      elemCnt := (elemCnt + 1) % WORD;
      ghost var b := buckets[..];
      ElementsPush(b, i, e);
      PushPlaced(hash, b, i, e);
      buckets[i] := [e] + buckets[i];
      assert buckets[..] == b[i := [e] + b[i]];
    }

    /** remove_elem of the element at position `k` of bucket `i`. */
    method RemoveElem(i: nat, k: nat)
      requires i < buckets.Length == bucketCnt && k < |buckets[i]| && Placed(hash, buckets[..])
      modifies this`elemCnt, buckets
      ensures Placed(hash, buckets[..]) && View() == old(View()) - multiset{old(buckets[i][k])}
      ensures old(buckets[i][k]) in old(View()) && elemCnt == (old(elemCnt) - 1) % WORD
    {
      hide Elements, Placed;
      elemCnt := (elemCnt - 1) % WORD;
      ghost var b := buckets[..];
      ElementsTake(b, i, k);
      TakePlaced(hash, b, i, k);
      buckets[i] := buckets[i][..k] + buckets[i][k + 1..];
      assert buckets[..] == b[i := b[i][..k] + b[i][k + 1..]];
    }

    /** rehash: a resize, or a failed one (`mem` is false), keeps every element. */
    method Rehash(mem: bool)
      requires Valid()
      modifies this, buckets
      ensures Valid() && View() == old(View()) && elemCnt == old(elemCnt)
      ensures buckets == old(buckets) || fresh(buckets)
      ensures mem ==> var want := if elemCnt / 2 < 4 then 4 else elemCnt / 2; bucketCnt <= want < 2 * bucketCnt
    {
      hide Lawful, Elements, Distinct, Placed, IsPowerOf2;
      var oldBuckets, oldCnt := buckets, bucketCnt;
      var newCnt := IdealBuckets(elemCnt);
      if newCnt == oldCnt || !mem { return; }
      ghost var all := View();
      buckets := new seq<E>[newCnt](_ => []);
      bucketCnt := newCnt;
      ElementsNone(buckets[..]);
      NonePlaced(hash, buckets[..]);
      var i := 0;
      while i < oldCnt
        invariant i <= oldCnt == oldBuckets.Length && oldBuckets == old(buckets) && fresh(buckets)
        invariant bucketCnt == buckets.Length == newCnt && elemCnt == old(elemCnt)
        invariant forall j :: 0 <= j < i ==> oldBuckets[j] == []
        invariant Placed(hash, buckets[..])
        invariant Elements(oldBuckets[..]) + Elements(buckets[..]) == all
      {
        MoveBucket(oldBuckets, i);
        i := i + 1;
      }
      ElementsNone(oldBuckets[..]);
      assert Elements(oldBuckets[..]) + View() == View();
    }

    /** Moves every element of an old bucket to the front of its new one. */
    method MoveBucket(oldBuckets: array<seq<E>>, i: nat)
      requires i < oldBuckets.Length && oldBuckets != buckets && buckets.Length == bucketCnt > 0
               && Placed(hash, buckets[..])
      modifies oldBuckets, buckets
      ensures oldBuckets[..] == old(oldBuckets[..])[i := []]
      ensures Placed(hash, buckets[..])
      ensures Elements(oldBuckets[..]) + Elements(buckets[..]) == old(Elements(oldBuckets[..]) + Elements(buckets[..]))
    {
      ghost var all := Elements(oldBuckets[..]) + Elements(buckets[..]);
      while |oldBuckets[i]| > 0
        invariant oldBuckets[..] == old(oldBuckets[..])[i := oldBuckets[i]]
        invariant Placed(hash, buckets[..])
        invariant Elements(oldBuckets[..]) + Elements(buckets[..]) == all
        decreases |oldBuckets[i]|
      {
        MoveOne(oldBuckets, i);
      }
    }

    method MoveOne(oldBuckets: array<seq<E>>, i: nat)
      requires i < oldBuckets.Length && oldBuckets != buckets && buckets.Length == bucketCnt > 0
               && Placed(hash, buckets[..])
      requires |oldBuckets[i]| > 0
      modifies oldBuckets, buckets
      ensures oldBuckets[..] == old(oldBuckets[..])[i := old(oldBuckets[i][1..])]
      ensures Placed(hash, buckets[..])
      ensures Elements(oldBuckets[..]) + Elements(buckets[..]) == old(Elements(oldBuckets[..]) + Elements(buckets[..]))
    {
      hide Elements, Placed;
      var e := oldBuckets[i][0];
      ghost var o, b := oldBuckets[..], buckets[..];
      var j := BucketOf(hash, e, bucketCnt);
      ElementsTake(o, i, 0);
      assert o[i][..0] + o[i][1..] == o[i][1..];
      ElementsPush(b, j, e);
      PushPlaced(hash, b, j, e);
      oldBuckets[i] := oldBuckets[i][1..];
      buckets[j] := [e] + buckets[j];
      assert oldBuckets[..] == o[i := o[i][1..]];
      assert buckets[..] == b[j := [e] + b[j]];
      MovedSum(Elements(o), Elements(b), e);
    }

    /** hash_insert: adds `e` unless an equal element is there, which is then returned. */
    method Insert(e: E, mem: bool) returns (r: Option<E>)
      requires Valid()
      modifies this, buckets
      ensures Valid() && (buckets == old(buckets) || fresh(buckets))
      ensures r.Some? ==> r.value in old(View()) && Equal(less, r.value, e) && View() == old(View())
      ensures r.None? ==> (forall x :: x in old(View()) ==> !Equal(less, x, e)) && View() == old(View()) + multiset{e}
    {
      hide Lawful, Elements, Distinct, Placed, IsPowerOf2;
      LawfulHash(hash, less, e, e);
      var i := BucketOf(hash, e, bucketCnt);
      var k := FindElem(i, e);
      if k < |buckets[i]| {
        r := Some(buckets[i][k]);
        ElementsIn(buckets[..], i, buckets[i][k]);
      } else {
        r := None;
        NoneEqual(i, e);
        DistinctAdd(less, View(), e);
        CountAfter(View(), e);
        InsertElem(i, e);
      }
      Rehash(mem);
    }

    /** hash_replace: `e` takes the place of an equal element, which is returned. */
    method Replace(e: E, mem: bool) returns (r: Option<E>)
      requires Valid()
      modifies this, buckets
      ensures Valid() && (buckets == old(buckets) || fresh(buckets))
      ensures r.Some? ==> r.value in old(View()) && Equal(less, r.value, e)
                          && View() == old(View()) - multiset{r.value} + multiset{e}
      ensures r.None? ==> (forall x :: x in old(View()) ==> !Equal(less, x, e)) && View() == old(View()) + multiset{e}
    {
      hide Lawful, Elements, Distinct, Placed, IsPowerOf2;
      LawfulHash(hash, less, e, e);
      var i := BucketOf(hash, e, bucketCnt);
      var k := FindElem(i, e);
      ghost var m := View();
      if k < |buckets[i]| {
        r := Some(buckets[i][k]);
        ElementsIn(buckets[..], i, buckets[i][k]);
        DistinctSub(less, m, r.value);
        CountAfter(View(), r.value);
        RemoveElem(i, k);
        NoneLeft(m, r.value, e);
      } else {
        r := None;
        NoneEqual(i, e);
      }
      DistinctAdd(less, View(), e);
      CountAfter(View(), e);
      InsertElem(i, e);
      Rehash(mem);
    }

    lemma NoneLeft(m: multiset<E>, x: E, e: E)
      requires Lawful(hash, less) && Distinct(less, m) && x in m && Equal(less, x, e)
      ensures forall y :: y in m - multiset{x} ==> !Equal(less, y, e)
    {
      hide Lawful, Distinct;
      DistinctSub(less, m, x);
      forall y | y in m - multiset{x} ensures !Equal(less, y, e) {
        if Equal(less, y, e) { LawfulTrans(hash, less, y, e, x); }
      }
    }

    /** hash_delete: removes and returns an equal element, if there is one. */
    method Delete(e: E, mem: bool) returns (r: Option<E>)
      requires Valid()
      modifies this, buckets
      ensures Valid() && (buckets == old(buckets) || fresh(buckets))
      ensures r.Some? ==> r.value in old(View()) && Equal(less, r.value, e) && View() == old(View()) - multiset{r.value}
      ensures r.None? ==> (forall x :: x in old(View()) ==> !Equal(less, x, e)) && View() == old(View())
    {
      hide Lawful, Elements, Distinct, Placed, IsPowerOf2;
      LawfulHash(hash, less, e, e);
      var i := BucketOf(hash, e, bucketCnt);
      var k := FindElem(i, e);
      if k < |buckets[i]| {
        r := Some(buckets[i][k]);
        ElementsIn(buckets[..], i, buckets[i][k]);
        DistinctSub(less, View(), r.value);
        CountAfter(View(), r.value);
        RemoveElem(i, k);
        Rehash(mem);
      } else {
        r := None;
        NoneEqual(i, e);
      }
    }
  }

  // ---- Iteration --------------------------------------------------------------------------------------------------

  /** The buckets one after the other. */
  function InOrder<E>(b: seq<seq<E>>): (s: seq<E>) {
    if b == [] then [] else b[0] + InOrder(b[1..])
  }

  lemma {:induction false} InOrderElements<E>(b: seq<seq<E>>)
    ensures multiset(InOrder(b)) == Elements(b)
  {
    if b != [] { InOrderElements(b[1..]); }
  }

  lemma InOrderFrom<E>(b: seq<seq<E>>, i: nat)
    requires i < |b|
    ensures InOrder(b[i..]) == b[i] + InOrder(b[i + 1..])
  {
    assert b[i..][1..] == b[i + 1..];
  }

  lemma InOrderNone<E>(b: seq<seq<E>>)
    ensures InOrder(b[|b|..]) == []
  {
  }

  /** hash_iterator: a bucket, and a position in it that starts before the first element. */
  class HashIterator<E(==,!new)> {
    const table: HashTable<E>
    var bucket: nat
    var pos: int

    predicate Valid()
      reads this, table, table.buckets
    {
      && table.bucketCnt == table.buckets.Length
      && bucket < table.bucketCnt && -1 <= pos < |table.buckets[bucket]|
    }

    predicate Finished()
      reads this, table
    {
      bucket == table.bucketCnt
    }

    /** The elements still to come. */
    ghost function Left(): (s: seq<E>)
      requires Valid()
      reads this, table, table.buckets
    {
      table.buckets[bucket][pos + 1..] + InOrder(table.buckets[bucket + 1..])
    }

    /** hash_first. */
    constructor (table: HashTable<E>)
      requires table.bucketCnt == table.buckets.Length > 0
      ensures this.table == table && Valid() && !Finished() && Left() == InOrder(table.buckets[..])
    {
      this.table := table;
      bucket, pos := 0, -1;
      new;
      InOrderFrom(table.buckets[..], 0);
      assert table.buckets[..][0..] == table.buckets[..] && table.buckets[..][1..] == table.buckets[1..];
      assert table.buckets[0][0..] == table.buckets[0];
    }

    /** hash_next: the next of the elements left, or null when none is left. */
    method Next() returns (r: Option<E>)
      requires Valid()
      modifies this
      ensures r.None? <==> old(Left()) == []
      ensures r.None? ==> Finished()
      ensures r.Some? ==> Valid() && r.value == old(Left())[0] && Left() == old(Left())[1..]
    {
      hide InOrder;
      ghost var left, b := Left(), table.buckets[..];
      pos := pos + 1;
      assert left == b[bucket][pos..] + InOrder(b[bucket + 1..]);
      while pos == |table.buckets[bucket]|
        invariant bucket < table.bucketCnt && 0 <= pos <= |table.buckets[bucket]|
        invariant left == b[bucket][pos..] + InOrder(b[bucket + 1..])
        decreases table.bucketCnt - bucket
      {
        bucket := bucket + 1;
        if bucket >= table.bucketCnt {
          InOrderNone(b);
          return None;
        }
        InOrderFrom(b, bucket);
        assert b[bucket][0..] == b[bucket];
        pos := 0;
      }
      r := Some(table.buckets[bucket][pos]);
      assert b[bucket + 1..] == table.buckets[bucket + 1..];
    }
  }

  /** The iteration idiom: first, then next until null. */
  method Iterate<E(==,!new)>(table: HashTable<E>) returns (visited: seq<E>)
    requires table.bucketCnt == table.buckets.Length > 0
    ensures visited == InOrder(table.buckets[..])
  {
    hide InOrder, HashIterator.Left;
    var it := new HashIterator(table);
    visited := [];
    ghost var all := InOrder(table.buckets[..]);
    var r := it.Next();
    while r.Some?
      invariant |visited| <= |all| && visited == all[..|visited|]
      invariant r.Some? ==>
                  it.Valid() && |visited| < |all| && r.value == all[|visited|]
                  && it.Left() == all[|visited| + 1..]
      invariant r.None? ==> |visited| == |all|
      decreases |all| - |visited|
    {
      visited := visited + [r.value];
      r := it.Next();
    }
    assert visited == all;
  }

  /** Iteration visits every element of the table once, and no two equal ones. */
  method Visit<E(==,!new)>(table: HashTable<E>) returns (visited: seq<E>)
    requires table.Valid()
    ensures multiset(visited) == table.View()
    ensures forall i, j :: 0 <= i < j < |visited| ==> !Equal(table.less, visited[i], visited[j])
  {
    hide Lawful, Elements, Distinct, Placed, IsPowerOf2, InOrder, Equal;
    visited := Iterate(table);
    InOrderElements(table.buckets[..]);
    OnceEach(table.less, visited);
  }

  lemma OnceEach<E(!new)>(less: (E, E) -> bool, s: seq<E>)
    requires Distinct(less, multiset(s))
    ensures forall i, j :: 0 <= i < j < |s| ==> !Equal(less, s[i], s[j])
  {
    forall i, j | 0 <= i < j < |s| ensures !Equal(less, s[i], s[j]) {
      assert s == s[..i] + [s[i]] + s[i + 1..j] + [s[j]] + s[j + 1..];
      assert s[i] in multiset(s) && s[j] in multiset(s);
    }
  }
}
