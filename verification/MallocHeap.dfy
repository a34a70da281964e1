/** Size-class arenas on top of the page allocator (threads/malloc.c). */
module MallocHeap {
  import opened Basics
  import opened Palloc

  const ARENA: nat := 12         // sizeof (struct arena) with 32-bit pointers
  const DESCS: nat := 7          // malloc_init makes descriptors for 16, 32, ..., 1024 bytes

  type Desc = d: nat | d < 7

  function BlockSize(d: Desc): (n: nat)
    ensures n >= 16
  {
    [16, 32, 64, 128, 256, 512, 1024][d]
  }

  /** As many blocks as fit behind the header. */
  function BlocksPerArena(d: Desc): (n: nat)
    ensures ARENA + n * BlockSize(d) <= PGSIZE < ARENA + n * BlockSize(d) + BlockSize(d)
  {
    (PGSIZE - ARENA) / BlockSize(d)
  }

  /** An arena header, found at the start of a page: of a page cut into blocks, or of a big block. */
  datatype Arena = Small(d: Desc, freeCnt: nat) | Big(pages: nat)

  /** Arena headers by address, the free list of every descriptor, and the blocks handed out. */
  datatype Heap = Heap(arenas: map<nat, Arena>, free: map<Desc, seq<nat>>, live: set<nat>)

  function FreeList(h: Heap, d: Desc): (s: seq<nat>) {
    if d in h.free then h.free[d] else []
  }

  /** arena_to_block. */
  function Block(a: nat, d: Desc, i: nat): (b: nat) {
    a + ARENA + i * BlockSize(d)
  }

  /** pg_round_down, the start of block_to_arena. */
  function ArenaOf(b: nat): (a: nat) {
    b - b % PGSIZE
  }

  function PageCount(x: Arena): (n: nat) {
    if x.Small? then 1 else x.pages
  }

  /** Bytes from the start of a block to the end of what it may use. */
  function Capacity(h: Heap, b: nat): (n: int)
    requires ArenaOf(b) in h.arenas
  {
    match h.arenas[ArenaOf(b)]
    case Small(d, _) => BlockSize(d)
    case Big(pages) => PGSIZE * pages - b % PGSIZE
  }

  // ---- Blocks inside a page -----------------------------------------------------------------------------

  lemma BlocksFit(d: Desc, i: nat)
    requires i < BlocksPerArena(d)
    ensures ARENA + i * BlockSize(d) + BlockSize(d) <= PGSIZE
    ensures BlocksPerArena(d) >= 1
  {
    var n, s := BlocksPerArena(d), BlockSize(d);
    assert n * s <= PGSIZE - ARENA;
    assert (i + 1) * s <= n * s;
    assert (i + 1) * s == i * s + s;
  }

  lemma BlockInPage(a: nat, d: Desc, i: nat)
    requires a % PGSIZE == 0 && i < BlocksPerArena(d)
    ensures ArenaOf(Block(a, d, i)) == a
    ensures a + ARENA <= Block(a, d, i) && Block(a, d, i) + BlockSize(d) <= a + PGSIZE
  {
    BlocksFit(d, i);
    var o := ARENA + i * BlockSize(d);
    assert o >= 0;
    assert (a + o) % PGSIZE == o;
  }

  /** Different blocks of an arena do not overlap. */
  lemma BlocksApart(a: nat, d: Desc, i: nat, j: nat)
    requires i < j
    ensures Block(a, d, i) + BlockSize(d) <= Block(a, d, j)
  {
    var s := BlockSize(d);
    assert (i + 1) * s <= j * s;
    assert (i + 1) * s == i * s + s;
  }

  predicate IsBlockOf(a: nat, d: Desc, b: nat) {
    exists i: nat :: i < BlocksPerArena(d) && b == Block(a, d, i)
  }

  lemma BlockIndexUnique(a: nat, d: Desc, i: nat, j: nat)
    ensures Block(a, d, i) == Block(a, d, j) <==> i == j
  {
    if i < j { BlocksApart(a, d, i, j); } else if j < i { BlocksApart(a, d, j, i); }
  }

  /** The indexes of an arena's blocks that are on the free list. */
  ghost function FreeIdx(s: seq<nat>, a: nat, d: Desc): (r: set<nat>)
    ensures forall i: nat :: i in r <==> i < BlocksPerArena(d) && Block(a, d, i) in s
  {
    set i: nat | i < BlocksPerArena(d) && Block(a, d, i) in s
  }

  // ---- The invariant ---------------------------------------------------------------------------------------

  /** A header: of a page whose every block is either listed as free or handed out, with the right count,
      or of a big block that is handed out. */
  ghost predicate ArenaOk(h: Heap, a: nat) {
    a in h.arenas ==>
      && a % PGSIZE == 0 && a > 0
      && match h.arenas[a]
         case Small(d, cnt) =>
           && cnt == |FreeIdx(FreeList(h, d), a, d)| <= BlocksPerArena(d)
           && (forall i: nat :: i < BlocksPerArena(d) ==>
              (Block(a, d, i) in FreeList(h, d) <==> Block(a, d, i) !in h.live))
         case Big(pages) => pages > 0 && a + ARENA in h.live
  }

  /** A free list holds blocks of arenas of its own size, once each. */
  ghost predicate ListOk(h: Heap, d: Desc) {
    && NoDup(FreeList(h, d))
    && (forall b :: b in FreeList(h, d) ==> Owned(h, b, d))
  }

  ghost predicate Owned(h: Heap, b: nat, d: Desc) {
    var a := ArenaOf(b);
    a in h.arenas && h.arenas[a].Small? && h.arenas[a].d == d && IsBlockOf(a, d, b)
  }

  ghost predicate LiveOk(h: Heap, b: nat) {
    b in h.live ==>
      && ArenaOf(b) in h.arenas
      && match h.arenas[ArenaOf(b)]
         case Small(d, _) => IsBlockOf(ArenaOf(b), d, b)
         case Big(_) => b == ArenaOf(b) + ARENA
  }

  ghost function PagesOf(h: Heap, a: nat): (s: set<nat>)
    requires a in h.arenas
  {
    GroupOf(a / PGSIZE, PageCount(h.arenas[a]))
  }

  ghost predicate ArenasApart(h: Heap) {
    forall a, c :: a in h.arenas && c in h.arenas && a != c ==> PagesOf(h, a) !! PagesOf(h, c)
  }

  ghost predicate HeapInv(h: Heap) {
    && (forall a :: ArenaOk(h, a))
    && (forall d: Desc :: ListOk(h, d))
    && (forall b :: LiveOk(h, b))
    && ArenasApart(h)
  }

  /** No arena is entirely free: its page would have been given back. */
  ghost predicate Tight(h: Heap) {
    forall a :: a in h.arenas && h.arenas[a].Small? ==> h.arenas[a].freeCnt < BlocksPerArena(h.arenas[a].d)
  }

  /** The heap's pages are used pages of the page allocator. */
  ghost predicate Held(h: Heap, used: set<nat>) {
    forall a :: a in h.arenas ==> PagesOf(h, a) <= used
  }

  // ---- Taking the first free block ----------------------------------------------------------------------------

  function TakeFirst(h: Heap, d: Desc): (r: Heap)
    requires FreeList(h, d) != [] && ArenaOf(FreeList(h, d)[0]) in h.arenas
             && h.arenas[ArenaOf(FreeList(h, d)[0])].Small?
    requires h.arenas[ArenaOf(FreeList(h, d)[0])].freeCnt > 0
  {
    var b := FreeList(h, d)[0];
    var a := ArenaOf(b);
    Heap(h.arenas[a := h.arenas[a].(freeCnt := h.arenas[a].freeCnt - 1)],
         h.free[d := FreeList(h, d)[1..]],
         h.live + {b})
  }

  lemma FreeIdxRemove(s: seq<nat>, t: seq<nat>, a: nat, d: Desc, b: nat)
    requires forall x :: x in t <==> x in s && x != b
    ensures (forall i: nat :: i < BlocksPerArena(d) ==> Block(a, d, i) != b) ==> FreeIdx(t, a, d) == FreeIdx(s, a, d)
    ensures forall k: nat :: k < BlocksPerArena(d) && Block(a, d, k) == b && b in s ==>
              FreeIdx(t, a, d) == FreeIdx(s, a, d) - {k} && k in FreeIdx(s, a, d)
  {
    forall k: nat | k < BlocksPerArena(d) && Block(a, d, k) == b && b in s
      ensures FreeIdx(t, a, d) == FreeIdx(s, a, d) - {k} && k in FreeIdx(s, a, d)
    {
      forall i: nat ensures Block(a, d, i) == Block(a, d, k) <==> i == k { BlockIndexUnique(a, d, i, k); }
    }
  }

  /** The two heaps differ, for arena `c`, at most in what they say about blocks of other arenas. */
  ghost predicate SameButBlock(h: Heap, r: Heap, x: nat) {
    && (forall d: Desc, b :: b != x ==> (b in FreeList(h, d) <==> b in FreeList(r, d)))
    && (forall b :: b != x ==> (b in h.live <==> b in r.live))
  }

  /** The two heaps agree about all blocks outside page `a`. */
  ghost predicate SameOutside(h: Heap, r: Heap, a: nat) {
    && (forall d: Desc, b :: ArenaOf(b) != a ==> (b in FreeList(h, d) <==> b in FreeList(r, d)))
    && (forall b :: ArenaOf(b) != a ==> (b in h.live <==> b in r.live))
  }

  lemma SameButOutside(h: Heap, r: Heap, x: nat)
    requires SameButBlock(h, r, x)
    ensures SameOutside(h, r, ArenaOf(x))
  {
  }

  lemma OtherArena(h: Heap, r: Heap, a: nat, c: nat)
    requires SameOutside(h, r, a) && a != c && ArenaOk(h, c)
    requires c in r.arenas <==> c in h.arenas
    requires c in h.arenas ==> r.arenas[c] == h.arenas[c]
    ensures ArenaOk(r, c)
  {
    if c in h.arenas {
      if h.arenas[c].Small? {
        var d := h.arenas[c].d;
        forall i: nat | i < BlocksPerArena(d) ensures ArenaOf(Block(c, d, i)) == c { BlockInPage(c, d, i); }
        assert FreeIdx(FreeList(r, d), c, d) == FreeIdx(FreeList(h, d), c, d);
      } else {
        assert ArenaOf(c + ARENA) == c;
      }
    }
  }

  lemma FirstOwned(h: Heap, d: Desc)
    requires HeapInv(h) && FreeList(h, d) != []
    ensures var b := FreeList(h, d)[0]; Owned(h, b, d) && h.arenas[ArenaOf(b)].freeCnt > 0 && b !in h.live
  {
    var b := FreeList(h, d)[0];
    assert b in FreeList(h, d) && ListOk(h, d) && ArenaOk(h, ArenaOf(b));
    var i: nat :| i < BlocksPerArena(d) && b == Block(ArenaOf(b), d, i);
    assert i in FreeIdx(FreeList(h, d), ArenaOf(b), d);
  }

  lemma TakeSame(h: Heap, d: Desc)
    requires HeapInv(h) && FreeList(h, d) != []
    ensures FirstOk(h, d) && SameButBlock(h, TakeFirst(h, d), FreeList(h, d)[0])
  {
    FirstOwned(h, d);
    assert ListOk(h, d);
    TailOfNoDup(FreeList(h, d));
  }

  ghost predicate FirstOk(h: Heap, d: Desc) {
    FreeList(h, d) != [] && Owned(h, FreeList(h, d)[0], d) && h.arenas[ArenaOf(FreeList(h, d)[0])].freeCnt > 0
  }

  lemma TakeOwnArena(h: Heap, d: Desc)
    requires HeapInv(h) && FreeList(h, d) != []
    ensures FirstOk(h, d) && ArenaOk(TakeFirst(h, d), ArenaOf(FreeList(h, d)[0]))
  {
    var b := FreeList(h, d)[0];
    var a := ArenaOf(b);
    FirstOwned(h, d);
    assert ArenaOk(h, a) && ListOk(h, d);
    var k: nat :| k < BlocksPerArena(d) && b == Block(a, d, k);
    TailOfNoDup(FreeList(h, d));
    FreeIdxRemove(FreeList(h, d), FreeList(h, d)[1..], a, d, b);
    OwnArenaAfter(h, TakeFirst(h, d), a, d, k, b);
  }

  /** One block of arena `a` changed sides and the count followed. */
  lemma OwnArenaAfter(h: Heap, r: Heap, a: nat, d: Desc, k: nat, b: nat)
    requires ArenaOk(h, a) && a in h.arenas && h.arenas[a].Small? && h.arenas[a].d == d
    requires SameButBlock(h, r, b) && b == Block(a, d, k) && k < BlocksPerArena(d)
    requires a in r.arenas && r.arenas[a].Small? && r.arenas[a].d == d
             && r.arenas[a].freeCnt == |FreeIdx(FreeList(r, d), a, d)| <= BlocksPerArena(d)
    requires b in FreeList(r, d) <==> b !in r.live
    ensures ArenaOk(r, a)
  {
    forall i: nat | i < BlocksPerArena(d) ensures Block(a, d, i) in FreeList(r, d) <==> Block(a, d, i) !in r.live {
    }
  }

  lemma TakeLists(h: Heap, d: Desc, e: Desc)
    requires HeapInv(h) && FreeList(h, d) != []
    ensures FirstOk(h, d) && ListOk(TakeFirst(h, d), e)
  {
    FirstOwned(h, d);
    var r := TakeFirst(h, d);
    assert ListOk(h, e) && ListOk(h, d);
    TailOfNoDup(FreeList(h, d));
    forall b | b in FreeList(r, e) ensures Owned(r, b, e) { assert Owned(h, b, e); }
  }

  lemma TakeLive(h: Heap, d: Desc, b: nat)
    requires HeapInv(h) && FreeList(h, d) != []
    ensures FirstOk(h, d) && LiveOk(TakeFirst(h, d), b)
  {
    FirstOwned(h, d);
    assert LiveOk(h, b);
  }

  /** The page groups are those of before. */
  lemma SamePages(h: Heap, r: Heap)
    requires r.arenas.Keys == h.arenas.Keys
             && forall a :: a in h.arenas ==> PageCount(r.arenas[a]) == PageCount(h.arenas[a])
    ensures forall a :: a in h.arenas ==> PagesOf(r, a) == PagesOf(h, a)
    ensures ArenasApart(h) ==> ArenasApart(r)
  {
  }

  lemma TakeFirstInv(h: Heap, d: Desc)
    requires HeapInv(h) && FreeList(h, d) != []
    ensures FirstOk(h, d) && HeapInv(TakeFirst(h, d))
    ensures forall a :: a in h.arenas ==> a in TakeFirst(h, d).arenas && PagesOf(TakeFirst(h, d), a) == PagesOf(h, a)
  {
    hide ArenaOk, ListOk, LiveOk, SameButBlock, SameOutside, ArenasApart;
    FirstOwned(h, d);
    var r, x := TakeFirst(h, d), FreeList(h, d)[0];
    TakeSame(h, d);
    SameButOutside(h, r, x);
    forall a ensures ArenaOk(r, a) {
      if a == ArenaOf(x) { TakeOwnArena(h, d); } else { assert ArenaOk(h, a); OtherArena(h, r, ArenaOf(x), a); }
    }
    forall e: Desc ensures ListOk(r, e) { TakeLists(h, d, e); }
    forall b ensures LiveOk(r, b) { TakeLive(h, d, b); }
    SamePages(h, r);
  }

  // ---- A new arena ---------------------------------------------------------------------------------------------

  function AllBlocks(a: nat, d: Desc): (s: seq<nat>) {
    seq(BlocksPerArena(d), i requires 0 <= i < BlocksPerArena(d) => Block(a, d, i))
  }

  function Refill(h: Heap, d: Desc, a: nat): (r: Heap) {
    Heap(h.arenas[a := Small(d, BlocksPerArena(d))], h.free[d := FreeList(h, d) + AllBlocks(a, d)], h.live)
  }

  /** Pages that no arena uses. */
  ghost predicate FreshPages(h: Heap, a: nat, n: nat) {
    a % PGSIZE == 0 && a > 0 && n > 0 && forall c :: c in h.arenas ==> PagesOf(h, c) !! GroupOf(a / PGSIZE, n)
  }

  lemma NotFresh(h: Heap, a: nat, n: nat)
    requires a in h.arenas && ArenaOk(h, a) && n > 0
    ensures !(PagesOf(h, a) !! GroupOf(a / PGSIZE, n))
  {
    GroupEnds(a / PGSIZE, n);
    GroupEnds(a / PGSIZE, PageCount(h.arenas[a]));
  }

  lemma FreshIsNew(h: Heap, a: nat, n: nat)
    requires HeapInv(h) && FreshPages(h, a, n)
    ensures a !in h.arenas
    ensures forall b :: ArenaOf(b) == a ==> b !in h.live && forall d: Desc :: b !in FreeList(h, d)
  {
    assert ArenaOk(h, a);
    if a in h.arenas { NotFresh(h, a, n); }
    forall b | ArenaOf(b) == a ensures b !in h.live && forall d: Desc :: b !in FreeList(h, d) {
      assert LiveOk(h, b);
      forall d: Desc ensures b !in FreeList(h, d) {
        assert ListOk(h, d); assert b in FreeList(h, d) ==> Owned(h, b, d);
      }
    }
  }

  lemma AllBlocksFacts(a: nat, d: Desc)
    requires a % PGSIZE == 0
    ensures NoDup(AllBlocks(a, d))
    ensures forall b :: b in AllBlocks(a, d) <==> IsBlockOf(a, d, b)
    ensures forall b :: IsBlockOf(a, d, b) ==> ArenaOf(b) == a
  {
    var s := AllBlocks(a, d);
    forall i, j | 0 <= i < j < |s| ensures s[i] != s[j] { BlockIndexUnique(a, d, i, j); }
    forall b | IsBlockOf(a, d, b) ensures b in s && ArenaOf(b) == a {
      var i: nat :| i < BlocksPerArena(d) && b == Block(a, d, i);
      assert s[i] == b;
      BlockInPage(a, d, i);
    }
  }

  lemma {:induction false} IndexesCard(n: nat)
    ensures |GroupOf(0, n)| == n
  {
    if n > 0 {
      IndexesCard(n - 1);
      assert GroupOf(0, n) == GroupOf(0, n - 1) + {n - 1};
    } else {
      assert GroupOf(0, n) == {};
    }
  }

  lemma ConcatNoDup(s: seq<nat>, t: seq<nat>)
    requires NoDup(s) && NoDup(t) && forall x :: x in t ==> x !in s
    ensures NoDup(s + t)
  {
    var u := s + t;
    forall i, j | 0 <= i < j < |u| ensures u[i] != u[j] {
      if j >= |s| { assert u[j] == t[j - |s|] && u[j] in t; }
    }
  }

  /** The free list after a refill, for the arena and for the others. */
  lemma RefillArena(h: Heap, d: Desc, a: nat)
    requires HeapInv(h) && FreshPages(h, a, 1)
    ensures ArenaOk(Refill(h, d, a), a) && SameOutside(h, Refill(h, d, a), a)
  {
    var r := Refill(h, d, a);
    FreshIsNew(h, a, 1);
    AllBlocksFacts(a, d);
    forall i: nat | i < BlocksPerArena(d) ensures Block(a, d, i) in FreeList(r, d) && Block(a, d, i) !in r.live {
      assert IsBlockOf(a, d, Block(a, d, i));
    }
    assert FreeIdx(FreeList(r, d), a, d) == GroupOf(0, BlocksPerArena(d));
    IndexesCard(BlocksPerArena(d));
  }

  lemma RefillLists(h: Heap, d: Desc, a: nat, e: Desc)
    requires HeapInv(h) && FreshPages(h, a, 1)
    ensures ListOk(Refill(h, d, a), e)
  {
    var r := Refill(h, d, a);
    FreshIsNew(h, a, 1);
    AllBlocksFacts(a, d);
    assert ListOk(h, e) && ListOk(h, d);
    ConcatNoDup(FreeList(h, d), AllBlocks(a, d));
    forall b | b in FreeList(r, e) ensures Owned(r, b, e) {
      if b in FreeList(h, e) { assert Owned(h, b, e); }
    }
  }

  lemma FreshApart(h: Heap, r: Heap, a: nat, x: Arena)
    requires ArenasApart(h) && FreshPages(h, a, PageCount(x)) && a !in h.arenas && r.arenas == h.arenas[a := x]
    ensures ArenasApart(r)
    ensures forall c :: c in h.arenas ==> PagesOf(r, c) == PagesOf(h, c)
  {
  }

  lemma RefillInv(h: Heap, d: Desc, a: nat)
    requires HeapInv(h) && FreshPages(h, a, 1)
    ensures HeapInv(Refill(h, d, a)) && FreeList(Refill(h, d, a), d) != []
    ensures forall c :: c in h.arenas ==> PagesOf(Refill(h, d, a), c) == PagesOf(h, c)
  {
    hide ArenaOk, ListOk, SameOutside, ArenasApart, FreshPages;
    var r := Refill(h, d, a);
    RefillArena(h, d, a);
    FreshIsNew(h, a, 1);
    BlocksFit(d, 0) by { assert BlocksPerArena(d) > 0; }
    forall c ensures ArenaOk(r, c) { if c != a { assert ArenaOk(h, c); OtherArena(h, r, a, c); } }
    forall e: Desc ensures ListOk(r, e) { RefillLists(h, d, a, e); }
    forall b ensures LiveOk(r, b) { assert LiveOk(h, b); }
    FreshApart(h, r, a, Small(d, BlocksPerArena(d)));
  }

  // ---- Big blocks -----------------------------------------------------------------------------------------------

  function AddBig(h: Heap, a: nat, n: nat): (r: Heap) {
    h.(arenas := h.arenas[a := Big(n)], live := h.live + {a + ARENA})
  }

  lemma AddBigInv(h: Heap, a: nat, n: nat)
    requires HeapInv(h) && FreshPages(h, a, n)
    ensures HeapInv(AddBig(h, a, n))
    ensures forall c :: c in h.arenas ==> PagesOf(AddBig(h, a, n), c) == PagesOf(h, c)
  {
    hide ListOk, ArenasApart;
    var r := AddBig(h, a, n);
    FreshIsNew(h, a, n);
    assert ArenaOf(a + ARENA) == a;
    assert SameOutside(h, r, a);
    forall c ensures ArenaOk(r, c) { if c != a { assert ArenaOk(h, c); OtherArena(h, r, a, c); } }
    forall e: Desc ensures ListOk(r, e) { OtherLists(h, r, a, e); }
    forall b ensures LiveOk(r, b) { assert LiveOk(h, b); }
    FreshApart(h, r, a, Big(n));
  }

  /** A list with no block of arena `a` does not mind what becomes of that arena. */
  lemma OtherLists(h: Heap, r: Heap, a: nat, e: Desc)
    requires ListOk(h, e) && FreeList(r, e) == FreeList(h, e)
    requires forall b :: b in FreeList(h, e) ==> ArenaOf(b) != a
    requires forall c :: c != a && c in h.arenas ==> c in r.arenas && r.arenas[c] == h.arenas[c]
    ensures ListOk(r, e)
  {
    forall b | b in FreeList(r, e) ensures Owned(r, b, e) { assert Owned(h, b, e); }
  }

  // ---- Giving a block back ------------------------------------------------------------------------------------

  function PutFirst(h: Heap, b: nat): (r: Heap)
    requires ArenaOf(b) in h.arenas && h.arenas[ArenaOf(b)].Small?
  {
    var a := ArenaOf(b);
    var x := h.arenas[a];
    Heap(h.arenas[a := x.(freeCnt := x.freeCnt + 1)], h.free[x.d := [b] + FreeList(h, x.d)], h.live - {b})
  }

  ghost predicate LiveSmall(h: Heap, b: nat) {
    b in h.live && ArenaOf(b) in h.arenas && h.arenas[ArenaOf(b)].Small?
  }

  /** A live block is on no list. */
  lemma LiveNotListed(h: Heap, b: nat, d: Desc)
    requires HeapInv(h) && b in h.live
    ensures b !in FreeList(h, d)
  {
    assert ListOk(h, d) && ArenaOk(h, ArenaOf(b));
    assert b in FreeList(h, d) ==> Owned(h, b, d);
  }

  lemma PutSame(h: Heap, b: nat)
    requires LiveSmall(h, b)
    ensures SameButBlock(h, PutFirst(h, b), b)
  {
  }

  lemma LiveIndex(h: Heap, b: nat) returns (k: nat)
    requires HeapInv(h) && LiveSmall(h, b)
    ensures var d := h.arenas[ArenaOf(b)].d; k < BlocksPerArena(d) && b == Block(ArenaOf(b), d, k)
    ensures ArenaOk(h, ArenaOf(b))
  {
    assert LiveOk(h, b) && ArenaOk(h, ArenaOf(b));
    k :| k < BlocksPerArena(h.arenas[ArenaOf(b)].d) && b == Block(ArenaOf(b), h.arenas[ArenaOf(b)].d, k);
  }

  lemma PutOwnArena(h: Heap, b: nat)
    requires HeapInv(h) && LiveSmall(h, b)
    ensures ArenaOk(PutFirst(h, b), ArenaOf(b)) && SameButBlock(h, PutFirst(h, b), b)
  {
    hide HeapInv, SameButBlock, Block;
    var a := ArenaOf(b);
    var d := h.arenas[a].d;
    var r := PutFirst(h, b);
    LiveNotListed(h, b, d);
    var k := LiveIndex(h, b);
    PutSame(h, b);
    FreeIdxRemove(FreeList(r, d), FreeList(h, d), a, d, b);
    AtMostAll(FreeList(r, d), a, d);
    OwnArenaAfter(h, r, a, d, k, b);
  }

  lemma AtMostAll(s: seq<nat>, a: nat, d: Desc)
    ensures |FreeIdx(s, a, d)| <= BlocksPerArena(d)
    ensures |FreeIdx(s, a, d)| == BlocksPerArena(d) ==> forall i: nat :: i < BlocksPerArena(d) ==> Block(a, d, i) in s
  {
    var f, g := FreeIdx(s, a, d), GroupOf(0, BlocksPerArena(d));
    IndexesCard(BlocksPerArena(d));
    assert f <= g;
    assert g == f + (g - f);
    if |f| == |g| { assert g - f == {}; }
  }

  lemma PutLists(h: Heap, b: nat, e: Desc)
    requires HeapInv(h) && LiveSmall(h, b)
    ensures ListOk(PutFirst(h, b), e)
  {
    var d, r := h.arenas[ArenaOf(b)].d, PutFirst(h, b);
    LiveNotListed(h, b, d);
    assert ListOk(h, e) && LiveOk(h, b);
    ConcatNoDup([b], FreeList(h, e)) by { LiveNotListed(h, b, e); }
    forall c | c in FreeList(r, e) ensures Owned(r, c, e) { assert c != b ==> Owned(h, c, e); }
  }

  lemma PutFirstInv(h: Heap, b: nat)
    requires HeapInv(h) && LiveSmall(h, b)
    ensures HeapInv(PutFirst(h, b))
    ensures forall a :: a in h.arenas ==> a in PutFirst(h, b).arenas && PagesOf(PutFirst(h, b), a) == PagesOf(h, a)
  {
    hide ArenaOk, ListOk, SameButBlock, SameOutside, ArenasApart;
    var r := PutFirst(h, b);
    PutOwnArena(h, b);
    SameButOutside(h, r, b);
    forall a ensures ArenaOk(r, a) { if a != ArenaOf(b) { assert ArenaOk(h, a); OtherArena(h, r, ArenaOf(b), a); } }
    forall e: Desc ensures ListOk(r, e) { PutLists(h, b, e); }
    forall c ensures LiveOk(r, c) { assert LiveOk(h, c); }
    SamePages(h, r);
  }

  // ---- Giving an arena back -------------------------------------------------------------------------------------

  /** The list without the blocks of page `a`. */
  function Without(s: seq<nat>, a: nat): (r: seq<nat>) {
    if s == [] then [] else (if ArenaOf(s[0]) == a then [] else [s[0]]) + Without(s[1..], a)
  }

  lemma {:induction false} WithoutFacts(s: seq<nat>, a: nat)
    requires NoDup(s)
    ensures NoDup(Without(s, a)) && forall b :: b in Without(s, a) <==> b in s && ArenaOf(b) != a
  {
    if s != [] {
      TailOfNoDup(s);
      WithoutFacts(s[1..], a);
      ConcatNoDup(if ArenaOf(s[0]) == a then [] else [s[0]], Without(s[1..], a));
    }
  }

  function DropArena(h: Heap, a: nat): (r: Heap)
    requires a in h.arenas && h.arenas[a].Small?
  {
    var d := h.arenas[a].d;
    h.(arenas := h.arenas - {a}, free := h.free[d := Without(FreeList(h, d), a)])
  }

  /** An arena all of whose blocks are free has none handed out, and only its own list knows its blocks. */
  lemma AllFree(h: Heap, a: nat, b: nat, e: Desc)
    requires HeapInv(h) && a in h.arenas && h.arenas[a].Small? && h.arenas[a].freeCnt == BlocksPerArena(h.arenas[a].d)
    requires ArenaOf(b) == a
    ensures b !in h.live
    ensures b in FreeList(h, e) ==> e == h.arenas[a].d
  {
    var d := h.arenas[a].d;
    assert ArenaOk(h, a) && LiveOk(h, b) && ListOk(h, e);
    AtMostAll(FreeList(h, d), a, d);
    assert b in FreeList(h, e) ==> Owned(h, b, e);
  }

  lemma DropArenaInv(h: Heap, a: nat)
    requires HeapInv(h) && a in h.arenas && h.arenas[a].Small? && h.arenas[a].freeCnt == BlocksPerArena(h.arenas[a].d)
    ensures HeapInv(DropArena(h, a))
    ensures forall d: Desc, b :: b in FreeList(DropArena(h, a), d) ==> ArenaOf(b) != a
    ensures forall c :: c in h.arenas && c != a ==>
              c in DropArena(h, a).arenas
              && PagesOf(DropArena(h, a), c) == PagesOf(h, c)
  {
    hide ArenaOk, ArenasApart;
    var r, d := DropArena(h, a), h.arenas[a].d;
    assert ListOk(h, d);
    WithoutFacts(FreeList(h, d), a);
    forall b | ArenaOf(b) == a ensures b !in h.live { AllFree(h, a, b, d); }
    forall b, e: Desc | b in FreeList(h, e) && ArenaOf(b) == a ensures e == d { AllFree(h, a, b, e); }
    assert SameOutside(h, r, a);
    forall c ensures ArenaOk(r, c) { GoneOrOther(h, r, a, c); }
    forall e: Desc ensures ListOk(r, e) { DropLists(h, a, e); }
    forall b ensures LiveOk(r, b) { assert LiveOk(h, b); }
    FewerApart(h, r, a);
    forall e: Desc, b | b in FreeList(r, e) ensures ArenaOf(b) != a { NotListed(h, a, e, b); }
  }

  lemma NotListed(h: Heap, a: nat, e: Desc, b: nat)
    requires a in h.arenas && h.arenas[a].Small? && NoDup(FreeList(h, h.arenas[a].d))
             && b in FreeList(DropArena(h, a), e)
    requires e != h.arenas[a].d ==> b in FreeList(h, e) ==> ArenaOf(b) != a
    ensures ArenaOf(b) != a
  {
    WithoutFacts(FreeList(h, h.arenas[a].d), a);
  }

  lemma GoneOrOther(h: Heap, r: Heap, a: nat, c: nat)
    requires HeapInv(h) && SameOutside(h, r, a) && r.arenas == h.arenas - {a}
    ensures ArenaOk(r, c)
  {
    assert ArenaOk(h, c);
    if c != a { OtherArena(h, r, a, c); }
  }

  lemma DropLists(h: Heap, a: nat, e: Desc)
    requires HeapInv(h) && a in h.arenas && h.arenas[a].Small?
    requires forall b :: ArenaOf(b) == a && b in FreeList(h, e) ==> e == h.arenas[a].d
    ensures ListOk(DropArena(h, a), e)
  {
    var r := DropArena(h, a);
    assert ListOk(h, e);
    WithoutFacts(FreeList(h, e), a);
    forall b | b in FreeList(r, e) ensures Owned(r, b, e) { assert Owned(h, b, e); }
  }

  lemma FewerApart(h: Heap, r: Heap, a: nat)
    requires ArenasApart(h) && r.arenas == h.arenas - {a}
    ensures ArenasApart(r)
    ensures forall c :: c in r.arenas ==> PagesOf(r, c) == PagesOf(h, c)
  {
  }

  function DropBig(h: Heap, a: nat): (r: Heap) {
    h.(arenas := h.arenas - {a}, live := h.live - {a + ARENA})
  }

  lemma DropBigInv(h: Heap, a: nat)
    requires HeapInv(h) && a in h.arenas && h.arenas[a].Big?
    ensures HeapInv(DropBig(h, a))
    ensures forall c :: c in h.arenas && c != a ==>
              c in DropBig(h, a).arenas
              && PagesOf(DropBig(h, a), c) == PagesOf(h, c)
  {
    hide ArenaOk, ArenasApart;
    var r := DropBig(h, a);
    assert a % PGSIZE == 0 by { BigAddress(h, a); }
    assert ArenaOf(a + ARENA) == a;
    assert SameOutside(h, r, a);
    forall c ensures ArenaOk(r, c) { GoneOrOther(h, r, a, c); }
    forall e: Desc ensures ListOk(r, e) {
      assert ListOk(h, e);
      forall b | b in FreeList(h, e) ensures ArenaOf(b) != a { assert Owned(h, b, e); }
      OtherLists(h, r, a, e);
    }
    forall b ensures LiveOk(r, b) { assert LiveOk(h, b); }
    FewerApart(h, r, a);
  }

  lemma BigAddress(h: Heap, a: nat)
    requires HeapInv(h) && a in h.arenas
    ensures a % PGSIZE == 0 && a > 0 && PageCount(h.arenas[a]) > 0
  {
    assert ArenaOk(h, a);
  }
}
