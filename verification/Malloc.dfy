/** malloc and free (threads/malloc.c) over the page allocator, and what they keep over every run. */
module Malloc {
  import opened Basics
  import opened MallocHeap
  import opened Palloc

  // ---- Bytes -------------------------------------------------------------------------------------------------

  /** A stretch of arena memory with one use: a header, a block handed out, or a block on a free list. */
  datatype Piece = Header(a: nat) | InUse(b: nat) | Listed(b: nat, d: Desc) {
    function Start(): (n: nat) {
      match this
      case Header(a) => a
      case InUse(b) => b
      case Listed(b, _) => b
    }
  }

  ghost predicate PieceOf(h: Heap, p: Piece) {
    match p
    case Header(a) => a in h.arenas
    case InUse(b) => b in h.live
    case Listed(b, d) => b in FreeList(h, d)
  }

  ghost function Length(h: Heap, p: Piece): (n: int)
    requires HeapInv(h) && PieceOf(h, p)
  {
    match p
    case Header(_) => ARENA
    case InUse(b) => assert LiveOk(h, b); Capacity(h, b)
    case Listed(_, d) => BlockSize(d)
  }

  ghost predicate Apart(h: Heap, p: Piece, q: Piece)
    requires HeapInv(h) && PieceOf(h, p) && PieceOf(h, q)
  {
    p.Start() + Length(h, p) <= q.Start() || q.Start() + Length(h, q) <= p.Start()
  }

  /** Every piece has a home arena, and lies in its pages. */
  lemma PieceHome(h: Heap, p: Piece) returns (a: nat)
    requires HeapInv(h) && PieceOf(h, p)
    ensures a in h.arenas && a == ArenaOf(p.Start()) && a % PGSIZE == 0 && PageCount(h.arenas[a]) > 0
    ensures Length(h, p) > 0 && a <= p.Start() && p.Start() + Length(h, p) <= a + PGSIZE * PageCount(h.arenas[a])
    ensures !p.Header? ==> a + ARENA <= p.Start()
  {
    hide ListOk, ArenasApart;
    a := ArenaOf(p.Start());
    match p {
      case Header(_) => assert ArenaOk(h, p.a);
      case InUse(b) => assert LiveOk(h, b) && ArenaOk(h, a); LiveHome(h, b);
      case Listed(b, d) => ListedHome(h, b, d);
    }
  }

  lemma LiveHome(h: Heap, b: nat)
    requires b in h.live && LiveOk(h, b) && ArenaOk(h, ArenaOf(b))
    ensures var a := ArenaOf(b);
              Capacity(h, b) > 0 && a + ARENA <= b
              && b + Capacity(h, b) <= a + PGSIZE * PageCount(h.arenas[a])
  {
    var a := ArenaOf(b);
    if h.arenas[a].Small? {
      var d := h.arenas[a].d;
      var i: nat :| i < BlocksPerArena(d) && b == Block(a, d, i);
      BlockInPage(a, d, i);
    }
  }

  lemma ListedHome(h: Heap, b: nat, d: Desc)
    requires HeapInv(h) && b in FreeList(h, d)
    ensures var a := ArenaOf(b);
            a in h.arenas && h.arenas[a].Small? && a % PGSIZE == 0 && a + ARENA <= b && b + BlockSize(d) <= a + PGSIZE
  {
    var a := ArenaOf(b);
    assert ListOk(h, d);
    assert Owned(h, b, d) && ArenaOk(h, a);
    var i: nat :| i < BlocksPerArena(d) && b == Block(a, d, i);
    BlockInPage(a, d, i);
  }

  lemma PagesApart(a: nat, n: nat, c: nat, m: nat)
    requires a % PGSIZE == 0 && c % PGSIZE == 0 && n > 0 && m > 0
    requires GroupOf(a / PGSIZE, n) !! GroupOf(c / PGSIZE, m)
    ensures a + PGSIZE * n <= c || c + PGSIZE * m <= a
  {
    GroupEnds(a / PGSIZE, n);
    GroupEnds(c / PGSIZE, m);
    assert a / PGSIZE !in GroupOf(c / PGSIZE, m) && c / PGSIZE !in GroupOf(a / PGSIZE, n);
  }

  /** Two blocks of one page. */
  lemma BlocksOfPage(h: Heap, p: Piece, q: Piece)
    requires HeapInv(h) && PieceOf(h, p) && PieceOf(h, q) && p != q && !p.Header? && !q.Header?
    requires ArenaOf(p.Start()) == ArenaOf(q.Start())
    ensures Apart(h, p, q)
  {
    hide ListOk, ArenaOk, ArenasApart;
    var a := PieceHome(h, p);
    if h.arenas[a].Small? {
      var d := h.arenas[a].d;
      var i := IndexOf(h, p);
      var j := IndexOf(h, q);
      if i < j { BlocksApart(a, d, i, j); } else if j < i { BlocksApart(a, d, j, i); } else { OneUse(h, p, q); }
    } else {
      BigIsLive(h, p);
      BigIsLive(h, q);
    }
  }

  lemma IndexOf(h: Heap, p: Piece) returns (i: nat)
    requires HeapInv(h) && PieceOf(h, p) && !p.Header?
    requires ArenaOf(p.Start()) in h.arenas && h.arenas[ArenaOf(p.Start())].Small?
    ensures var a := ArenaOf(p.Start()); var d := h.arenas[a].d;
              p.Start() == Block(a, d, i)
              && Length(h, p) == BlockSize(d)
  {
    var a := ArenaOf(p.Start());
    var d := h.arenas[a].d;
    match p {
      case InUse(b) => assert LiveOk(h, b); i :| i < BlocksPerArena(d) && b == Block(a, d, i);
      case Listed(b, e) => assert ListOk(h, e); assert Owned(h, b, e); i :| i < BlocksPerArena(d)
        && b == Block(a, d, i);
    }
  }

  lemma BigIsLive(h: Heap, p: Piece)
    requires HeapInv(h) && PieceOf(h, p) && !p.Header?
    requires ArenaOf(p.Start()) in h.arenas && h.arenas[ArenaOf(p.Start())].Big?
    ensures p == InUse(ArenaOf(p.Start()) + ARENA)
  {
    if p.Listed? { ListedHome(h, p.b, p.d); } else { assert LiveOk(h, p.b); }
  }

  /** A block is not both handed out and listed, nor on two lists. */
  lemma OneUse(h: Heap, p: Piece, q: Piece)
    requires HeapInv(h) && PieceOf(h, p) && PieceOf(h, q) && !p.Header? && !q.Header? && p.Start() == q.Start()
    ensures p == q
  {
    if p.Listed? && q.Listed? {
      assert ListOk(h, p.d) && ListOk(h, q.d);
      assert Owned(h, p.b, p.d) && Owned(h, q.b, q.d);
    } else if p.Listed? {
      LiveNotListed(h, q.b, p.d);
    } else if q.Listed? {
      LiveNotListed(h, p.b, q.d);
    }
  }

  /** Headers, blocks handed out and free blocks never share a byte. */
  lemma PiecesApart(h: Heap, p: Piece, q: Piece)
    requires HeapInv(h) && PieceOf(h, p) && PieceOf(h, q) && p != q
    ensures Apart(h, p, q)
  {
    hide ListOk, ArenaOk, LiveOk, Length, PieceOf;
    var a := PieceHome(h, p);
    var c := PieceHome(h, q);
    if a != c {
      PagesApart(a, PageCount(h.arenas[a]), c, PageCount(h.arenas[c]));
    } else if p.Header? || q.Header? {
      HeaderFirst(h, p, q);
    } else {
      BlocksOfPage(h, p, q);
    }
  }

  lemma HeaderFirst(h: Heap, p: Piece, q: Piece)
    requires HeapInv(h) && PieceOf(h, p) && PieceOf(h, q) && p != q && (p.Header? || q.Header?)
    requires ArenaOf(p.Start()) == ArenaOf(q.Start())
    ensures Apart(h, p, q)
  {
    hide ListOk, LiveOk, ArenasApart;
    var a := PieceHome(h, p);
    var c := PieceHome(h, q);
    if p.Header? { assert ArenaOk(h, p.a); }
    if q.Header? { assert ArenaOk(h, q.a); }
  }

  // ---- The two operations on values -----------------------------------------------------------------------------

  /** Pages for a request of `size` bytes and a header, in 32-bit arithmetic: as few as hold them, unless the sum
      wraps. */
  function PagesFor(size: nat): (n: nat)
    ensures size + ARENA + PGSIZE - 1 < WORD ==> size + ARENA <= PGSIZE * n < size + ARENA + PGSIZE
  {
    (size + ARENA + PGSIZE - 1) % WORD / PGSIZE
  }

  /** The smallest descriptor that can serve `size`; 7 when there is none. */
  predicate IsClass(size: nat, d: nat) {
    d <= DESCS && (d < DESCS ==> BlockSize(d) >= size) && forall e: Desc :: e < d ==> BlockSize(e) < size
  }

  /** malloc from descriptor `d`; page `a` is used when its list is empty. */
  ghost function Serve(h: Heap, d: Desc, a: nat): (r: Heap)
    requires HeapInv(h) && (FreeList(h, d) == [] ==> FreshPages(h, a, 1))
  {
    if FreeList(h, d) == [] then
      RefillInv(h, d, a); FirstOwned(Refill(h, d, a), d); TakeFirst(Refill(h, d, a), d)
    else
      FirstOwned(h, d); TakeFirst(h, d)
  }

  ghost function ServedBlock(h: Heap, d: Desc, a: nat): (b: nat) {
    if FreeList(h, d) == [] then Block(a, d, 0) else FreeList(h, d)[0]
  }

  /** free of a live block. */
  function Release(h: Heap, b: nat): (r: Heap)
    requires ArenaOf(b) in h.arenas
  {
    var a := ArenaOf(b);
    if h.arenas[a].Big? then DropBig(h, a)
    else
      var r := PutFirst(h, b);
      if r.arenas[a].freeCnt >= BlocksPerArena(r.arenas[a].d) then DropArena(r, a) else r
  }

  /** Pages of arenas that stay, stay what they are. */
  ghost predicate Keeps(h: Heap, r: Heap) {
    forall c :: c in h.arenas && c in r.arenas ==>
      match h.arenas[c]
      case Small(d, _) => r.arenas[c].Small? && r.arenas[c].d == d
      case Big(n) => r.arenas[c] == Big(n)
  }

  ghost predicate Good(h: Heap, used: set<nat>) {
    HeapInv(h) && Tight(h) && Held(h, used)
  }

  lemma FreshFromUsed(h: Heap, used: set<nat>, a: nat, n: nat)
    requires Held(h, used) && a % PGSIZE == 0 && a > 0 && n > 0 && GroupOf(a / PGSIZE, n) !! used
    ensures FreshPages(h, a, n)
  {
  }

  lemma ServeFacts(h: Heap, d: Desc, a: nat)
    requires HeapInv(h) && (FreeList(h, d) == [] ==> FreshPages(h, a, 1))
    ensures var r, b := Serve(h, d, a), ServedBlock(h, d, a);
            && r.live == h.live + {b} && b !in h.live && b > 0
            && ArenaOf(b) in r.arenas && r.arenas[ArenaOf(b)].Small? && r.arenas[ArenaOf(b)].d == d
            && (FreeList(h, d) == [] ==> ArenaOf(b) == a) && (ArenaOf(b) in h.arenas <==> FreeList(h, d) != [])
            && r.arenas.Keys == h.arenas.Keys + {ArenaOf(b)}
  {
    hide ArenaOk, ListOk, LiveOk, ArenasApart;
    var s := if FreeList(h, d) == [] then Refill(h, d, a) else h;
    if FreeList(h, d) == [] {
      RefillInv(h, d, a);
      BlockInPage(a, d, 0) by { assert BlocksPerArena(d) > 0; }
      assert AllBlocks(a, d)[0] == Block(a, d, 0);
      if a in h.arenas { NotFresh(h, a, 1) by { assert ArenaOk(h, a); } }
    }
    FirstOwned(s, d);
    BigAddress(s, ArenaOf(FreeList(s, d)[0]));
  }

  lemma ServeInv(h: Heap, used: set<nat>, d: Desc, a: nat)
    requires Good(h, used) && (FreeList(h, d) == [] ==> FreshPages(h, a, 1))
    ensures var r := Serve(h, d, a);
              Keeps(h, r)
              && Good(r, if FreeList(h, d) == [] then used + GroupOf(a / PGSIZE, 1) else used)
  {
    hide HeapInv, ArenasApart, FreshPages;
    var r := Serve(h, d, a);
    ServeFacts(h, d, a);
    if FreeList(h, d) == [] {
      RefillInv(h, d, a);
      FreshIsNew(h, a, 1);
      TakeFirstInv(Refill(h, d, a), d);
      BlockInPage(a, d, 0) by { assert BlocksPerArena(d) > 0; }
      assert AllBlocks(a, d)[0] == Block(a, d, 0);
    } else {
      TakeFirstInv(h, d);
    }
  }

  lemma AddBigGood(h: Heap, used: set<nat>, a: nat, n: nat)
    requires Good(h, used) && FreshPages(h, a, n)
    ensures var r := AddBig(h, a, n);
            Keeps(h, r) && Good(r, used + GroupOf(a / PGSIZE, n)) && a + ARENA !in h.live && ArenaOf(a + ARENA) == a
  {
    hide HeapInv, ArenasApart;
    AddBigInv(h, a, n);
    FreshIsNew(h, a, n);
  }

  /** The pages that a free gives back. */
  ghost function Returned(h: Heap, b: nat): (s: set<nat>)
    requires ArenaOf(b) in h.arenas
  {
    if ArenaOf(b) in Release(h, b).arenas then {} else PagesOf(h, ArenaOf(b))
  }

  /** A big block's address, and the pages that go with it. */
  lemma BigRelease(h: Heap, used: set<nat>, b: nat)
    requires Good(h, used) && b in h.live && ArenaOf(b) in h.arenas && h.arenas[ArenaOf(b)].Big?
    ensures var a := ArenaOf(b); a % PGSIZE == 0 && a > 0 && h.arenas[a].pages > 0
    ensures var a := ArenaOf(b); Release(h, b) == h.(arenas := h.arenas - {a}, live := h.live - {b})
    ensures var a := ArenaOf(b);
            Returned(h, b) == GroupOf(a / PGSIZE, h.arenas[a].pages) && GroupOf(a / PGSIZE, h.arenas[a].pages) <= used
  {
    hide Tight, ArenaOk, ListOk, ArenasApart;
    assert LiveOk(h, b);
    BigAddress(h, ArenaOf(b));
  }

  lemma ReleaseGood(h: Heap, used: set<nat>, b: nat)
    requires Good(h, used) && b in h.live && LiveOk(h, b)
    ensures Good(Release(h, b), used - Returned(h, b)) && Keeps(h, Release(h, b))
    ensures Release(h, b).live == h.live - {b}
  {
    hide HeapInv, ArenaOk, ArenasApart;
    var a := ArenaOf(b);
    if h.arenas[a].Big? {
      DropBigInv(h, a);
    } else {
      PutFirstInv(h, b);
      var r := PutFirst(h, b);
      CountBound(r, a);
      if r.arenas[a].freeCnt >= BlocksPerArena(r.arenas[a].d) { DropArenaInv(r, a); }
    }
    LeftHeld(h, used, b);
  }

  lemma CountBound(h: Heap, a: nat)
    requires HeapInv(h) && a in h.arenas && h.arenas[a].Small?
    ensures h.arenas[a].freeCnt <= BlocksPerArena(h.arenas[a].d)
  {
    assert ArenaOk(h, a);
  }

  /** What is left does not touch what is returned. */
  lemma LeftHeld(h: Heap, used: set<nat>, b: nat)
    requires HeapInv(h) && Held(h, used) && ArenaOf(b) in h.arenas
    ensures Held(Release(h, b), used - Returned(h, b))
  {
  }

  /** A page goes back exactly when the block freed was the last one of its arena in use, and then no block of
      the page is left on a list. */
  lemma ReturnedWhenUnused(h: Heap, b: nat)
    requires HeapInv(h) && b in h.live && LiveOk(h, b)
    ensures ArenaOf(b) !in Release(h, b).arenas <==> forall c :: c in h.live && ArenaOf(c) == ArenaOf(b) ==> c == b
    ensures ArenaOf(b) !in Release(h, b).arenas ==>
              forall d: Desc, c :: c in FreeList(Release(h, b), d) ==> ArenaOf(c) != ArenaOf(b)
  {
    hide ArenasApart, ListOk;
    var a := ArenaOf(b);
    if h.arenas[a].Big? {
      OnlyBig(h, b);
      assert forall d: Desc :: FreeList(Release(h, b), d) == FreeList(h, d);
    } else {
      PutFirstInv(h, b);
      FullWhenUnused(PutFirst(h, b), a);
      if PutFirst(h, b).arenas[a].freeCnt >= BlocksPerArena(h.arenas[a].d) { DropArenaInv(PutFirst(h, b), a); }
    }
  }

  lemma FullWhenUnused(h: Heap, a: nat)
    requires HeapInv(h) && a in h.arenas && h.arenas[a].Small?
    ensures h.arenas[a].freeCnt == BlocksPerArena(h.arenas[a].d) <==> forall c :: c in h.live ==> ArenaOf(c) != a
    ensures h.arenas[a].freeCnt <= BlocksPerArena(h.arenas[a].d)
  {
    hide ArenasApart, ListOk;
    var d := h.arenas[a].d;
    assert ArenaOk(h, a);
    AtMostAll(FreeList(h, d), a, d);
    forall i: nat | i < BlocksPerArena(d) ensures ArenaOf(Block(a, d, i)) == a { BlockInPage(a, d, i); }
    forall c | c in h.live && ArenaOf(c) == a ensures IsBlockOf(a, d, c) { assert LiveOk(h, c); }
    if forall c :: c in h.live ==> ArenaOf(c) != a {
      assert FreeIdx(FreeList(h, d), a, d) == GroupOf(0, BlocksPerArena(d));
      IndexesCard(BlocksPerArena(d));
    }
  }

  lemma OnlyBig(h: Heap, b: nat)
    requires HeapInv(h) && b in h.live && LiveOk(h, b) && h.arenas[ArenaOf(b)].Big?
    ensures forall c :: c in h.live && ArenaOf(c) == ArenaOf(b) ==> c == b
    ensures forall d: Desc, c :: c in FreeList(h, d) ==> ArenaOf(c) != ArenaOf(b)
  {
    forall c | c in h.live ensures LiveOk(h, c) { }
    forall d: Desc, c | c in FreeList(h, d) ensures ArenaOf(c) != ArenaOf(b) { ListedHome(h, c, d); }
  }

  /** A block keeps its room for as long as it is in use. */
  lemma CapacityKept(h: Heap, r: Heap, b: nat)
    requires HeapInv(h) && HeapInv(r) && Keeps(h, r) && b in h.live && b in r.live
    ensures LiveOk(h, b) && LiveOk(r, b) && Capacity(r, b) == Capacity(h, b)
  {
    assert LiveOk(h, b) && LiveOk(r, b);
  }

  /** A big block has room for the request exactly when adding the header did not wrap around. */
  lemma BigEnough(size: nat)
    requires size < WORD && PagesFor(size) > 0
    ensures PGSIZE * PagesFor(size) - ARENA >= size <==> size <= WORD - ARENA
  {
  }

  /** The request of the largest 32-bit size is served, when a page is free, with one page. */
  lemma WrappedRequest()
    ensures PagesFor(WORD - 1) == 1 && PGSIZE * PagesFor(WORD - 1) - ARENA == 4084 < WORD - 1
  {
  }

  // ---- Taking blocks off a list one by one -------------------------------------------------------------------------

  /** list_remove on a list without repeats. */
  function Remove(s: seq<nat>, x: nat): (r: seq<nat>)
    requires x in s
  {
    if s[0] == x then s[1..] else [s[0]] + Remove(s[1..], x)
  }

  function Except(s: seq<nat>, xs: set<nat>): (r: seq<nat>) {
    if s == [] then [] else (if s[0] in xs then [] else [s[0]]) + Except(s[1..], xs)
  }

  lemma {:induction false} ExceptMembers(s: seq<nat>, xs: set<nat>, x: nat)
    ensures x in Except(s, xs) <==> x in s && x !in xs
  {
    if s != [] {
      ExceptMembers(s[1..], xs, x);
      assert x in s <==> x == s[0] || x in s[1..];
    }
  }

  lemma {:induction false} RemoveExcept(s: seq<nat>, xs: set<nat>, x: nat)
    requires NoDup(s) && x in s && x !in xs
    ensures x in Except(s, xs) && Remove(Except(s, xs), x) == Except(s, xs + {x})
  {
    ExceptMembers(s, xs, x);
    TailOfNoDup(s);
    if s[0] == x {
      ExceptSame(s[1..], xs, xs + {x});
    } else {
      RemoveExcept(s[1..], xs, x);
      var e := Except(s[1..], xs);
      assert s[0] in xs ==> Except(s, xs) == e;
      RemoveCons(s[0], e, x);
    }
  }

  lemma RemoveCons(y: nat, s: seq<nat>, x: nat)
    requires y != x && x in s
    ensures Remove([y] + s, x) == [y] + Remove(s, x)
  {
    assert ([y] + s)[1..] == s;
  }

  lemma {:induction false} ExceptSame(s: seq<nat>, xs: set<nat>, ys: set<nat>)
    requires forall x :: x in s ==> (x in xs <==> x in ys)
    ensures Except(s, xs) == Except(s, ys)
  {
    if s != [] {
      assert s[0] in s;
      assert forall x :: x in s[1..] ==> x in s;
      ExceptSame(s[1..], xs, ys);
    }
  }

  lemma {:induction false} ExceptPage(s: seq<nat>, xs: set<nat>, a: nat)
    requires forall x :: x in s ==> (x in xs <==> ArenaOf(x) == a)
    ensures Except(s, xs) == Without(s, a)
  {
    if s != [] {
      assert s[0] in s;
      assert forall x :: x in s[1..] ==> x in s;
      ExceptPage(s[1..], xs, a);
    }
  }

  lemma {:induction false} ExceptNone(s: seq<nat>)
    ensures Except(s, {}) == s
  {
    if s != [] { ExceptNone(s[1..]); }
  }

  /** The blocks of an arena below index `n`. */
  ghost function FirstBlocks(a: nat, d: Desc, n: nat): (s: set<nat>)
    ensures forall b :: b in s <==> exists i: nat :: i < n && b == Block(a, d, i)
  {
    set i: nat | i < n :: Block(a, d, i)
  }

  // ---- The allocator ---------------------------------------------------------------------------------------------

  /** malloc_init's descriptor table: block sizes 16, 32, ... below half a page. */
  method InitDescs() returns (sizes: seq<nat>)
    ensures |sizes| == DESCS && forall d: Desc :: sizes[d] == BlockSize(d)
    ensures sizes[0] == 16 && sizes[DESCS - 1] < PGSIZE / 2 <= 2 * sizes[DESCS - 1]
    ensures forall d: Desc :: d > 0 ==> sizes[d] == 2 * sizes[d - 1]
  {
    sizes := [];
    var blockSize := 16;
    while blockSize < PGSIZE / 2
      invariant |sizes| <= DESCS && blockSize == [16, 32, 64, 128, 256, 512, 1024, 2048][|sizes|]
      invariant forall d: Desc :: d < |sizes| ==> sizes[d] == BlockSize(d)
      decreases PGSIZE - blockSize
    {
      sizes := sizes + [blockSize];
      blockSize := blockSize * 2;
    }
  }

  class Allocator {
    const palloc: PageAllocator
    const sizes: seq<nat>
    var arenas: map<nat, Arena>
    var free: map<Desc, seq<nat>>
    ghost var live: set<nat>

    ghost function View(): (h: Heap)
      reads this
    {
      Heap(arenas, free, live)
    }

    ghost predicate Valid()
      reads this, palloc.kernel.usedMap.bits, palloc.user.usedMap.bits
    {
      && palloc.Valid() && |sizes| == DESCS && (forall d: Desc :: sizes[d] == BlockSize(d))
      && Good(View(), palloc.kernel.Used())
    }

    constructor (palloc: PageAllocator, sizes: seq<nat>)
      requires palloc.Valid() && |sizes| == DESCS && forall d: Desc :: sizes[d] == BlockSize(d)
      ensures Valid() && this.palloc == palloc && live == {} && arenas == map[]
    {
      this.palloc, this.sizes := palloc, sizes;
      arenas, free, live := map[], map[], {};
    }

    /** Pages of the kernel pool, or address 0. */
    method GetPages(n: nat) returns (a: nat)
      requires palloc.Valid()
      modifies palloc.kernel.usedMap.bits, palloc.user.usedMap.bits
      ensures a == 0 ==> palloc.kernel.Used() == old(palloc.kernel.Used())
      ensures a == 0 && n > 0 ==> NoRoom(palloc.kernel.Pages(), palloc.kernel.Used(), n)
      ensures a != 0 ==>
                var g := GroupOf(a / PGSIZE, n);
                && n > 0 && a % PGSIZE == 0 && g !! old(palloc.kernel.Used())
                && palloc.kernel.Used() == old(palloc.kernel.Used()) + g
      ensures palloc.user.Used() == old(palloc.user.Used())
    {
      palloc.PoolsApart();
      a := palloc.GetMultiple(false, n);
      palloc.PoolsApart();
    }

    method MallocBig(size: nat) returns (b: nat)
      requires Valid() && size < WORD && IsClass(size, DESCS)
      modifies this, palloc.kernel.usedMap.bits, palloc.user.usedMap.bits
      ensures Valid() && palloc.user.Used() == old(palloc.user.Used())
      ensures b == 0 ==> View() == old(View()) && palloc.kernel.Used() == old(palloc.kernel.Used())
      ensures b == 0 ==> PagesFor(size) == 0 || NoRoom(palloc.kernel.Pages(), palloc.kernel.Used(), PagesFor(size))
      ensures b != 0 ==>
                PagesFor(size) > 0 && b >= ARENA && ArenaOf(b) == b - ARENA
                && FreshPages(old(View()), ArenaOf(b), PagesFor(size))
                && View() == AddBig(old(View()), ArenaOf(b), PagesFor(size))
                && palloc.kernel.Used() == old(palloc.kernel.Used()) + GroupOf(ArenaOf(b) / PGSIZE, PagesFor(size))
    {
      hide HeapInv, Tight;
      var n := PagesFor(size);
      var a := GetPages(n);
      if a == 0 { return 0; }
      ghost var h := View();
      FreshFromUsed(h, old(palloc.kernel.Used()), a, n);
      AddBigGood(h, old(palloc.kernel.Used()), a, n);
      arenas := arenas[a := Big(n)];
      b := a + ARENA;
      live := live + {b};
    }

    /** Makes sure that descriptor `d` has a free block. */
    method FillList(d: Desc) returns (ok: bool, ghost page: nat)
      requires Valid()
      modifies this, palloc.kernel.usedMap.bits, palloc.user.usedMap.bits
      ensures palloc.user.Used() == old(palloc.user.Used())
      ensures old(FreeList(View(), d)) != [] ==>
                ok && View() == old(View())
                && palloc.kernel.Used() == old(palloc.kernel.Used())
      ensures !ok ==> View() == old(View()) && palloc.kernel.Used() == old(palloc.kernel.Used())
                      && NoRoom(palloc.kernel.Pages(), palloc.kernel.Used(), 1)
      ensures ok && old(FreeList(View(), d)) == [] ==>
                && FreshPages(old(View()), page, 1) && View() == Refill(old(View()), d, page)
                && palloc.kernel.Used() == old(palloc.kernel.Used()) + GroupOf(page / PGSIZE, 1)
    {
      hide HeapInv, Tight;
      var list := if d in free then free[d] else [];
      if list != [] { return true, 0; }
      ghost var h := View();
      var a := GetPages(1);
      if a == 0 { return false, 0; }
      FreshFromUsed(h, old(palloc.kernel.Used()), a, 1);
      page := a;
      arenas := arenas[a := Small(d, BlocksPerArena(d))];
      var i := 0;
      while i < BlocksPerArena(d)
        invariant i <= BlocksPerArena(d)
        invariant list == AllBlocks(a, d)[..i]
      {
        list := list + [Block(a, d, i)];
        i := i + 1;
      }
      assert FreeList(h, d) + AllBlocks(a, d) == list;
      free := free[d := list];
      ok := true;
    }

    method PopFirst(d: Desc) returns (b: nat)
      requires HeapInv(View()) && FreeList(View(), d) != []
      modifies this
      ensures b == old(FreeList(View(), d)[0]) && FirstOk(old(View()), d) && View() == TakeFirst(old(View()), d)
    {
      FirstOwned(View(), d);
      b := free[d][0];
      var a := ArenaOf(b);
      free := free[d := free[d][1..]];
      arenas := arenas[a := arenas[a].(freeCnt := arenas[a].freeCnt - 1)];
      live := live + {b};
    }

    method MallocSmall(d: Desc) returns (b: nat)
      requires Valid()
      modifies this, palloc.kernel.usedMap.bits, palloc.user.usedMap.bits
      ensures Valid() && palloc.user.Used() == old(palloc.user.Used())
      ensures b == 0 ==> View() == old(View()) && palloc.kernel.Used() == old(palloc.kernel.Used())
      ensures b == 0 ==> NoRoom(palloc.kernel.Pages(), palloc.kernel.Used(), 1) && old(FreeList(View(), d)) == []
      ensures b != 0 && old(FreeList(View(), d)) != [] ==> palloc.kernel.Used() == old(palloc.kernel.Used())
      ensures b != 0 && old(FreeList(View(), d)) == [] ==>
                palloc.kernel.Used() == old(palloc.kernel.Used()) + GroupOf(ArenaOf(b) / PGSIZE, 1)
      ensures b != 0 ==>
                && (old(FreeList(View(), d)) == [] ==> FreshPages(old(View()), ArenaOf(b), 1))
                && View() == Serve(old(View()), d, ArenaOf(b)) && b == ServedBlock(old(View()), d, ArenaOf(b))
    {
      hide HeapInv, Tight, Held, FreshPages, TakeFirst, Refill;
      ghost var h := View();
      var ok, page := FillList(d);
      if !ok { return 0; }
      ServeInv(h, old(palloc.kernel.Used()), d, page);
      ServeFacts(h, d, page);
      if FreeList(h, d) == [] { RefillFirst(h, d, page); }
      b := PopFirst(d);
    }

    /** malloc; address 0 stands for the null pointer. The new block is one more live block, of the smallest
        class that fits or with pages of its own; every other live block keeps its room; and the block has room
        for the request exactly when size plus header did not wrap. Null means that nothing changed, and for a
        positive size that the class has no free block and the kernel pool no room (or that the page count wrapped to
        0). Exactly the pages of the block's arena are taken, if that is new, and no others. */
    method Malloc(size: nat) returns (b: nat)
      requires Valid() && size < WORD
      modifies this, palloc.kernel.usedMap.bits, palloc.user.usedMap.bits
      ensures Valid() && palloc.user.Used() == old(palloc.user.Used())
      ensures size == 0 ==> b == 0
      ensures b == 0 ==> View() == old(View()) && palloc.kernel.Used() == old(palloc.kernel.Used())
      ensures b == 0 && 0 < size <= 1024 ==>
                && NoRoom(palloc.kernel.Pages(), palloc.kernel.Used(), 1)
                && forall d: Desc :: IsClass(size, d) ==> FreeList(View(), d) == []
      ensures b == 0 && size > 1024 ==>
                PagesFor(size) == 0 || NoRoom(palloc.kernel.Pages(), palloc.kernel.Used(), PagesFor(size))
      ensures b != 0 ==> b !in old(live) && live == old(live) + {b} && Keeps(old(View()), View())
      ensures b != 0 ==> ArenaOf(b) in arenas && (Capacity(View(), b) >= size <==> size <= WORD - ARENA)
      ensures b != 0 && size <= 1024 ==> arenas[ArenaOf(b)].Small? && IsClass(size, arenas[ArenaOf(b)].d)
      ensures b != 0 && size > 1024 ==> arenas[ArenaOf(b)] == Big(PagesFor(size))
      ensures b != 0 ==> arenas.Keys == old(arenas.Keys) + {ArenaOf(b)}
      ensures b != 0 && ArenaOf(b) in old(arenas) ==> palloc.kernel.Used() == old(palloc.kernel.Used())
      ensures b != 0 && ArenaOf(b) !in old(arenas) ==>
                palloc.kernel.Used() == old(palloc.kernel.Used()) + PagesOf(View(), ArenaOf(b))
    {
      hide HeapInv, Tight, FreshPages, PagesFor;
      if size == 0 { return 0; }
      var d := 0;
      while d < |sizes| && sizes[d] < size
        invariant d <= DESCS && forall e: Desc :: e < d ==> BlockSize(e) < size
      {
        d := d + 1;
      }
      ghost var h := View();
      if d == |sizes| {
        assert BlockSize(6) < size;
        b := MallocBig(size);
        if b != 0 {
          AddBigGood(h, old(palloc.kernel.Used()), ArenaOf(b), PagesFor(size));
          BigEnough(size);
        }
      } else {
        assert size <= 1024;
        b := MallocSmall(d);
        if b != 0 {
          ServeFacts(h, d, ArenaOf(b));
          ServeInv(h, old(palloc.kernel.Used()), d, ArenaOf(b));
        }
      }
    }

    /** Takes every block of a page that is all free off its list. */
    method Unlist(a: nat, d: Desc)
      requires d in free && NoDup(free[d]) && forall i: nat :: i < BlocksPerArena(d) ==> Block(a, d, i) in free[d]
      requires forall b :: b in free[d] && ArenaOf(b) == a ==> IsBlockOf(a, d, b)
      requires a % PGSIZE == 0
      modifies this`free
      ensures free == old(free)[d := Without(old(free[d]), a)]
    {
      ghost var s := free[d];
      ExceptNone(s);
      assert FirstBlocks(a, d, 0) == {};
      var i := 0;
      while i < BlocksPerArena(d)
        invariant i <= BlocksPerArena(d) && d in free
        invariant free == old(free)[d := free[d]] && free[d] == Except(s, FirstBlocks(a, d, i))
      {
        var b := Block(a, d, i);
        NextBlock(a, d, i);
        RemoveExcept(s, FirstBlocks(a, d, i), b);
        free := free[d := Remove(free[d], b)];
        i := i + 1;
      }
      AllRemoved(s, a, d);
    }

    method FreeBig(ghost h: Heap, p: nat)
      requires Valid() && h == View() && p in live && ArenaOf(p) in arenas && arenas[ArenaOf(p)].Big?
      modifies this, palloc.kernel.usedMap.bits, palloc.user.usedMap.bits
      ensures View() == Release(h, p) && palloc.user.Used() == old(palloc.user.Used())
      ensures palloc.kernel.Used() == old(palloc.kernel.Used()) - Returned(h, p)
    {
      hide HeapInv, Tight, Held, Release, Returned;
      var a := ArenaOf(p);
      BigRelease(h, palloc.kernel.Used(), p);
      palloc.PoolsApart();
      palloc.FreeMultiple(a, arenas[a].pages);
      palloc.PoolsApart();
      arenas := arenas - {a};
      live := live - {p};
    }

    /** Returns the page of an arena that is all free. */
    method DropPage(ghost h: Heap, a: nat)
      requires palloc.Valid() && h == View() && HeapInv(h) && Held(h, palloc.kernel.Used())
      requires a in arenas && arenas[a].Small? && arenas[a].freeCnt >= BlocksPerArena(arenas[a].d)
               && arenas[a].d in free
      modifies this, palloc.kernel.usedMap.bits, palloc.user.usedMap.bits
      ensures View() == DropArena(h, a) && palloc.user.Used() == old(palloc.user.Used())
      ensures palloc.kernel.Used() == old(palloc.kernel.Used()) - PagesOf(h, a)
    {
      hide HeapInv, Without;
      ReadyToUnlist(h, a);
      BigAddress(h, a);
      Unlist(a, arenas[a].d);
      palloc.PoolsApart();
      palloc.FreeMultiple(a, 1);
      palloc.PoolsApart();
      arenas := arenas - {a};
    }

    method FreeSmall(ghost h: Heap, p: nat)
      requires Valid() && h == View() && p in live && ArenaOf(p) in arenas && arenas[ArenaOf(p)].Small?
      modifies this, palloc.kernel.usedMap.bits, palloc.user.usedMap.bits
      ensures View() == Release(h, p) && palloc.user.Used() == old(palloc.user.Used())
      ensures palloc.kernel.Used() == old(palloc.kernel.Used()) - Returned(h, p)
    {
      hide HeapInv, Tight, ArenasApart, Without;
      var a := ArenaOf(p);
      var d, cnt := arenas[a].d, arenas[a].freeCnt;
      live := live - {p};
      free := free[d := [p] + (if d in free then free[d] else [])];
      arenas := arenas[a := Small(d, cnt + 1)];
      assert View() == PutFirst(h, p);
      if cnt + 1 >= BlocksPerArena(d) {
        PutFirstInv(h, p);
        DropPage(View(), a);
      }
    }

    /** free: nothing for the null pointer, and for a live block exactly that block goes. */
    method Free(p: nat)
      requires Valid() && (p == 0 || p in live)
      modifies this, palloc.kernel.usedMap.bits, palloc.user.usedMap.bits
      ensures Valid() && palloc.user.Used() == old(palloc.user.Used())
      ensures p == 0 ==> View() == old(View()) && palloc.kernel.Used() == old(palloc.kernel.Used())
      ensures p != 0 ==> ArenaOf(p) in old(arenas) && View() == Release(old(View()), p)
                         && live == old(live) - {p} && Keeps(old(View()), View())
      ensures p != 0 ==> palloc.kernel.Used() == old(palloc.kernel.Used()) - Returned(old(View()), p)
    {
      hide Tight, ArenaOk, ListOk, ArenasApart, Release, Returned, Held, Keeps;
      if p == 0 { return; }
      ghost var h := View();
      assert LiveOk(h, p);
      ReleaseGood(h, palloc.kernel.Used(), p);
      if arenas[ArenaOf(p)].Big? { FreeBig(h, p); } else { FreeSmall(h, p); }
    }
  }

  lemma RefillFirst(h: Heap, d: Desc, a: nat)
    requires HeapInv(h) && FreshPages(h, a, 1) && FreeList(h, d) == []
    ensures HeapInv(Refill(h, d, a)) && FreeList(Refill(h, d, a), d) != []
            && FreeList(Refill(h, d, a), d)[0] == Block(a, d, 0)
    ensures ArenaOf(Block(a, d, 0)) == a
  {
    RefillInv(h, d, a);
    BlockInPage(a, d, 0) by { assert BlocksPerArena(d) > 0; }
    assert AllBlocks(a, d)[0] == Block(a, d, 0);
  }

  lemma NextBlock(a: nat, d: Desc, i: nat)
    ensures Block(a, d, i) !in FirstBlocks(a, d, i)
    ensures FirstBlocks(a, d, i + 1) == FirstBlocks(a, d, i) + {Block(a, d, i)}
  {
    forall j: nat | j < i ensures Block(a, d, j) != Block(a, d, i) { BlockIndexUnique(a, d, i, j); }
  }

  lemma AllRemoved(s: seq<nat>, a: nat, d: Desc)
    requires a % PGSIZE == 0 && forall b :: b in s && ArenaOf(b) == a ==> IsBlockOf(a, d, b)
    ensures Except(s, FirstBlocks(a, d, BlocksPerArena(d))) == Without(s, a)
  {
    forall i: nat | i < BlocksPerArena(d) ensures ArenaOf(Block(a, d, i)) == a { BlockInPage(a, d, i); }
    ExceptPage(s, FirstBlocks(a, d, BlocksPerArena(d)), a);
  }

  /** When the count says that all blocks are free, the list holds them all. */
  lemma ReadyToUnlist(h: Heap, a: nat)
    requires HeapInv(h) && a in h.arenas && h.arenas[a].Small? && h.arenas[a].freeCnt >= BlocksPerArena(h.arenas[a].d)
    ensures var d := h.arenas[a].d;
            && NoDup(FreeList(h, d)) && (forall i: nat :: i < BlocksPerArena(d) ==> Block(a, d, i) in FreeList(h, d))
            && forall b :: b in FreeList(h, d) && ArenaOf(b) == a ==> IsBlockOf(a, d, b)
  {
    var d := h.arenas[a].d;
    assert ArenaOk(h, a) && ListOk(h, d);
    AtMostAll(FreeList(h, d), a, d);
    forall b | b in FreeList(h, d) && ArenaOf(b) == a ensures IsBlockOf(a, d, b) { assert Owned(h, b, d); }
  }
}
