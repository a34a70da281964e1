/** The page allocator (threads/palloc.c): two pools of pages, each with a bitmap of used pages. */
module Palloc {
  import opened Basics
  import opened Bitmap

  function DivRoundUp(x: nat, step: nat): (r: nat)
    requires step > 0
  {
    (x + step - 1) / step
  }

  /** bitmap_buf_size: the two fields of the struct, then as few words as hold the bits. */
  function BitmapBufSize(bitCnt: nat): (n: nat)
    ensures n >= 8 && (n - 8) % 4 == 0 && bitCnt <= 8 * (n - 8) < bitCnt + ELEM_BITS
  {
    8 + 4 * ElemCnt(bitCnt)
  }

  /** A pool: its first page's address and the bitmap of its used pages. */
  class Pool {
    const base: nat
    const usedMap: BitmapObject

    ghost predicate Valid() {
      usedMap.Valid() && base % PGSIZE == 0 && base > 0 && base + PGSIZE * usedMap.bitCnt <= WORD
    }

    /** The page numbers this pool is made of. */
    ghost function Pages(): (s: set<nat>)
      requires Valid()
    {
      GroupOf(base / PGSIZE, usedMap.bitCnt)
    }

    ghost function Used(): (s: set<nat>)
      requires Valid()
      reads usedMap.bits
    {
      Marked(usedMap.Contents(), base / PGSIZE)
    }

    constructor (base: nat, usedMap: BitmapObject)
      ensures this.base == base && this.usedMap == usedMap
    {
      this.base, this.usedMap := base, usedMap;
    }

    /** Finds and marks a free group of this pool: its first page's address, or 0. */
    method Take(pageCnt: nat) returns (pages: nat)
      requires Valid() && pageCnt > 0
      modifies usedMap.bits
      ensures pages != 0 ==>
                var g := GroupOf(pages / PGSIZE, pageCnt);
                && pages % PGSIZE == 0 && pages + PGSIZE * pageCnt <= WORD
                && g <= Pages() && g !! old(Used()) && Used() == old(Used()) + g
      ensures pages == 0 ==> Used() == old(Used()) && NoRoom(Pages(), Used(), pageCnt)
    {
      ghost var s := usedMap.Contents();
      ghost var first := base / PGSIZE;
      var idx := usedMap.ScanAndFlip(0, pageCnt, false);
      if idx == BITMAP_ERROR {
        pages := 0;
        NoGroup(s, first, pageCnt);
      } else {
        pages := base + PGSIZE * idx;
        MarkedAfterFill(s, first, idx, pageCnt, true);
        GroupMarked(s, first, idx, pageCnt);
        assert pages / PGSIZE == first + idx;
      }
    }

    /** Clears the bits of a used group. */
    method Give(pages: nat, pageCnt: nat)
      requires Valid() && pages % PGSIZE == 0 && pageCnt > 0
      requires GroupOf(pages / PGSIZE, pageCnt) <= Used()
      modifies usedMap.bits
      ensures Used() == old(Used()) - GroupOf(pages / PGSIZE, pageCnt)
    {
      ghost var s := usedMap.Contents();
      GroupEnds(pages / PGSIZE, pageCnt);
      var idx := pages / PGSIZE - base / PGSIZE;
      usedMap.SetMultiple(idx, pageCnt, false);
      MarkedAfterFill(s, base / PGSIZE, idx, pageCnt, false);
    }

    /** page_from_pool. */
    predicate PageFromPool(page: nat) {
      base / PGSIZE <= page / PGSIZE < base / PGSIZE + usedMap.bitCnt
    }
  }

  /** The page numbers of a group. */
  ghost function GroupOf(first: nat, cnt: nat): (s: set<nat>)
    ensures forall p: nat :: p in s <==> first <= p < first + cnt
  {
    set p: nat | p < first + cnt && Covers(first, cnt, p)
  }

  predicate Covers(first: nat, cnt: nat, p: nat) {
    first <= p < first + cnt
  }

  predicate IsMarked(s: seq<bool>, first: nat, p: nat) {
    first <= p < first + |s| && s[p - first]
  }

  /** The page numbers whose bits are set, when bit 0 stands for page `first`. */
  ghost function Marked(s: seq<bool>, first: nat): (r: set<nat>)
    ensures forall p: nat :: p in r <==> first <= p < first + |s| && s[p - first]
  {
    set p: nat | p < first + |s| && IsMarked(s, first, p)
  }

  lemma MarkedAfterFill(s: seq<bool>, first: nat, idx: nat, cnt: nat, v: bool)
    requires idx + cnt <= |s|
    ensures v ==> Marked(Fill(s, idx, cnt, v), first) == Marked(s, first) + GroupOf(first + idx, cnt)
    ensures !v ==> Marked(Fill(s, idx, cnt, v), first) == Marked(s, first) - GroupOf(first + idx, cnt)
  {
    FillAt(s, idx, cnt, v);
  }

  lemma GroupMarked(s: seq<bool>, first: nat, idx: nat, cnt: nat)
    requires idx + cnt <= |s|
    ensures Group(s, idx, cnt, false) <==> GroupOf(first + idx, cnt) !! Marked(s, first)
    ensures Group(s, idx, cnt, true) <==> GroupOf(first + idx, cnt) <= Marked(s, first)
  {
    var g, m := GroupOf(first + idx, cnt), Marked(s, first);
    if g !! m {
      forall i | idx <= i < idx + cnt ensures s[i] == false { InBoth(s, first, idx, cnt, i); }
    }
    if g <= m {
      forall i | idx <= i < idx + cnt ensures s[i] == true { InBoth(s, first, idx, cnt, i); }
    }
  }

  lemma InBoth(s: seq<bool>, first: nat, idx: nat, cnt: nat, i: nat)
    requires idx <= i < idx + cnt <= |s|
    ensures first + i in GroupOf(first + idx, cnt)
    ensures first + i in Marked(s, first) <==> s[i]
  {
  }

  /** No free group of this size fits among the pages. */
  ghost predicate NoRoom(pages: set<nat>, used: set<nat>, cnt: nat) {
    forall p: nat :: GroupOf(p, cnt) <= pages ==> !(GroupOf(p, cnt) !! used)
  }

  lemma GroupEnds(p: nat, cnt: nat)
    requires cnt > 0
    ensures p in GroupOf(p, cnt) && p + cnt - 1 in GroupOf(p, cnt)
  {
  }

  lemma NoGroup(s: seq<bool>, first: nat, cnt: nat)
    requires cnt > 0 && forall i: nat :: !Group(s, i, cnt, false)
    ensures NoRoom(GroupOf(first, |s|), Marked(s, first), cnt)
  {
    forall p: nat | GroupOf(p, cnt) <= GroupOf(first, |s|) ensures !(GroupOf(p, cnt) !! Marked(s, first)) {
      GroupEnds(p, cnt);
      assert p in GroupOf(first, |s|) && p + cnt - 1 in GroupOf(first, |s|);
      assert !Group(s, p - first, cnt, false);
      GroupMarked(s, first, p - first, cnt);
    }
  }

  class PageAllocator {
    const kernel: Pool
    const user: Pool

    /** The pools lie apart, and their bitmaps do not share storage. */
    ghost predicate Valid() {
      && kernel.Valid() && user.Valid() && kernel.usedMap.bits != user.usedMap.bits
      && kernel.base + PGSIZE * kernel.usedMap.bitCnt <= user.base
    }

    ghost function Used(): (s: set<nat>)
      requires Valid()
      reads kernel.usedMap.bits, user.usedMap.bits
    {
      kernel.Used() + user.Used()
    }

    constructor (kernel: Pool, user: Pool)
      ensures this.kernel == kernel && this.user == user
    {
      this.kernel, this.user := kernel, user;
    }

    /** palloc_get_multiple; address 0 stands for the null pointer. The group handed out was free, lies in
        the pool asked for, and is all that changes; null means that no such group exists. */
    method GetMultiple(fromUser: bool, pageCnt: nat) returns (pages: nat)
      requires Valid()
      modifies kernel.usedMap.bits, user.usedMap.bits
      ensures pages != 0 ==>
                var g := GroupOf(pages / PGSIZE, pageCnt);
                && pageCnt > 0 && pages % PGSIZE == 0 && pages + PGSIZE * pageCnt <= WORD
                && g <= (if fromUser then user else kernel).Pages()
                && g !! old(Used()) && Used() == old(Used()) + g
      ensures pages == 0 ==> Used() == old(Used())
      ensures pages == 0 && pageCnt > 0 ==>
                NoRoom((if fromUser then user else kernel).Pages(), (if fromUser then user else kernel).Used(), pageCnt)
    {
      if pageCnt == 0 {
        return 0;
      }
      PoolsApart();
      if fromUser {
        pages := user.Take(pageCnt);
      } else {
        pages := kernel.Take(pageCnt);
      }
    }

    /** palloc_free_multiple of a group of used pages of one pool: it goes back to the pool it came from. */
    method FreeMultiple(pages: nat, pageCnt: nat)
      requires Valid() && pages % PGSIZE == 0
      requires pages != 0 && pageCnt > 0 ==>
                 GroupOf(pages / PGSIZE, pageCnt) <= kernel.Used()
                 || GroupOf(pages / PGSIZE, pageCnt) <= user.Used()
      modifies kernel.usedMap.bits, user.usedMap.bits
      ensures Used() == if pages == 0 || pageCnt == 0 then old(Used())
              else old(Used()) - GroupOf(pages / PGSIZE, pageCnt)
    {
      if pages == 0 || pageCnt == 0 {
        return;
      }
      PoolsApart();
      GroupEnds(pages / PGSIZE, pageCnt);
      if kernel.PageFromPool(pages) {
        kernel.Give(pages, pageCnt);
      } else {
        user.Give(pages, pageCnt);
      }
    }

    /** The page numbers of the two pools are different. */
    lemma PoolsApart()
      requires Valid()
      ensures kernel.Pages() !! user.Pages()
      ensures kernel.Used() <= kernel.Pages() && user.Used() <= user.Pages()
    {
    }
  }

  /** The pool lies in `pageCnt` pages from `lo` on: its bitmap takes as few as it needs, and the pool the rest. */
  ghost predicate FillsRegion(pool: Pool, lo: nat, pageCnt: nat) {
    && lo + BitmapBufSize(pageCnt) <= pool.base < lo + BitmapBufSize(pageCnt) + PGSIZE
    && pool.base + PGSIZE * pool.usedMap.bitCnt == lo + PGSIZE * pageCnt
  }

  /** init_pool: the bitmap takes the first pages, the rest are the pool; fails exactly when the bitmap does not fit. */
  method InitPool(base: nat, pageCnt: nat) returns (ok: bool, pool: Pool?)
    requires base % PGSIZE == 0 && base > 0 && base + PGSIZE * pageCnt <= WORD
    ensures ok <==> BitmapBufSize(pageCnt) <= PGSIZE * pageCnt
    ensures ok ==> pool != null && fresh(pool.usedMap.bits) && pool.Valid() && pool.Used() == {}
                   && FillsRegion(pool, base, pageCnt)
  {
    var bmPages := DivRoundUp(BitmapBufSize(pageCnt), PGSIZE);
    if bmPages > pageCnt {
      return false, null;
    }
    var map' := new BitmapObject(pageCnt - bmPages);
    pool := new Pool(base + bmPages * PGSIZE, map');
    ok := true;
  }

  const LOW_PAGES: nat := 256        // the first megabyte, which stays out of the pools

  /** The pages of the user region: half of those above the first megabyte, or as many as the limit allows. */
  function UserShare(ramPages: nat, userPageLimit: nat): (n: nat)
    requires ramPages >= LOW_PAGES
  {
    var half := (ramPages - LOW_PAGES) / 2;
    if half > userPageLimit then userPageLimit else half
  }

  /** palloc_init: the memory from 1 MB to the end of RAM, all of it, split into two pools that do not overlap. It fails
      exactly when one of the two bitmaps does not fit. */
  method Init(ramPages: nat, userPageLimit: nat) returns (ok: bool, a: PageAllocator?)
    requires LOW_PAGES <= ramPages && ramPages * PGSIZE <= WORD - PHYS_BASE
    ensures var user := UserShare(ramPages, userPageLimit);
            var kernel := ramPages - LOW_PAGES - user;
            && (ok <==> BitmapBufSize(kernel) <= PGSIZE * kernel && BitmapBufSize(user) <= PGSIZE * user)
            && (ok ==>
                  && a != null && a.Valid() && a.Used() == {}
                  && fresh(a.kernel.usedMap.bits) && fresh(a.user.usedMap.bits)
                  && FillsRegion(a.kernel, PHYS_BASE + 0x10_0000, kernel)
                  && FillsRegion(a.user, PHYS_BASE + 0x10_0000 + PGSIZE * kernel, user)
                  && a.user.base + PGSIZE * a.user.usedMap.bitCnt == PHYS_BASE + ramPages * PGSIZE
                  && a.user.usedMap.bitCnt <= userPageLimit)
  {
    hide BitmapBufSize, Marked, GroupOf;
    var start := PHYS_BASE + 0x10_0000;
    var freePages := (PHYS_BASE + ramPages * PGSIZE - start) / PGSIZE;
    assert freePages == ramPages - LOW_PAGES;
    var userPages := freePages / 2;
    if userPages > userPageLimit {
      userPages := userPageLimit;
    }
    var kernelPages := freePages - userPages;
    var kernel, user;
    ok, kernel := InitPool(start, kernelPages);
    if !ok { return false, null; }
    ok, user := InitPool(start + kernelPages * PGSIZE, userPages);
    if !ok { return false, null; }
    a := new PageAllocator(kernel, user);
  }
}
