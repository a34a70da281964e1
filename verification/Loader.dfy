/** Loading a segment of an ELF executable (userprog/process.c). */
module Loader {
  import opened Basics
  import opened Disk
  import opened PageDir
  import opened PageTables

  /** The members of a program header that loading uses, all 32-bit unsigned. */
  datatype Phdr = Phdr(offset: nat, vaddr: nat, filesz: nat, memsz: nat)

  predicate Words(p: Phdr) {
    p.offset < WORD && p.vaddr < WORD && p.filesz < WORD && p.memsz < WORD
  }

  /** validate_segment, with sums in 32 bits. */
  predicate ValidateSegment(p: Phdr, fileLength: nat) {
    && p.offset % PGSIZE == p.vaddr % PGSIZE
    && p.offset <= fileLength
    && p.memsz >= p.filesz
    && p.memsz != 0
    && p.vaddr < PHYS_BASE
    && (p.vaddr + p.memsz) % WORD < PHYS_BASE
    && (p.vaddr + p.memsz) % WORD >= p.vaddr
    && p.vaddr >= PGSIZE
  }

  /** In plain arithmetic: a header is accepted exactly when its places in the file and in memory agree within a page,
      the file reaches its offset, the file's part is no longer than the image, and the image is not empty and lies
      between page 1 and the kernel. */
  lemma AcceptedSegments(p: Phdr, fileLength: nat)
    requires Words(p)
    ensures ValidateSegment(p, fileLength) <==>
              && p.offset % PGSIZE == p.vaddr % PGSIZE && p.offset <= fileLength
              && p.filesz <= p.memsz && 0 < p.memsz && PGSIZE <= p.vaddr && p.vaddr + p.memsz < PHYS_BASE
  {
    if ValidateSegment(p, fileLength) { NoWrap(p.vaddr, p.memsz); } else { InRange(p.vaddr, p.memsz); }
  }

  lemma InRange(a: nat, b: nat)
    ensures a + b < PHYS_BASE ==> (a + b) % WORD == a + b
  {
  }

  function RoundUp32(x: nat): (r: nat) {
    (x + PGSIZE - 1) % WORD / PGSIZE * PGSIZE
  }

  /** What load passes to load_segment, in 32-bit arithmetic. */
  datatype Segment = Segment(filePage: nat, memPage: nat, readBytes: nat, zeroBytes: nat)

  function SegmentOf(p: Phdr): (s: Segment)
    requires Words(p)
  {
    var pageOffset := p.vaddr % PGSIZE;
    var readBytes := if p.filesz > 0 then (pageOffset + p.filesz) % WORD else 0;
    Segment(p.offset - p.offset % PGSIZE, p.vaddr - pageOffset, readBytes,
            (RoundUp32((pageOffset + p.memsz) % WORD) + WORD - readBytes) % WORD)
  }

  /** Nothing wraps for an accepted header: the segment covers exactly the pages that its memory image touches,
      all of them user pages above page 0, and the bytes to read end inside it. */
  lemma SegmentArithmetic(p: Phdr, fileLength: nat)
    requires Words(p) && ValidateSegment(p, fileLength)
    ensures var s := SegmentOf(p);
            && s.memPage % PGSIZE == 0 && s.filePage % PGSIZE == 0 && (s.readBytes + s.zeroBytes) % PGSIZE == 0
            && PGSIZE <= s.memPage <= p.vaddr < s.memPage + PGSIZE
            && s.memPage + s.readBytes + s.zeroBytes <= PHYS_BASE
            && p.vaddr + p.memsz <= s.memPage + s.readBytes + s.zeroBytes < p.vaddr + p.memsz + PGSIZE
            && s.filePage <= p.offset && s.filePage + (p.vaddr - s.memPage) == p.offset
            && (p.filesz > 0 ==> s.memPage + s.readBytes == p.vaddr + p.filesz)
            && (p.filesz == 0 ==> s.readBytes == 0)
  {
    hide RoundUp32;
    NoWrap(p.vaddr, p.memsz);
    var pageOffset := p.vaddr % PGSIZE;
    var end := RoundUp32((pageOffset + p.memsz) % WORD);
    RoundUpExact(pageOffset + p.memsz);
    RoundUpBound(p.vaddr - pageOffset, pageOffset + p.memsz);
    var readBytes := if p.filesz > 0 then pageOffset + p.filesz else 0;
    Difference(end, readBytes);
    assert (pageOffset + p.filesz) % WORD == pageOffset + p.filesz;
    Offsets(p);
    assert SegmentOf(p) == Segment(p.offset - p.offset % PGSIZE, p.vaddr - pageOffset, readBytes, end - readBytes);
  }

  lemma Difference(a: nat, b: nat)
    requires b <= a < WORD
    ensures (a + WORD - b) % WORD == a - b
  {
  }

  lemma Offsets(p: Phdr)
    requires p.offset % PGSIZE == p.vaddr % PGSIZE && p.vaddr >= PGSIZE
    ensures (p.vaddr - p.vaddr % PGSIZE) % PGSIZE == 0 && (p.offset - p.offset % PGSIZE) % PGSIZE == 0
            && p.vaddr - p.vaddr % PGSIZE >= PGSIZE
  {
  }

  lemma NoWrap(a: nat, b: nat)
    requires a < PHYS_BASE && b < WORD && (a + b) % WORD >= a && (a + b) % WORD < PHYS_BASE
    ensures a + b < PHYS_BASE
  {
  }

  lemma RoundUpExact(x: nat)
    requires x < PHYS_BASE
    ensures RoundUp32(x % WORD) % PGSIZE == 0 && x <= RoundUp32(x % WORD) < x + PGSIZE
  {
    assert x % WORD == x;
  }

  /** The last page of a region that ends below PHYS_BASE ends at PHYS_BASE at most. */
  lemma RoundUpBound(page: nat, n: nat)
    requires page % PGSIZE == 0 && page + n < PHYS_BASE
    ensures page + RoundUp32(n % WORD) <= PHYS_BASE
  {
    RoundUpExact(n);
    var r := RoundUp32(n % WORD);
    assert (page + r) % PGSIZE == 0;
  }

  type PageBytes = s: seq<Byte> | |s| == 4096 witness seq(4096, _ => 0)

  /** The pages that page and table allocation hand out during one load, and whether reads succeed; 0 is the
      null pointer. */
  datatype Supply = Supply(user: nat -> nat, table: nat -> nat, read: nat -> bool)

  /** The page of a segment's image that starts `at` bytes into it. */
  function ImagePage(file: seq<Byte>, ofs: nat, readBytes: nat, at: nat): (s: PageBytes)
  {
    seq(4096, b requires 0 <= b < 4096 => if at + b < readBytes && ofs + at + b < |file| then file[ofs + at + b] else 0)
  }

  /** The page that one turn of the loop fills is that page of the image. */
  lemma TurnImage(file: seq<Byte>, ofs: nat, readBytes: nat, k: nat, left: nat, pageRead: nat)
    requires left == (if readBytes > PGSIZE * k then readBytes - PGSIZE * k else 0)
             && pageRead == (if left < PGSIZE then left else PGSIZE)
    ensures ImagePage(file, ofs + readBytes - left, pageRead, 0) == ImagePage(file, ofs, readBytes, PGSIZE * k)
  {
    var x, y := ImagePage(file, ofs + readBytes - left, pageRead, 0), ImagePage(file, ofs, readBytes, PGSIZE * k);
    forall b | 0 <= b < 4096 ensures x[b] == y[b] { }
  }

  lemma OutsidePage(u: nat)
    requires u % PGSIZE == 0
    ensures forall w: nat :: !(u <= w < u + PGSIZE) ==> w / PGSIZE != u / PGSIZE
  {
  }

  lemma PdBetween(a: nat, b: nat)
    requires a <= b
    ensures forall c: nat :: b <= c && PdNo(a) == PdNo(c) ==> PdNo(b) == PdNo(c)
  {
  }

  /** The address lies in a page that holds part of the image. */
  predicate Touches(p: Phdr, va: nat) {
    p.vaddr / PGSIZE <= va / PGSIZE <= (p.vaddr + p.memsz - 1) / PGSIZE
  }

  lemma NotTouched(p: Phdr, g: Segment, va: nat)
    requires g.memPage % PGSIZE == 0 && g.memPage <= p.vaddr && (g.readBytes + g.zeroBytes) % PGSIZE == 0
    requires g.memPage + g.readBytes + g.zeroBytes < p.vaddr + p.memsz + PGSIZE && p.vaddr < g.memPage + PGSIZE
    ensures !Touches(p, va) ==> !(g.memPage <= va < g.memPage + g.readBytes + g.zeroBytes)
  {
  }

  /** A process's memory: its directory and the contents of the user pages handed out. */
  class Process {
    const mmu: Mmu
    const pd: nat
    var pages: map<nat, PageBytes>

    constructor (mmu: Mmu, pd: nat)
      ensures this.mmu == mmu && this.pd == pd && pages == map[]
    {
      this.mmu, this.pd, pages := mmu, pd, map[];
    }

    ghost predicate Valid()
      reads this, mmu
    {
      mmu.Valid() && pd in mmu.dirs
    }

    /** What the process has mapped at `va`. */
    ghost function MapAt(va: nat): (m: Option<Mapping>)
      requires Valid() && va < PHYS_BASE
      reads this, mmu
    {
      mmu.Map(pd, va)
    }

    ghost predicate HasTable(va: nat)
      requires Valid() && va < PHYS_BASE
      reads this, mmu
    {
      mmu.TableFor'(pd, va).Some?
    }

    /** No frame is mapped twice, in this process or another. */
    ghost predicate Exclusive()
      requires Valid()
      reads this, mmu
    {
      mmu.Exclusive()
    }

    /** The user page at `va` is mapped, with these contents. */
    ghost predicate Shows(va: nat, bytes: PageBytes, writable: bool)
      requires Valid() && va < PHYS_BASE
      reads this, mmu
    {
      match MapAt(va)
      case Some(m) => m.user && m.writable == writable && m.frame in pages && pages[m.frame] == bytes
      case None => false
    }

    /** From the `k`th on, pages handed out are different from each other and from those in use. */
    ghost predicate Fresh(s: Supply, k: nat)
      requires Valid()
      reads this, mmu
    {
      && (forall i: nat :: i >= k ==>
           mmu.Offered(s.table(i)) && mmu.Offered(s.user(i))
           && (s.user(i) != 0 ==> s.user(i) !in pages))
      && (forall i: nat, j: nat :: k <= i < j && s.user(i) != 0 ==> s.user(i) != s.user(j))
      && (forall i: nat, j: nat :: k <= i < j && s.table(i) != 0 ==> s.table(i) != s.table(j))
      && (forall i: nat, j: nat :: k <= i && k <= j && s.user(i) != 0 ==> s.user(i) != s.table(j))
    }

    /** There is, or is made, a table for `upage`. */
    ghost predicate TableThere(upage: nat, table: nat)
      requires Valid() && upage < PHYS_BASE
      reads this, mmu
    {
      HasTable(upage) || table != 0
    }

    /** The pages that were there have the contents of before. */
    twostate predicate PagesKept()
      reads this
    {
      forall f :: f in old(pages) ==> f in pages && pages[f] == old(pages[f])
    }

    /** One turn of load_segment's loop, from the page to its place in the address space. */
    method LoadPage(file: seq<Byte>, pos: nat, upage: nat, pageRead: nat, writable: bool, s: Supply, k: nat)
            returns (ok: bool)
      requires Valid() && Fresh(s, k) && pageRead <= PGSIZE && upage % PGSIZE == 0 && upage < PHYS_BASE
      modifies this, mmu`mem
      ensures Valid() && Fresh(s, k + 1)
      ensures forall w: nat :: w < PHYS_BASE && !(upage <= w < upage + PGSIZE) ==> MapAt(w) == old(MapAt(w))
      ensures PagesKept()
      ensures ok <==> s.user(k) != 0 && (pageRead > 0 ==> s.read(k) && pos + pageRead <= |file|)
                      && old(MapAt(upage)).None? && old(TableThere(upage, s.table(k)))
      ensures ok ==> Shows(upage, ImagePage(file, pos, pageRead, 0), writable)
      ensures forall w: nat, b, wr :: w < PHYS_BASE && !(upage <= w < upage + PGSIZE) && old(Shows(w, b, wr)) ==>
              Shows(w, b, wr)
      ensures forall w: nat :: w < PHYS_BASE ==>
                (HasTable(w) <==> old(HasTable(w)) || (ok && PdNo(w) == PdNo(upage)))
      ensures old(Exclusive()) ==> Exclusive()
    {
      hide MemInv, PteFor, MappingOf, PteCreateUser, ImagePage;
      OutsidePage(upage);
      var kpage := s.user(k);
      if kpage == 0 { return false; }
      if pageRead > 0 && !(s.read(k) && pos + pageRead <= |file|) { return false; }
      var image := ImagePage(file, pos, pageRead, 0);
      var there := mmu.GetPage(pd, upage);
      if there != 0 { return false; }
      ok := mmu.SetPage(pd, upage, kpage, writable, s.table(k));
      if ok { pages := pages[kpage := image]; }
    }

    /** The `k`th page of a segment can be loaded: there are a page for it, the file's bytes, no mapping in its place,
        and a page table, which the page before may have made. */
    ghost predicate Loads(file: seq<Byte>, ofs: nat, upage: nat, readBytes: nat, s: Supply, k: nat)
      requires Valid() && upage + PGSIZE * k < PHYS_BASE
      reads this, mmu
    {
      var u := upage + PGSIZE * k;
      && s.user(k) != 0 && MapAt(u).None?
      && (PGSIZE * k < readBytes ==>
           s.read(k)
           && ofs + (if readBytes < PGSIZE * k + PGSIZE then readBytes else PGSIZE * k + PGSIZE) <= |file|)
      && (TableThere(u, s.table(k)) || (k > 0 && PdNo(u - PGSIZE) == PdNo(u)))
    }

    /** load_segment. On success every page of the segment shows its part of the image: the file's bytes from
        `ofs` on, `readBytes` of them, and then zeros. Pages outside the segment keep their mappings, and the two
        counters never go below zero. It fails exactly when some page cannot be loaded. */
    method LoadSegment(file: seq<Byte>, ofs: nat, upage: nat, readBytes: nat, zeroBytes: nat, writable: bool, s: Supply)
            returns (ok: bool)
      requires Valid() && Fresh(s, 0) && (readBytes + zeroBytes) % PGSIZE == 0 && upage % PGSIZE == 0
               && ofs % PGSIZE == 0
      requires upage + readBytes + zeroBytes <= PHYS_BASE
      modifies this, mmu`mem
      ensures Valid()
      ensures forall w: nat :: w < PHYS_BASE && !(upage <= w < upage + readBytes + zeroBytes) ==>
              MapAt(w) == old(MapAt(w))
      ensures ok <==> forall k: nat :: PGSIZE * k < readBytes + zeroBytes ==>
              old(Loads(file, ofs, upage, readBytes, s, k))
      ensures ok ==> readBytes > 0 ==> ofs + readBytes <= |file|
      ensures PagesKept() && (old(Exclusive()) ==> Exclusive())
      ensures ok ==> forall k: nat :: PGSIZE * k < readBytes + zeroBytes ==>
                Shows(upage + PGSIZE * k, ImagePage(file, ofs, readBytes, PGSIZE * k), writable)
    {
      hide Valid, MapAt, HasTable, Exclusive, ImagePage, Fresh, PdNo, Shows;
      var r: nat, z: nat, u, k := readBytes, zeroBytes, upage, 0;
      while r > 0 || z > 0
        invariant u == upage + PGSIZE * k && r + z == readBytes + zeroBytes - PGSIZE * k
        invariant r == if readBytes > PGSIZE * k then readBytes - PGSIZE * k else 0
        invariant Valid() && Fresh(s, k)
        invariant PagesKept() && (old(Exclusive()) ==> Exclusive())
        invariant readBytes - r > 0 ==> ofs + readBytes - r <= |file|
        invariant forall j: nat :: j < k ==> old(Loads(file, ofs, upage, readBytes, s, j))
        invariant forall w: nat :: u <= w < PHYS_BASE ==>
                    (HasTable(w) <==>
                      old(HasTable(w))
                      || (k > 0 && PdNo(w) == PdNo(u - PGSIZE)))
        invariant forall w: nat :: w < PHYS_BASE && !(upage <= w < u) ==> MapAt(w) == old(MapAt(w))
        invariant forall j: nat :: j < k ==>
                  Shows(upage + PGSIZE * j, ImagePage(file, ofs, readBytes, PGSIZE * j), writable)
        decreases r + z
      {
        var pageRead := if r < PGSIZE then r else PGSIZE;
        var pageZero := PGSIZE - pageRead;
        TurnImage(file, ofs, readBytes, k, r, pageRead);
        ok := LoadPage(file, ofs + readBytes - r, u, pageRead, writable, s, k);
        assert ok <==> old(Loads(file, ofs, upage, readBytes, s, k));
        if !ok { return; }
        if k > 0 { PdBetween(u - PGSIZE, u); }
        r, z, u, k := r - pageRead, z - pageZero, u + PGSIZE, k + 1;
      }
      ok := true;
    }

    /** The byte that the process sees at a user address. */
    ghost function ByteSeen(va: nat): (b: Option<Byte>)
      requires Valid() && va < PHYS_BASE
      reads this, mmu
    {
      match MapAt(va)
      case Some(m) => if m.user && m.frame in pages then Some(pages[m.frame][va % PGSIZE]) else None
      case None => None
    }

    /** Whether the process may store at a user address; none where nothing is mapped. */
    ghost function MayStore(va: nat): (b: Option<bool>)
      requires Valid() && va < PHYS_BASE
      reads this, mmu
    {
      match MapAt(va)
      case Some(m) => Some(m.user && m.writable)
      case None => None
    }

    lemma SeenInPage(page: nat, bytes: PageBytes, writable: bool, va: nat)
      requires Valid() && page % PGSIZE == 0 && page <= va < page + PGSIZE && va < PHYS_BASE
               && Shows(page, bytes, writable)
      ensures ByteSeen(va) == Some(bytes[va - page]) && MayStore(va) == Some(writable)
    {
      hide MemInv, PteFor, MappingOf;
      mmu.PtePages(pd, page);
    }

    /** The header is accepted, and each page that its memory image touches can be loaded. */
    ghost predicate HeaderLoads(p: Phdr, file: seq<Byte>, s: Supply)
      requires Valid() && Words(p)
      reads this, mmu
    {
      if !ValidateSegment(p, |file|) then false
      else
        SegmentArithmetic(p, |file|);
        var g := SegmentOf(p);
        forall k: nat :: PGSIZE * k < g.readBytes + g.zeroBytes ==>
          Loads(file, g.filePage, g.memPage, g.readBytes, s, k)
    }

    /** load's treatment of a PT_LOAD header. On success the process sees, at every address of the segment, the
        byte of the file that belongs there, and zeros beyond the file's part, and may store there exactly if the header
        says so. In any case it sees in the pages that the segment does not touch what it saw before. */
    method LoadHeader(p: Phdr, writable: bool, file: seq<Byte>, s: Supply) returns (ok: bool)
      requires Valid() && Fresh(s, 0) && Words(p)
      modifies this, mmu`mem
      ensures Valid() && (ok <==> old(HeaderLoads(p, file, s))) && (ok ==> p.vaddr + p.memsz <= PHYS_BASE)
      ensures old(Exclusive()) ==> Exclusive()
      ensures ok ==> p.filesz > 0 ==> p.offset + p.filesz <= |file|
      ensures ok ==> forall va: nat :: p.vaddr <= va < p.vaddr + p.memsz ==>
                ByteSeen(va) == Some(if va < p.vaddr + p.filesz then file[p.offset + (va - p.vaddr)] else 0)
      ensures ok ==> forall va: nat :: p.vaddr <= va < p.vaddr + p.memsz ==> MayStore(va) == Some(writable)
      ensures forall va: nat :: va < PHYS_BASE && !Touches(p, va) ==>
                MapAt(va) == old(MapAt(va)) && (old(ByteSeen(va)).Some? ==> ByteSeen(va) == old(ByteSeen(va)))
    {
      hide MemInv, PteFor, MappingOf, Fresh, ImagePage, Shows, ByteSeen, MayStore, Loads, MapAt;
      if !ValidateSegment(p, |file|) { return false; }
      SegmentArithmetic(p, |file|);
      var g := SegmentOf(p);
      ok := LoadSegment(file, g.filePage, g.memPage, g.readBytes, g.zeroBytes, writable, s);
      forall va: nat | va < PHYS_BASE && !Touches(p, va)
        ensures MapAt(va) == old(MapAt(va)) && (old(ByteSeen(va)).Some? ==> ByteSeen(va) == old(ByteSeen(va)))
      {
        NotTouched(p, g, va);
        StillSeen(va);
      }
      if ok {
        forall va: nat | p.vaddr <= va < p.vaddr + p.memsz
          ensures ByteSeen(va) == Some(if va < p.vaddr + p.filesz then file[p.offset + (va - p.vaddr)] else 0)
          ensures MayStore(va) == Some(writable)
        {
          SegmentByte(p, g, writable, file, va);
        }
      }
    }

    twostate lemma StillSeen(va: nat)
      requires old(Valid()) && Valid() && va < PHYS_BASE && PagesKept() && MapAt(va) == old(MapAt(va))
      ensures old(ByteSeen(va)).Some? ==> ByteSeen(va) == old(ByteSeen(va))
    {
      hide MapAt;
    }

    lemma SegmentByte(p: Phdr, g: Segment, writable: bool, file: seq<Byte>, va: nat)
      requires Valid() && p.vaddr <= va < p.vaddr + p.memsz && g.memPage % PGSIZE == 0 && g.memPage <= p.vaddr
      requires p.vaddr + p.memsz <= g.memPage + g.readBytes + g.zeroBytes <= PHYS_BASE
      requires g.filePage + (p.vaddr - g.memPage) == p.offset
               && (p.filesz > 0 ==> g.memPage + g.readBytes == p.vaddr + p.filesz)
      requires (p.filesz == 0 ==> g.readBytes == 0) && (g.readBytes > 0 ==> g.filePage + g.readBytes <= |file|)
      requires forall k: nat :: PGSIZE * k < g.readBytes + g.zeroBytes ==>
                 Shows(g.memPage + PGSIZE * k, ImagePage(file, g.filePage, g.readBytes, PGSIZE * k), writable)
      ensures va < p.vaddr + p.filesz ==> p.offset + (va - p.vaddr) < |file|
      ensures ByteSeen(va) == Some(if va < p.vaddr + p.filesz then file[p.offset + (va - p.vaddr)] else 0)
      ensures MayStore(va) == Some(writable)
    {
      hide MemInv, PteFor, MappingOf, Shows, ByteSeen, MayStore;
      var k := (va - g.memPage) / PGSIZE;
      var page := g.memPage + PGSIZE * k;
      assert page % PGSIZE == 0 && page <= va < page + PGSIZE;
      SeenInPage(page, ImagePage(file, g.filePage, g.readBytes, PGSIZE * k), writable, va);
    }
  }
}
