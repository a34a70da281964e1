/** The page directory operations, the page directory register and the TLB (userprog/pagedir.c). */
module PageDir {
  import opened Basics
  import opened PageTables

  /** What the CPU keeps of a translation that it has walked. */
  datatype Cached = Cached(frame: nat, writable: bool, user: bool, accessed: bool, dirty: bool)

  /** A cached translation agrees with a page table entry: same mapping, and no status bit that the entry
      does not have (the CPU would then not set it when it should). */
  predicate Agrees(c: Cached, e: nat) {
    && Has(e, PTE_P) && c.frame == Frame(e) && c.writable == Has(e, PTE_W) && c.user == Has(e, PTE_U)
    && (c.accessed ==> Has(e, PTE_A)) && (c.dirty ==> Has(e, PTE_D))
  }

  class Mmu {
    const init: nat
    var mem: Mem
    var cr3: nat
    var tlb: map<nat, Cached>          // by user page number, for the active directory
    ghost var dirs: set<nat>           // the directories of processes

    /** paging_init's result: the kernel's own directory, active. */
    constructor (init: nat, words: seq<nat>)
      requires KernelPage(init) && |words| == ENTRIES && forall i: nat :: i < USER_PDES ==> words[i] == 0
      ensures Valid() && this.init == init && cr3 == init && dirs == {} && tlb == map[] && mem == map[init := words]
              && Exclusive()
    {
      this.init, mem, cr3, tlb, dirs := init, map[init := words], init, map[], {};
    }

    ghost predicate IsDir(pd: nat)
      reads this
    {
      pd in dirs || pd == init
    }

    ghost function Pte(pd: nat, va: nat): (e: nat)
      requires MemInv(mem, dirs, init) && IsDir(pd) && va < PHYS_BASE
      reads this
    {
      PteFor(mem, dirs, init, pd, va)
    }

    /** The map of a directory. */
    ghost function Map(pd: nat, va: nat): (m: Option<Mapping>)
      requires MemInv(mem, dirs, init) && IsDir(pd) && va < PHYS_BASE
      reads this
    {
      MappingOf(Pte(pd, va))
    }

    /** Every translation in the TLB agrees with the active directory. */
    ghost predicate TlbInv()
      requires MemInv(mem, dirs, init) && IsDir(cr3)
      reads this
    {
      forall v :: v in tlb ==> v * PGSIZE < PHYS_BASE && Agrees(tlb[v], Pte(cr3, v * PGSIZE))
    }

    ghost predicate Valid()
      reads this
    {
      MemInv(mem, dirs, init) && IsDir(cr3) && TlbInv()
    }

    /** The entries of all directories are those of before. */
    twostate predicate SamePtes()
      requires old(MemInv(mem, dirs, init)) && MemInv(mem, dirs, init) && dirs == old(dirs)
      reads this
    {
      forall q, w: nat :: IsDir(q) && w < PHYS_BASE ==>
        PteFor(mem, dirs, init, q, w) == PteFor(old(mem), dirs, init, q, w)
    }

    /** One page of one directory has a new entry; nothing else changed. */
    twostate predicate OnePte(pd: nat, va: nat, e: nat)
      requires old(MemInv(mem, dirs, init)) && MemInv(mem, dirs, init) && dirs == old(dirs) && pd in dirs
               && va < PHYS_BASE
      reads this
    {
      && Pte(pd, va) == e
      && forall q, w: nat :: IsDir(q) && w < PHYS_BASE && !(q == pd && w / PGSIZE == va / PGSIZE) ==>
           PteFor(mem, dirs, init, q, w) == PteFor(old(mem), dirs, init, q, w)
    }

    /** pagedir_activate; 0 is the null pointer. Loading the register empties the TLB. */
    method Activate(pd: nat)
      requires Valid() && (pd == 0 || IsDir(pd))
      modifies this`cr3, this`tlb
      ensures Valid() && cr3 == (if pd == 0 then init else pd) && tlb == map[]
    {
      cr3 := if pd == 0 then init else pd;
      tlb := map[];
    }

    /** invalidate_pagedir. */
    method Invalidate(pd: nat)
      requires MemInv(mem, dirs, init) && IsDir(cr3) && IsDir(pd) && (cr3 != pd ==> TlbInv())
      modifies this`cr3, this`tlb
      ensures Valid() && cr3 == old(cr3) && tlb == if cr3 == pd then map[] else old(tlb)
    {
      if cr3 == pd {
        cr3, tlb := pd, map[];
      }
    }

    /** Writes the entry for `va`, whose table exists. */
    method WritePte(pd: nat, va: nat, e: nat)
      requires MemInv(mem, dirs, init) && pd in dirs && va < PHYS_BASE && TableFor'(pd, va).Some?
      modifies this`mem
      ensures MemInv(mem, dirs, init) && mem.Keys == old(mem.Keys) && OnePte(pd, va, e)
      ensures mem[pd] == old(mem[pd])
    {
      hide Frame, Has, PdNo, PtNo, PdeOk;
      ghost var was := mem;
      Split(va, va);
      TableFacts(pd, va);
      var t := Frame(mem[pd][PdNo(va)]);
      PteWriteInv(mem, dirs, init, pd, PdNo(va), PtNo(va), e);
      mem := SetWord(mem, t, PtNo(va), e);
      forall q, w: nat | IsDir(q) && w < PHYS_BASE
        ensures Pte(q, w) == if q == pd && w / PGSIZE == va / PGSIZE then e else PteFor(was, dirs, init, q, w)
      {
        PteWriteMeans(was, dirs, init, pd, va, e, q, w);
      }
    }

    ghost function TableFor'(pd: nat, va: nat): (t: Option<nat>)
      requires MemInv(mem, dirs, init) && IsDir(pd) && va < PHYS_BASE
      reads this
    {
      assert pd != init ==> DirOk(mem, dirs, init, pd);
      TableFor(mem, pd, va)
    }

    lemma TableFacts(pd: nat, va: nat)
      requires MemInv(mem, dirs, init) && IsDir(pd) && va < PHYS_BASE
      ensures IsPage(mem, pd) && PdNo(va) < USER_PDES && (pd != init ==> DirOk(mem, dirs, init, pd))
      ensures mem[pd][PdNo(va)] != 0 ==>
                pd != init && IsPage(mem, Frame(mem[pd][PdNo(va)]))
                  && Pte(pd, va) == mem[Frame(mem[pd][PdNo(va)])][PtNo(va)]
      ensures mem[pd][PdNo(va)] == 0 ==> Pte(pd, va) == 0
    {
      hide Frame, Has, PtNo;
      Split(va, va);
      if pd != init { assert DirOk(mem, dirs, init, pd) && PdeOk(mem, dirs, init, pd, PdNo(va)); }
    }

    /** No frame is mapped twice, and none is a directory or table. */
    ghost predicate Exclusive()
      requires MemInv(mem, dirs, init)
      reads this
    {
      FramesApart(mem, dirs, init)
    }

    /** What the page allocator hands out: a page that is no directory, table or frame of a process, or 0 for none. */
    ghost predicate Offered(page: nat)
      requires MemInv(mem, dirs, init)
      reads this
    {
      page == 0 || (KernelPage(page) && page !in mem && !Mapped(mem, dirs, init, page))
    }

    /** Where the maps are those of before, the frames are as exclusive as before. */
    twostate lemma StillExclusive()
      requires old(MemInv(mem, dirs, init) && Exclusive()) && MemInv(mem, dirs, init) && mem.Keys == old(mem.Keys)
               && dirs == old(dirs)
      requires forall q, w: nat :: IsDir(q) && w < PHYS_BASE ==> Map(q, w) == old(Map(q, w))
      ensures Exclusive()
    {
      hide MemInv, FramesApart, PteFor, MappingOf;
      forall q, w: nat, f | q in dirs && w < PHYS_BASE && MapsTo(mem, dirs, init, q, w, f)
        ensures old(MapsTo(mem, dirs, init, q, w, f))
      {
        assert Map(q, w) == old(Map(q, w));
      }
      ApartLess(old(mem), dirs, mem, dirs, init);
    }

    /** lookup_page for a user address: the page table, made if missing and asked for; 0 is the null pointer.
        What is mapped where does not change. */
    method LookupPage(pd: nat, va: nat, create: bool, page: nat) returns (table: nat)
      requires Valid() && IsDir(pd) && va < PHYS_BASE && (create ==> pd in dirs && Offered(page))
      modifies this`mem
      ensures Valid() && SamePtes() && mem.Keys == old(mem.Keys) + (if table != 0 && old(TableFor'(pd, va)).None?
              then {page} else {})
      ensures table == 0 <==> old(TableFor'(pd, va)).None? && (create ==> page == 0)
      ensures table == 0 ==> mem == old(mem)
      ensures forall w: nat :: w < PHYS_BASE ==>
              (TableFor'(pd, w).Some? <==> old(TableFor'(pd, w)).Some? || (table != 0 && PdNo(w) == PdNo(va)))
      ensures table != 0 ==>
                TableFor'(pd, va) == Some(table) && (!create ==> mem == old(mem)) && pd in dirs
                && table in mem && |mem[table]| == ENTRIES
                && Pte(pd, va) == mem[table][PtNo(va)]
      ensures old(TableFor'(pd, va)).Some? ==> mem == old(mem)
      ensures old(Exclusive()) ==> Exclusive()
    {
      hide Frame, Has, PdNo, PtNo, PdeOk, DirOk, TablesApart;
      TableFacts(pd, va);
      var e := mem[pd][PdNo(va)];
      if e == 0 {
        if !create || page == 0 { return 0; }
        MakeTable(pd, va, page);
        TableFacts(pd, va);
        e := mem[pd][PdNo(va)];
      }
      table := Frame(e);
      KernelPageNotNull(table);
    }

    /** Puts a new page table of zeros into an empty directory entry. */
    method MakeTable(pd: nat, va: nat, page: nat)
      requires Valid() && pd in dirs && va < PHYS_BASE && Offered(page) && page != 0 && TableFor'(pd, va).None?
      modifies this`mem
      ensures Valid() && SamePtes() && mem.Keys == old(mem.Keys) + {page} && TableFor'(pd, va) == Some(page)
      ensures forall w: nat :: w < PHYS_BASE && PdNo(w) != PdNo(va) ==> TableFor'(pd, w) == old(TableFor'(pd, w))
      ensures old(Exclusive()) ==> Exclusive()
    {
      hide Frame, Has, PdNo, PtNo, PdeOk, TablesApart, PdeCreate;
      ghost var was := mem;
      TableFacts(pd, va);
      AddTableInv(mem, dirs, init, pd, PdNo(va), page);
      mem := AddTable(mem, pd, PdNo(va), page);
      PdeBack(page);
      forall w: nat | w < PHYS_BASE && PdNo(w) != PdNo(va) ensures TableFor'(pd, w) == old(TableFor'(pd, w)) {
        Split(w, w);
      }
      forall q, w: nat | IsDir(q) && w < PHYS_BASE ensures Pte(q, w) == PteFor(was, dirs, init, q, w) {
        AddTableMeans(was, dirs, init, pd, PdNo(va), page, q, w);
      }
      if old(Exclusive()) { ApartLess(was, dirs, mem, dirs, init); }
    }

    /** pagedir_set_page for a page that is not mapped: the directory's map gains exactly this page. */
    method SetPage(pd: nat, upage: nat, kpage: nat, writable: bool, page: nat) returns (ok: bool)
      requires Valid() && pd in dirs && upage % PGSIZE == 0 && upage < PHYS_BASE && KernelPage(kpage) && Offered(page)
      requires Map(pd, upage).None?
      modifies this`mem
      ensures Valid() && (!ok ==> SamePtes()) && mem.Keys <= old(mem.Keys) + (if ok then {page} else {})
      ensures ok <==> old(TableFor'(pd, upage)).Some? || page != 0
      ensures ok ==>
                OnePte(pd, upage, PteCreateUser(kpage, writable))
                && Map(pd, upage) == Some(Mapping(kpage, writable, true))
      ensures forall w: nat :: w < PHYS_BASE ==>
              (TableFor'(pd, w).Some? <==> old(TableFor'(pd, w)).Some? || (ok && PdNo(w) == PdNo(upage)))
      ensures forall f :: Mapped(mem, dirs, init, f) ==> old(Mapped(mem, dirs, init, f)) || (ok && f == kpage)
      ensures old(Exclusive()) ==> (Exclusive() <==> !ok || (kpage !in mem && !old(Mapped(mem, dirs, init, kpage))))
    {
      hide Frame, Has, PdNo, PtNo, PdeOk, DirOk, TablesApart, PteCreateUser;
      PtePages(pd, upage);
      var table := LookupPage(pd, upage, true, page);
      ok := table != 0;
      MappedSame(old(mem), mem, dirs, init);
      if ok {
        PteBack(kpage, writable);
        ghost var was := mem;
        WritePte(pd, upage, PteCreateUser(kpage, writable));
        PtePages(pd, upage);
        MappedMore(was, mem, dirs, init, pd, upage, PteCreateUser(kpage, writable));
        if old(Exclusive()) { ApartSet(was, mem, dirs, init, pd, upage, PteCreateUser(kpage, writable)); }
      }
    }

    /** pagedir_get_page: the kernel address of a user byte, or 0 if it is not mapped. */
    method GetPage(pd: nat, uaddr: nat) returns (a: nat)
      requires Valid() && IsDir(pd) && uaddr < PHYS_BASE
      ensures a == match Map(pd, uaddr) case Some(m) => m.frame + uaddr % PGSIZE case None => 0
      ensures a == 0 <==> Map(pd, uaddr).None?
    {
      hide PdNo, PtNo, PdeOk, DirOk, TablesApart, Has;
      TableFacts(pd, uaddr);
      var e := mem[pd][PdNo(uaddr)];
      NoEntry();
      if e == 0 { return 0; }
      var pte := mem[Frame(e)][PtNo(uaddr)];
      a := if Has(pte, PTE_P) then Frame(pte) + uaddr % PGSIZE else 0;
    }

    /** pagedir_clear_page: the directory's map loses exactly this page, and the TLB forgets it. */
    method ClearPage(pd: nat, upage: nat)
      requires Valid() && pd in dirs && upage % PGSIZE == 0 && upage < PHYS_BASE
      modifies this
      ensures Valid() && dirs == old(dirs) && cr3 == old(cr3) && mem.Keys == old(mem.Keys)
      ensures Map(pd, upage).None? && (old(Map(pd, upage)).None? ==> mem == old(mem))
      ensures OnePte(pd, upage, Clear(old(Pte(pd, upage)), PTE_P))
      ensures old(Exclusive()) ==> Exclusive()
    {
      hide Frame, PdNo, PtNo, PdeOk, DirOk, TablesApart;
      var table := LookupPage(pd, upage, false, 0);
      TableFacts(pd, upage);
      if table != 0 && Has(mem[table][PtNo(upage)], PTE_P) {
        WritePte(pd, upage, Clear(mem[table][PtNo(upage)], PTE_P));
        PtePages(pd, upage);
        if old(Exclusive()) { ApartClear(old(mem), mem, dirs, init, pd, upage, Pte(pd, upage)); }
        Invalidate(pd);
      }
    }

    /** pagedir_create: a directory that maps no user page, with the kernel's entries. */
    method Create(page: nat) returns (pd: nat)
      requires Valid() && Offered(page)
      modifies this`mem, this`dirs
      ensures Valid() && pd == page && (pd == 0 ==> mem == old(mem) && dirs == old(dirs))
      ensures pd != 0 ==> dirs == old(dirs) + {pd} && pd !in old(dirs) && mem.Keys == old(mem.Keys) + {pd}
      ensures pd != 0 ==> forall w: nat :: w < PHYS_BASE ==> Map(pd, w).None?
      ensures forall q, w: nat :: q in old(dirs) && w < PHYS_BASE ==> Pte(q, w) == old(Pte(q, w))
      ensures old(Exclusive()) ==> Exclusive()
    {
      hide Frame, Has, PdNo, PtNo, PdeOk, DirOk, TablesApart;
      pd := page;
      if pd == 0 { return; }
      ghost var was, had := mem, dirs;
      AddDirInv(mem, dirs, init, pd);
      mem := mem[pd := mem[init]];
      dirs := dirs + {pd};
      NoEntry();
      forall q, w: nat | IsDir(q) && w < PHYS_BASE
        ensures Pte(q, w) == if q == pd then 0 else PteFor(was, had, init, q, w)
      {
        AddDirMeans(was, had, init, pd, q, w);
      }
      if old(Exclusive()) {
        forall q, w: nat, f | q in dirs && w < PHYS_BASE && MapsTo(mem, dirs, init, q, w, f)
          ensures q in had && MapsTo(was, had, init, q, w, f) && (f in mem ==> f in was)
        {
          assert Pte(q, w) == if q == pd then 0 else PteFor(was, had, init, q, w);
        }
        ApartLess(was, had, mem, dirs, init);
      }
    }

    /** Sets or clears a status bit of a page's entry, if there is a table for it. */
    method SetStatus(pd: nat, vpage: nat, flag: nat, on: bool)
      requires Valid() && pd in dirs && vpage < PHYS_BASE && (flag == PTE_A || flag == PTE_D)
      modifies this
      ensures Valid() && dirs == old(dirs) && cr3 == old(cr3) && mem.Keys == old(mem.Keys)
      ensures old(TableFor'(pd, vpage)).None? ==> mem == old(mem)
      ensures old(TableFor'(pd, vpage)).Some? ==>
                OnePte(pd, vpage, if on then With(old(Pte(pd, vpage)), flag) else Clear(old(Pte(pd, vpage)), flag))
      ensures forall q, w: nat :: IsDir(q) && w < PHYS_BASE ==> Map(q, w) == old(Map(q, w))
      ensures old(Exclusive()) ==> Exclusive()
    {
      hide Frame, Has, PdNo, PtNo, PdeOk, DirOk, TablesApart, With, Clear;
      var table := LookupPage(pd, vpage, false, 0);
      if table == 0 { return; }
      var e := mem[table][PtNo(vpage)];
      StatusBit(e, flag);
      PtePages(pd, vpage);
      var n := if on then With(e, flag) else Clear(e, flag);
      WritePte(pd, vpage, n);
      PtePages(pd, vpage);
      assert SameMapping(e, n);
      assert MappingOf(n) == MappingOf(e);
      forall q, w: nat | IsDir(q) && w < PHYS_BASE ensures Map(q, w) == old(Map(q, w)) { }
      if old(Exclusive()) { StillExclusive(); }
      if on {
        forall v | v in tlb ensures Agrees(tlb[v], Pte(cr3, v * PGSIZE)) { StillAgrees(tlb[v], e, flag); }
      } else {
        Invalidate(pd);
      }
    }

    /** pagedir_set_dirty. */
    method SetDirty(pd: nat, vpage: nat, dirty: bool)
      requires Valid() && pd in dirs && vpage < PHYS_BASE
      modifies this
      ensures Valid() && dirs == old(dirs) && cr3 == old(cr3) && mem.Keys == old(mem.Keys)
      ensures old(TableFor'(pd, vpage)).Some? ==>
                Has(Pte(pd, vpage), PTE_D) == dirty
                && Has(Pte(pd, vpage), PTE_A) == old(Has(Pte(pd, vpage), PTE_A))
      ensures forall q, w: nat :: IsDir(q) && w < PHYS_BASE ==> Map(q, w) == old(Map(q, w))
      ensures old(Exclusive()) ==> Exclusive()
    {
      hide MemInv, Has, Frame, With, Clear, TlbInv;
      StatusBit(Pte(pd, vpage), PTE_D);
      SetStatus(pd, vpage, PTE_D, dirty);
    }

    /** pagedir_set_accessed. */
    method SetAccessed(pd: nat, vpage: nat, accessed: bool)
      requires Valid() && pd in dirs && vpage < PHYS_BASE
      modifies this
      ensures Valid() && dirs == old(dirs) && cr3 == old(cr3) && mem.Keys == old(mem.Keys)
      ensures old(TableFor'(pd, vpage)).Some? ==>
                Has(Pte(pd, vpage), PTE_A) == accessed
                && Has(Pte(pd, vpage), PTE_D) == old(Has(Pte(pd, vpage), PTE_D))
      ensures forall q, w: nat :: IsDir(q) && w < PHYS_BASE ==> Map(q, w) == old(Map(q, w))
      ensures old(Exclusive()) ==> Exclusive()
    {
      hide MemInv, Has, Frame, With, Clear, TlbInv;
      StatusBit(Pte(pd, vpage), PTE_A);
      SetStatus(pd, vpage, PTE_A, accessed);
    }

    /** Two addresses in one page have one entry. */
    lemma PtePages(pd: nat, va: nat)
      requires MemInv(mem, dirs, init) && IsDir(pd) && va < PHYS_BASE
      ensures forall w: nat :: w < PHYS_BASE && w / PGSIZE == va / PGSIZE ==>
              PteFor(mem, dirs, init, pd, w) == Pte(pd, va)
    {
      hide Frame, Has, PdNo, PtNo;
      forall w: nat | w < PHYS_BASE && w / PGSIZE == va / PGSIZE ensures PteFor(mem, dirs, init, pd, w) == Pte(pd, va) {
        Split(va, w);
        TableFacts(pd, va);
        TableFacts(pd, w);
      }
    }

    /** The CPU's access to a user address, through the TLB if it can. Whatever happened before, the access goes
        where the active directory says; a write leaves the page dirty. */
    method Access(va: nat, write: bool) returns (r: Option<nat>)
      requires Valid() && va < PHYS_BASE
      modifies this`mem, this`tlb
      ensures Valid() && mem.Keys == old(mem.Keys) && r == Reached(old(Map(cr3, va)), va, write)
      ensures forall q, w: nat :: IsDir(q) && w < PHYS_BASE ==> Map(q, w) == old(Map(q, w))
      ensures old(Exclusive()) ==> Exclusive()
      ensures r.Some? ==> Has(Pte(cr3, va), PTE_A) && (write ==> Has(Pte(cr3, va), PTE_D))
    {
      hide Frame, Has, PdNo, PtNo, MemInv, PteFor;
      var v := va / PGSIZE;
      if v in tlb && tlb[v].user && tlb[v].accessed && (!write || (tlb[v].writable && tlb[v].dirty)) {
        TlbHit(va);
        return Some(tlb[v].frame + va % PGSIZE);
      }
      r := Walk(va, write);
    }

    /** What the TLB says of a page is what the active directory says. */
    lemma TlbHit(va: nat)
      requires Valid() && va < PHYS_BASE && va / PGSIZE in tlb
      ensures Agrees(tlb[va / PGSIZE], Pte(cr3, va))
    {
      hide Frame, Has, PdNo, PtNo, PdeOk, DirOk, TablesApart;
      var v := va / PGSIZE;
      assert v * PGSIZE / PGSIZE == v;
      PtePages(cr3, va);
    }

    /** A directory entry for user addresses is empty, or lets a user read and write as the table says. */
    lemma WalkFacts(va: nat)
      requires Valid() && va < PHYS_BASE && PdNo(va) < USER_PDES && IsPage(mem, cr3)
      ensures var e := mem[cr3][PdNo(va)];
              if e == 0 then !Has(e, PTE_P) else Has(e, PTE_P) && Has(e, PTE_W) && Has(e, PTE_U)
    {
      if cr3 != init { assert DirOk(mem, dirs, init, cr3) && PdeOk(mem, dirs, init, cr3, PdNo(va)); }
    }

    /** The CPU walks the tables, marks the entry and keeps the translation. */
    method Walk(va: nat, write: bool) returns (r: Option<nat>)
      requires Valid() && va < PHYS_BASE
      modifies this`mem, this`tlb
      ensures Valid() && mem.Keys == old(mem.Keys) && r == Reached(old(Map(cr3, va)), va, write)
      ensures forall q, w: nat :: IsDir(q) && w < PHYS_BASE ==> Map(q, w) == old(Map(q, w))
      ensures old(Exclusive()) ==> Exclusive()
      ensures r.Some? ==> Has(Pte(cr3, va), PTE_A) && (write ==> Has(Pte(cr3, va), PTE_D))
    {
      hide Frame, Has, PdNo, PtNo, PdeOk, DirOk, TablesApart, Touched;
      TableFacts(cr3, va);
      NoEntry();
      var e := mem[cr3][PdNo(va)];
      WalkFacts(va);
      if !Has(e, PTE_P) || !Has(e, PTE_U) || (write && !Has(e, PTE_W)) { return None; }
      var pte := mem[Frame(e)][PtNo(va)];
      if !Has(pte, PTE_P) || !Has(pte, PTE_U) || (write && !Has(pte, PTE_W)) { return None; }
      Touch(va, pte, write);
      Keep(va, Cached(Frame(pte), Has(pte, PTE_W), true, true, Has(Touched(pte, write), PTE_D)));
      r := Some(Frame(pte) + va % PGSIZE);
    }

    /** The TLB gains a translation that agrees with the active directory. */
    method Keep(va: nat, c: Cached)
      requires Valid() && va < PHYS_BASE && Agrees(c, Pte(cr3, va))
      modifies this`tlb
      ensures Valid() && tlb == old(tlb)[va / PGSIZE := c]
    {
      hide Frame, Has, PdNo, PtNo, PdeOk, DirOk, TablesApart;
      var v := va / PGSIZE;
      assert v * PGSIZE / PGSIZE == v && v * PGSIZE <= va;
      PtePages(cr3, va);
      assert Pte(cr3, v * PGSIZE) == Pte(cr3, va);
      tlb := tlb[v := c];
      forall u | u in tlb ensures u * PGSIZE < PHYS_BASE && Agrees(tlb[u], Pte(cr3, u * PGSIZE)) {
        if u != v { assert u in old(tlb); }
      }
    }

    /** The CPU marks the entry it has walked. */
    method Touch(va: nat, pte: nat, write: bool)
      requires Valid() && va < PHYS_BASE && cr3 in dirs && TableFor'(cr3, va).Some? && pte == Pte(cr3, va)
      modifies this`mem
      ensures Valid() && mem.Keys == old(mem.Keys)
      ensures forall q, w: nat :: IsDir(q) && w < PHYS_BASE ==> Map(q, w) == old(Map(q, w))
      ensures old(Exclusive()) ==> Exclusive()
      ensures forall w: nat :: w < PHYS_BASE && w / PGSIZE == va / PGSIZE ==> Pte(cr3, w) == Touched(pte, write)
      ensures SameMapping(pte, Touched(pte, write)) && Has(Touched(pte, write), PTE_A)
              && (write ==> Has(Touched(pte, write), PTE_D))
    {
      hide Frame, Has, PdNo, PtNo, PdeOk, DirOk, TablesApart, Touched;
      PtePages(cr3, va);
      TouchedMeans(pte, write);
      WritePte(cr3, va, Touched(pte, write));
      PtePages(cr3, va);
      forall q, w: nat | IsDir(q) && w < PHYS_BASE ensures Map(q, w) == old(Map(q, w)) { }
      if old(Exclusive()) { StillExclusive(); }
    }

    /** pagedir_destroy's inner loop: the pages that one table maps. */
    method FreeFrames(pd: nat, i: nat, ghost refs: seq<Ref>, freed: seq<nat>)
            returns (ghost refs': seq<Ref>, freed': seq<nat>)
      requires MemInv(mem, dirs, init) && pd in dirs && DirOk(mem, dirs, init, pd) && i < USER_PDES && mem[pd][i] != 0
      requires Listed(mem, pd, refs, freed, i * (ENTRIES + 1))
      ensures Listed(mem, pd, refs', freed', i * (ENTRIES + 1) + ENTRIES)
    {
      hide Has, Frame, Listed, MemInv;
      assert PdeOk(mem, dirs, init, pd, i);
      var t := Frame(mem[pd][i]);
      refs', freed' := refs, freed;
      var j := 0;
      while j < ENTRIES
        invariant j <= ENTRIES && Listed(mem, pd, refs', freed', i * (ENTRIES + 1) + j)
      {
        if Has(mem[t][j], PTE_P) {
          ListNext(mem, pd, refs', freed', FrameRef(i, j));
          refs', freed' := refs' + [FrameRef(i, j)], freed' + [Frame(mem[t][j])];
        } else {
          ListSkip(mem, pd, refs', freed', i * (ENTRIES + 1) + j, i * (ENTRIES + 1) + j + 1);
        }
        j := j + 1;
      }
    }

    /** pagedir_destroy of a directory that is not active: the calls to palloc_free_page, which are one for every
        page that the directory refers to; the other directories keep their maps. */
    method Destroy(pd: nat) returns (freed: seq<nat>, ghost refs: seq<Ref>)
      requires Valid() && pd in dirs && pd != cr3
      modifies this`mem, this`dirs
      ensures old(IsPage(mem, pd)) && Listed(old(mem), pd, refs, freed, Rank(DirRef) + 1)
      ensures Valid() && dirs == old(dirs) - {pd} && pd !in mem
      ensures forall q, w: nat :: IsDir(q) && w < PHYS_BASE ==> Pte(q, w) == old(Pte(q, w))
      ensures old(FramesOnce(mem, pd)) <==> NoDup(freed)
      ensures old(Exclusive()) ==> Exclusive() && NoDup(freed)
    {
      hide Has, Frame, Listed, PdNo, PtNo;
      assert DirOk(mem, dirs, init, pd);
      ghost var was, had := mem, dirs;
      refs, freed := [], [];
      ListNone(mem, pd);
      var gone := {pd};
      var i := 0;
      while i < USER_PDES
        invariant i <= USER_PDES && mem == was && dirs == had && Listed(mem, pd, refs, freed, i * (ENTRIES + 1))
        invariant forall a :: a in gone <==> a == pd || exists k: nat ::
                    k < i && mem[pd][k] != 0
                    && a == Frame(mem[pd][k])
      {
        assert PdeOk(mem, dirs, init, pd, i);
        if Has(mem[pd][i], PTE_P) {
          AbsentIsEmpty(mem[pd][i]);
          refs, freed := FreeFrames(pd, i, refs, freed);
          ListNext(mem, pd, refs, freed, TableRef(i));
          refs, freed := refs + [TableRef(i)], freed + [Frame(mem[pd][i])];
          gone := gone + {Frame(mem[pd][i])};
        } else {
          ListSkip(mem, pd, refs, freed, i * (ENTRIES + 1), (i + 1) * (ENTRIES + 1));
        }
        i := i + 1;
      }
      ListNext(mem, pd, refs, freed, DirRef);
      refs, freed := refs + [DirRef], freed + [pd];
      FreedOnce(mem, dirs, init, pd, refs, freed);
      if Exclusive() { ApartOnce(mem, dirs, init, pd); }
      Forget(pd, gone);
    }

    /** The directory's pages are no longer directory or table. */
    method Forget(pd: nat, gone: set<nat>)
      requires Valid() && pd in dirs && pd != cr3 && IsPage(mem, pd) && DirPages(mem, pd, gone)
      modifies this`mem, this`dirs
      ensures Valid() && dirs == old(dirs) - {pd} && mem == old(mem) - gone
      ensures forall q, w: nat :: IsDir(q) && w < PHYS_BASE ==> Pte(q, w) == old(Pte(q, w))
      ensures old(Exclusive()) ==> Exclusive()
    {
      hide Has, Frame, PdNo, PtNo, DirPages, DirOk, PdeOk, TablesApart;
      ghost var was, had := mem, dirs;
      DropDirInv(mem, dirs, init, pd, gone);
      mem := mem - gone;
      dirs := dirs - {pd};
      forall q, w: nat | IsDir(q) && w < PHYS_BASE ensures Pte(q, w) == PteFor(was, had, init, q, w) {
        DropDirMeans(was, had, init, pd, gone, q, w);
      }
      if old(Exclusive()) { ApartLess(was, had, mem, dirs, init); }
    }
  }

  lemma ListNone(mem: Mem, pd: nat)
    requires IsPage(mem, pd)
    ensures Listed(mem, pd, [], [], 0)
  {
  }

  lemma AbsentIsEmpty(e: nat)
    requires Has(e, PTE_P)
    ensures e != 0
  {
  }

  lemma NoEntry()
    ensures MappingOf(0) == None
  {
  }

  /** Setting a status bit in memory does not outdate a cached translation. */
  lemma StillAgrees(c: Cached, e: nat, flag: nat)
    requires flag == PTE_A || flag == PTE_D
    ensures Agrees(c, e) ==> Agrees(c, With(e, flag))
  {
    hide Has, Frame, With;
    StatusBit(e, flag);
    assert SameMapping(e, With(e, flag));
  }

  /** Where an access to a user address ends up, given the page's mapping. */
  function Reached(m: Option<Mapping>, va: nat, write: bool): (r: Option<nat>) {
    match m
    case Some(x) => if !x.user || (write && !x.writable) then None else Some(x.frame + va % PGSIZE)
    case None => None
  }

  /** The entry after the CPU has used it. */
  function Touched(e: nat, write: bool): (r: nat) {
    if write then With(With(e, PTE_A), PTE_D) else With(e, PTE_A)
  }

  lemma TouchedMeans(e: nat, write: bool)
    ensures var r := Touched(e, write);
            && SameMapping(e, r) && MappingOf(r) == MappingOf(e) && Has(r, PTE_A) && (write ==> Has(r, PTE_D))
            && forall c :: Agrees(c, e) ==> Agrees(c, r)
  {
    hide Has, Frame, With;
    StatusBit(e, PTE_A);
    StatusBit(With(e, PTE_A), PTE_D);
    assert SameMapping(e, With(e, PTE_A)) && SameMapping(With(e, PTE_A), With(With(e, PTE_A), PTE_D));
    forall c | Agrees(c, e) ensures Agrees(c, Touched(e, write)) {
      StillAgrees(c, e, PTE_A);
      StillAgrees(c, With(e, PTE_A), PTE_D);
    }
  }

  lemma KernelPageNotNull(a: nat)
    requires KernelPage(a)
    ensures a != 0
  {
  }
}
