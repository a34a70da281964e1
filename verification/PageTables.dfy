/** Page directories and page tables as words in memory (threads/pte.h, threads/vaddr.h, userprog/pagedir.c). */
module PageTables {
  import opened Basics

  const PTSPAN: nat := 0x40_0000             // bytes covered by one page table
  const ENTRIES: nat := 1024                 // words in a directory or table
  const USER_PDES: nat := 768                // pd_no (PHYS_BASE)
  const PTE_P: nat := 1
  const PTE_W: nat := 2
  const PTE_U: nat := 4
  const PTE_A: nat := 0x20
  const PTE_D: nat := 0x40

  // ---- Addresses and entries ---------------------------------------------------------------------------------------
  // Flags are the bits below 4096, so "or" with a clear flag adds it and "and not" of a set flag takes it away.

  function PdNo(va: nat): (i: nat) { va / PTSPAN }

  function PtNo(va: nat): (i: nat)
    ensures i < ENTRIES
  {
    va / PGSIZE % ENTRIES
  }

  /** A page whose address a directory or table entry can hold: a kernel address of physical memory. */
  predicate KernelPage(a: nat) {
    a % PGSIZE == 0 && PHYS_BASE <= a < WORD
  }

  predicate Has(e: nat, flag: nat)
    requires flag > 0
  {
    e / flag % 2 == 1
  }

  function With(e: nat, flag: nat): (r: nat)
    requires flag > 0
  {
    if Has(e, flag) then e else e + flag
  }

  function Clear(e: nat, flag: nat): (r: nat)
    requires flag > 0
    ensures r <= e
  {
    if Has(e, flag) && flag <= e then e - flag else e
  }

  function Frame(e: nat): (a: nat) {
    e - e % PGSIZE + PHYS_BASE
  }

  function PdeCreate(pt: nat): (e: nat)
    requires KernelPage(pt)
  {
    pt - PHYS_BASE + PTE_U + PTE_P + PTE_W
  }

  function PteCreateUser(page: nat, writable: bool): (e: nat)
    requires KernelPage(page)
  {
    page - PHYS_BASE + PTE_P + (if writable then PTE_W else 0) + PTE_U
  }

  /** The address bits of an entry do not disturb its flags, nor the flags its address. */
  lemma Flags(a: nat, f: nat, flag: nat)
    requires a % PGSIZE == 0 && f < PGSIZE && flag in {PTE_P, PTE_W, PTE_U, PTE_A, PTE_D}
    ensures Has(a + f, flag) == Has(f, flag) && Frame(a + f) == a + PHYS_BASE
  {
    hide Has, Frame;
    var k := a / PGSIZE;
    assert a == PGSIZE * k;
    FrameOf(a, f);
    if flag == PTE_P { Multiple(k * 2048, f, 1); }
    else if flag == PTE_W { Multiple(k * 1024, f, 2); }
    else if flag == PTE_U { Multiple(k * 512, f, 4); }
    else if flag == PTE_A { Multiple(k * 64, f, 32); }
    else { Multiple(k * 32, f, 64); }
  }

  lemma FrameOf(a: nat, f: nat)
    requires a % PGSIZE == 0 && f < PGSIZE
    ensures Frame(a + f) == a + PHYS_BASE
  {
  }

  /** Adding an even multiple of a flag leaves the flag. */
  lemma Multiple(m: nat, f: nat, flag: nat)
    requires flag > 0
    ensures Has(2 * m * flag + f, flag) == Has(f, flag)
  {
    var q, r := f / flag, f % flag;
    assert f == q * flag + r;
    assert 2 * m * flag + f == (2 * m + q) * flag + r;
    RemainderUnique(2 * m * flag + f, flag, 2 * m + q, r);
  }

  lemma PdeBack(pt: nat)
    requires KernelPage(pt)
    ensures Frame(PdeCreate(pt)) == pt && PdeCreate(pt) != 0
    ensures Has(PdeCreate(pt), PTE_P) && Has(PdeCreate(pt), PTE_W) && Has(PdeCreate(pt), PTE_U)
  {
    hide Frame, Has;
    SmallFlags();
    Flags(pt - PHYS_BASE, 7, PTE_P);
    Flags(pt - PHYS_BASE, 7, PTE_W);
    Flags(pt - PHYS_BASE, 7, PTE_U);
  }

  lemma PteBack(page: nat, writable: bool)
    requires KernelPage(page)
    ensures var e := PteCreateUser(page, writable);
            Frame(e) == page && Has(e, PTE_P) && Has(e, PTE_W) == writable && Has(e, PTE_U) && !Has(e, PTE_A)
              && !Has(e, PTE_D)
  {
    hide Frame, Has;
    var a, f := page - PHYS_BASE, if writable then 7 else 5;
    assert PteCreateUser(page, writable) == a + f;
    SmallFlags();
    Flags(a, f, PTE_U);
    AllFlags(a + f, a, f);
  }

  lemma SmallFlags()
    ensures Has(7, PTE_P) && Has(7, PTE_W) && Has(7, PTE_U) && !Has(7, PTE_A) && !Has(7, PTE_D)
    ensures Has(5, PTE_P) && !Has(5, PTE_W) && Has(5, PTE_U) && !Has(5, PTE_A) && !Has(5, PTE_D)
  {
  }

  /** Changing the accessed or dirty bit leaves what the entry maps to, and the other of the two. */
  lemma StatusBit(e: nat, flag: nat)
    requires flag == PTE_A || flag == PTE_D
    ensures forall r :: r == With(e, flag) || r == Clear(e, flag) ==> SameMapping(e, r)
    ensures Has(With(e, flag), flag) && !Has(Clear(e, flag), flag)
    ensures var o := if flag == PTE_A then PTE_D
            else PTE_A; Has(With(e, flag), o) == Has(e, o) == Has(Clear(e, flag), o)
  {
    hide Frame, Has, With, Clear;
    var a, f := e - e % PGSIZE, e % PGSIZE;
    LowStatus(f, flag);
    WithLow(a, f, flag);
    AllFlags(e, a, f);
    AllFlags(With(e, flag), a, With(f, flag));
    AllFlags(Clear(e, flag), a, Clear(f, flag));
  }

  lemma AllFlags(e: nat, a: nat, f: nat)
    requires e == a + f && a % PGSIZE == 0 && f < PGSIZE
    ensures Has(e, PTE_P) == Has(f, PTE_P) && Has(e, PTE_W) == Has(f, PTE_W) && Has(e, PTE_A) == Has(f, PTE_A)
            && Has(e, PTE_D) == Has(f, PTE_D) && Has(e, PTE_U) == Has(f, PTE_U)
    ensures Frame(e) == a + PHYS_BASE
  {
    hide Frame, Has;
    Flags(a, f, PTE_P);
    Flags(a, f, PTE_W);
    Flags(a, f, PTE_U);
    Flags(a, f, PTE_A);
    Flags(a, f, PTE_D);
  }

  predicate SameMapping(e: nat, r: nat) {
    Frame(r) == Frame(e) && Has(r, PTE_P) == Has(e, PTE_P) && Has(r, PTE_W) == Has(e, PTE_W)
      && Has(r, PTE_U) == Has(e, PTE_U)
  }

  lemma WithLow(a: nat, f: nat, flag: nat)
    requires a % PGSIZE == 0 && f < PGSIZE && flag in {PTE_A, PTE_D}
    ensures With(a + f, flag) == a + With(f, flag) && Clear(a + f, flag) == a + Clear(f, flag)
  {
    Flags(a, f, flag);
    if Has(f, flag) { assert f >= flag; }
  }

  /** The same for the flags alone. */
  lemma LowStatus(f: nat, flag: nat)
    requires f < PGSIZE && flag in {PTE_A, PTE_D}
    ensures With(f, flag) < PGSIZE && Clear(f, flag) < PGSIZE && Has(With(f, flag), flag) && !Has(Clear(f, flag), flag)
    ensures forall g :: g in {PTE_P, PTE_W, PTE_U, PTE_A, PTE_D} && g != flag ==>
            Has(With(f, flag), g) == Has(f, g) == Has(Clear(f, flag), g)
  {
    if flag == PTE_A { LowAccessed(f); } else { LowDirty(f); }
  }

  lemma LowAccessed(f: nat)
    requires f < PGSIZE
    ensures With(f, PTE_A) < PGSIZE && Has(With(f, PTE_A), PTE_A) && !Has(Clear(f, PTE_A), PTE_A)
    ensures forall g :: g in {PTE_P, PTE_W, PTE_U, PTE_D} ==>
            Has(With(f, PTE_A), g) == Has(f, g) == Has(Clear(f, PTE_A), g)
  {
    hide Has;
    var h, m, l := f / 64, f / 32 % 2, f % 32;
    assert f == 64 * h + 32 * m + l;
    Digits(h, 0, l);
    Digits(h, 1, l);
  }

  lemma Digits(h: nat, m: nat, l: nat)
    requires m < 2 && l < 32
    ensures var f := 64 * h + 32 * m + l;
              Has(f, PTE_P) == Has(l, PTE_P) && Has(f, PTE_W) == Has(l, PTE_W) && Has(f, PTE_U) == Has(l, PTE_U)
              && Has(f, PTE_A) == (m == 1) && Has(f, PTE_D) == (h % 2 == 1)
  {
    Multiple(32 * h + 16 * m, l, 1);
    Multiple(16 * h + 8 * m, l, 2);
    Multiple(8 * h + 4 * m, l, 4);
    Multiple(h, 32 * m + l, 32);
    RemainderUnique(64 * h + 32 * m + l, 64, h, 32 * m + l);
  }

  lemma LowDirty(f: nat)
    requires f < PGSIZE
    ensures With(f, PTE_D) < PGSIZE && Has(With(f, PTE_D), PTE_D) && !Has(Clear(f, PTE_D), PTE_D)
    ensures forall g :: g in {PTE_P, PTE_W, PTE_U, PTE_A} ==>
            Has(With(f, PTE_D), g) == Has(f, g) == Has(Clear(f, PTE_D), g)
  {
    hide Has;
    var h, m, l := f / 64, f / 32 % 2, f % 32;
    assert f == 64 * h + 32 * m + l;
    Digits(h, m, l);
    Digits(h + 1, m, l);
    if h > 0 { Digits(h - 1, m, l); }
  }

  /** A user address is its directory index, its table index and its offset. */
  lemma Split(va: nat, wa: nat)
    requires va < PHYS_BASE
    ensures PdNo(va) < USER_PDES
    ensures PdNo(va) == PdNo(wa) && PtNo(va) == PtNo(wa) <==> va / PGSIZE == wa / PGSIZE
  {
    assert PdNo(va) == va / PGSIZE / ENTRIES;
    assert PdNo(wa) == wa / PGSIZE / ENTRIES;
  }

  // ---- Directories in memory ----------------------------------------------------------------------------------------

  /** The pages used as directories and tables: their words. */
  type Mem = map<nat, seq<nat>>

  ghost predicate IsPage(mem: Mem, a: nat) {
    KernelPage(a) && a in mem && |mem[a]| == ENTRIES
  }

  /** Entry `i` of a directory is empty, or points to a page table and leaves it to the table who may do what. */
  ghost predicate PdeOk(mem: Mem, dirs: set<nat>, init: nat, pd: nat, i: nat)
    requires IsPage(mem, pd) && i < ENTRIES
  {
    var e := mem[pd][i];
    || e == 0
    || (Has(e, PTE_P) && Has(e, PTE_W) && Has(e, PTE_U)
        && IsPage(mem, Frame(e)) && Frame(e) !in dirs && Frame(e) != init)
  }

  /** The directories: user entries lead to tables, kernel entries are those of init_page_dir. */
  ghost predicate DirOk(mem: Mem, dirs: set<nat>, init: nat, pd: nat) {
    && IsPage(mem, pd) && IsPage(mem, init) && pd != init
    && (forall i: nat :: i < USER_PDES ==> PdeOk(mem, dirs, init, pd, i))
    && (forall i: nat :: USER_PDES <= i < ENTRIES ==> mem[pd][i] == mem[init][i])
  }

  ghost predicate InitOk(mem: Mem, init: nat) {
    IsPage(mem, init) && forall i: nat :: i < USER_PDES ==> mem[init][i] == 0
  }

  /** No table is used twice. */
  ghost predicate TablesApart(mem: Mem, dirs: set<nat>) {
    forall p, q, i: nat, j: nat ::
      (p in dirs && q in dirs && i < USER_PDES && j < USER_PDES && IsPage(mem, p) && IsPage(mem, q)
       && mem[p][i] != 0 && mem[q][j] != 0 && Frame(mem[p][i]) == Frame(mem[q][j]))
      ==> p == q && i == j
  }

  ghost predicate MemInv(mem: Mem, dirs: set<nat>, init: nat) {
    && InitOk(mem, init) && (forall pd :: pd in dirs ==> DirOk(mem, dirs, init, pd)) && TablesApart(mem, dirs)
  }

  /** Where a user address is looked up: its table, if there is one. */
  ghost function TableFor(mem: Mem, pd: nat, va: nat): (t: Option<nat>)
    requires IsPage(mem, pd) && va < PHYS_BASE
  {
    Split(va, va);
    if mem[pd][PdNo(va)] == 0 then None else Some(Frame(mem[pd][PdNo(va)]))
  }

  /** The page table entry for a user address; 0 when there is no table. */
  ghost function PteFor(mem: Mem, dirs: set<nat>, init: nat, pd: nat, va: nat): (e: nat)
    requires MemInv(mem, dirs, init) && (pd in dirs || pd == init) && va < PHYS_BASE
  {
    Split(va, va);
    assert pd != init ==> DirOk(mem, dirs, init, pd) && PdeOk(mem, dirs, init, pd, PdNo(va));
    if mem[pd][PdNo(va)] == 0 then 0 else mem[Frame(mem[pd][PdNo(va)])][PtNo(va)]
  }

  datatype Mapping = Mapping(frame: nat, writable: bool, user: bool)

  function MappingOf(e: nat): (m: Option<Mapping>) {
    if Has(e, PTE_P) then Some(Mapping(Frame(e), Has(e, PTE_W), Has(e, PTE_U))) else None
  }

  /** The map that a directory stands for: user pages to frames. */
  ghost function Translate(mem: Mem, dirs: set<nat>, init: nat, pd: nat, va: nat): (m: Option<Mapping>)
    requires MemInv(mem, dirs, init) && (pd in dirs || pd == init) && va < PHYS_BASE
  {
    MappingOf(PteFor(mem, dirs, init, pd, va))
  }

  // ---- Writing a page table entry -----------------------------------------------------------------------------------

  function SetWord(mem: Mem, page: nat, i: nat, w: nat): (r: Mem)
    requires page in mem && i < |mem[page]|
  {
    var words: seq<nat> := mem[page];
    var changed: seq<nat> := words[i := w];
    mem[page := changed]
  }

  lemma PteWriteInv(mem: Mem, dirs: set<nat>, init: nat, pd: nat, i: nat, j: nat, w: nat)
    requires MemInv(mem, dirs, init) && pd in dirs && i < USER_PDES && j < ENTRIES
    requires DirOk(mem, dirs, init, pd) && mem[pd][i] != 0 && IsPage(mem, Frame(mem[pd][i]))
    ensures MemInv(SetWord(mem, Frame(mem[pd][i]), j, w), dirs, init)
    ensures forall p :: p in dirs || p == init ==> p in mem && SetWord(mem, Frame(mem[pd][i]), j, w)[p] == mem[p]
  {
    hide Frame, Has;
    var t := Frame(mem[pd][i]);
    var r := SetWord(mem, t, j, w);
    assert PdeOk(mem, dirs, init, pd, i);
    forall p | p in dirs ensures DirOk(r, dirs, init, p) && p in mem && r[p] == mem[p] {
      assert DirOk(mem, dirs, init, p);
      forall k: nat | k < USER_PDES ensures PdeOk(r, dirs, init, p, k) { assert PdeOk(mem, dirs, init, p, k); }
    }
  }

  /** Writing a page table entry changes what one page of one directory maps to. */
  lemma PteWriteMeans(mem: Mem, dirs: set<nat>, init: nat, pd: nat, va: nat, w: nat, qd: nat, wa: nat)
    requires MemInv(mem, dirs, init) && pd in dirs && va < PHYS_BASE && PdNo(va) < USER_PDES
    requires DirOk(mem, dirs, init, pd) && mem[pd][PdNo(va)] != 0 && IsPage(mem, Frame(mem[pd][PdNo(va)]))
    requires (qd in dirs || qd == init) && wa < PHYS_BASE
    requires MemInv(SetWord(mem, Frame(mem[pd][PdNo(va)]), PtNo(va), w), dirs, init)
    ensures PteFor(SetWord(mem, Frame(mem[pd][PdNo(va)]), PtNo(va), w), dirs, init, qd, wa)
            == if qd == pd && wa / PGSIZE == va / PGSIZE then w else PteFor(mem, dirs, init, qd, wa)
  {
    hide Frame, Has, PdNo, PtNo;
    var t := Frame(mem[pd][PdNo(va)]);
    PteWriteInv(mem, dirs, init, pd, PdNo(va), PtNo(va), w);
    Split(va, wa);
    Split(wa, va);
    if qd in dirs {
      assert DirOk(mem, dirs, init, qd) && PdeOk(mem, dirs, init, qd, PdNo(wa));
    }
  }

  // ---- A new page table ---------------------------------------------------------------------------------------------

  function AddTable(mem: Mem, pd: nat, i: nat, t: nat): (r: Mem)
    requires pd in mem && i < |mem[pd]| && KernelPage(t) && t != pd
  {
    SetWord(mem[t := seq(ENTRIES, _ => 0)], pd, i, PdeCreate(t))
  }

  lemma AddTableInv(mem: Mem, dirs: set<nat>, init: nat, pd: nat, i: nat, t: nat)
    requires MemInv(mem, dirs, init) && pd in dirs && i < USER_PDES && KernelPage(t) && t !in mem
    requires DirOk(mem, dirs, init, pd) && mem[pd][i] == 0
    ensures MemInv(AddTable(mem, pd, i, t), dirs, init)
  {
    hide Frame, Has, PdeCreate;
    var r := AddTable(mem, pd, i, t);
    PdeBack(t);
    assert forall p :: p in dirs ==> DirOk(mem, dirs, init, p);
    forall p | p in dirs ensures DirOk(r, dirs, init, p) {
      forall k: nat | k < USER_PDES ensures PdeOk(r, dirs, init, p, k) { assert PdeOk(mem, dirs, init, p, k); }
    }
    AddTableApart(mem, dirs, init, pd, i, t);
  }

  lemma AddTableApart(mem: Mem, dirs: set<nat>, init: nat, pd: nat, i: nat, t: nat)
    requires MemInv(mem, dirs, init) && pd in dirs && i < USER_PDES && KernelPage(t) && t !in mem
    requires DirOk(mem, dirs, init, pd) && mem[pd][i] == 0
    ensures TablesApart(AddTable(mem, pd, i, t), dirs)
  {
    hide Frame, Has, PdeCreate;
    var r := AddTable(mem, pd, i, t);
    PdeBack(t);
    forall p, q, k: nat, l: nat | p in dirs && q in dirs && k < USER_PDES && l < USER_PDES && IsPage(r, p)
      && IsPage(r, q)
        && r[p][k] != 0 && r[q][l] != 0 && Frame(r[p][k]) == Frame(r[q][l])
      ensures p == q && k == l
    {
      assert DirOk(mem, dirs, init, p) && PdeOk(mem, dirs, init, p, k);
      assert DirOk(mem, dirs, init, q) && PdeOk(mem, dirs, init, q, l);
    }
  }

  /** A new, empty table maps nothing. */
  lemma AddTableMeans(mem: Mem, dirs: set<nat>, init: nat, pd: nat, i: nat, t: nat, qd: nat, wa: nat)
    requires MemInv(mem, dirs, init) && pd in dirs && i < USER_PDES && KernelPage(t) && t !in mem
    requires DirOk(mem, dirs, init, pd) && mem[pd][i] == 0 && MemInv(AddTable(mem, pd, i, t), dirs, init)
    requires (qd in dirs || qd == init) && wa < PHYS_BASE
    ensures PteFor(AddTable(mem, pd, i, t), dirs, init, qd, wa) == PteFor(mem, dirs, init, qd, wa)
  {
    hide Frame, Has, PdeCreate, PdNo, PtNo;
    PdeBack(t);
    Split(wa, wa);
    if qd in dirs {
      assert DirOk(mem, dirs, init, qd) && PdeOk(mem, dirs, init, qd, PdNo(wa));
    }
  }

  // ---- A new directory ----------------------------------------------------------------------------------------------

  lemma AddDirInv(mem: Mem, dirs: set<nat>, init: nat, pd: nat)
    requires MemInv(mem, dirs, init) && KernelPage(pd) && pd !in mem
    ensures pd !in dirs && MemInv(mem[pd := mem[init]], dirs + {pd}, init)
  {
    hide Frame, Has;
    var r, all := mem[pd := mem[init]], dirs + {pd};
    forall p | p in dirs ensures DirOk(mem, dirs, init, p) { }
    forall p | p in all ensures DirOk(r, all, init, p) {
      forall k: nat | k < USER_PDES ensures PdeOk(r, all, init, p, k) {
        if p != pd { assert PdeOk(mem, dirs, init, p, k); }
      }
    }
  }

  /** A new directory maps nothing, and takes nothing from the others. */
  lemma AddDirMeans(mem: Mem, dirs: set<nat>, init: nat, pd: nat, qd: nat, wa: nat)
    requires MemInv(mem, dirs, init) && KernelPage(pd) && pd !in mem && MemInv(mem[pd := mem[init]], dirs + {pd}, init)
    requires (qd in dirs + {pd} || qd == init) && wa < PHYS_BASE
    ensures PteFor(mem[pd := mem[init]], dirs + {pd}, init, qd, wa) ==
              if qd == pd then 0 else PteFor(mem, dirs, init, qd, wa)
  {
    hide Frame, Has, PdNo, PtNo;
    Split(wa, wa);
    if qd in dirs {
      assert DirOk(mem, dirs, init, qd) && PdeOk(mem, dirs, init, qd, PdNo(wa));
    }
  }

  // ---- The end of a directory ---------------------------------------------------------------------------------------

  /** `gone` is the directory and its tables. */
  ghost predicate DirPages(mem: Mem, pd: nat, gone: set<nat>)
    requires IsPage(mem, pd)
  {
    forall a :: a in gone <==> a == pd || exists i: nat :: i < USER_PDES && mem[pd][i] != 0 && a == Frame(mem[pd][i])
  }

  lemma NotGone(mem: Mem, dirs: set<nat>, init: nat, pd: nat, gone: set<nat>, p: nat, k: nat)
    requires MemInv(mem, dirs, init) && pd in dirs && IsPage(mem, pd) && DirPages(mem, pd, gone)
    requires p in dirs && p != pd && k < USER_PDES
    ensures init !in gone && p !in gone && IsPage(mem, p)
            && (mem[p][k] != 0 ==> IsPage(mem, Frame(mem[p][k])) && Frame(mem[p][k]) !in gone)
  {
    hide Frame, Has;
    assert DirOk(mem, dirs, init, p) && DirOk(mem, dirs, init, pd) && PdeOk(mem, dirs, init, p, k);
    forall i: nat | i < USER_PDES && mem[pd][i] != 0 ensures Frame(mem[pd][i]) !in dirs && Frame(mem[pd][i]) != init {
      assert PdeOk(mem, dirs, init, pd, i);
    }
  }

  lemma DropDirInv(mem: Mem, dirs: set<nat>, init: nat, pd: nat, gone: set<nat>)
    requires MemInv(mem, dirs, init) && pd in dirs && IsPage(mem, pd) && DirPages(mem, pd, gone)
    ensures MemInv(mem - gone, dirs - {pd}, init)
  {
    hide Frame, Has, DirPages;
    var r, rest := mem - gone, dirs - {pd};
    assert DirOk(mem, dirs, init, pd);
    InitNotGone(mem, dirs, init, pd, gone);
    forall p | p in rest ensures DirOk(r, rest, init, p) {
      assert DirOk(mem, dirs, init, p);
      NotGone(mem, dirs, init, pd, gone, p, 0);
      forall k: nat | k < USER_PDES ensures PdeOk(r, rest, init, p, k) {
        NotGone(mem, dirs, init, pd, gone, p, k);
        assert PdeOk(mem, dirs, init, p, k);
      }
    }
  }

  lemma InitNotGone(mem: Mem, dirs: set<nat>, init: nat, pd: nat, gone: set<nat>)
    requires MemInv(mem, dirs, init) && pd in dirs && IsPage(mem, pd) && DirPages(mem, pd, gone)
    ensures init !in gone
  {
    hide Frame, Has;
    assert DirOk(mem, dirs, init, pd);
    forall i: nat | i < USER_PDES && mem[pd][i] != 0 ensures Frame(mem[pd][i]) !in dirs && Frame(mem[pd][i]) != init {
      assert PdeOk(mem, dirs, init, pd, i);
    }
  }

  /** The other directories do not notice. */
  lemma DropDirMeans(mem: Mem, dirs: set<nat>, init: nat, pd: nat, gone: set<nat>, qd: nat, wa: nat)
    requires MemInv(mem, dirs, init) && pd in dirs && IsPage(mem, pd) && DirPages(mem, pd, gone)
             && MemInv(mem - gone, dirs - {pd}, init)
    requires (qd in dirs - {pd} || qd == init) && wa < PHYS_BASE
    ensures PteFor(mem - gone, dirs - {pd}, init, qd, wa) == PteFor(mem, dirs, init, qd, wa)
  {
    hide Frame, Has, PdNo, PtNo, DirPages;
    Split(wa, wa);
    InitNotGone(mem, dirs, init, pd, gone);
    if qd in dirs {
      NotGone(mem, dirs, init, pd, gone, qd, PdNo(wa));
    }
  }

  // ---- What a directory refers to -----------------------------------------------------------------------------------

  datatype Ref = FrameRef(i: nat, j: nat) | TableRef(i: nat) | DirRef

  /** The order in which pagedir_destroy comes to them. */
  function Rank(r: Ref): (n: nat) {
    match r
    case FrameRef(i, j) => i * (ENTRIES + 1) + j
    case TableRef(i) => i * (ENTRIES + 1) + ENTRIES
    case DirRef => USER_PDES * (ENTRIES + 1)
  }

  ghost predicate IsRef(mem: Mem, pd: nat, r: Ref)
    requires IsPage(mem, pd)
  {
    match r
    case FrameRef(i, j) => i < USER_PDES && j < ENTRIES && mem[pd][i] != 0 && IsPage(mem, Frame(mem[pd][i]))
      && Has(mem[Frame(mem[pd][i])][j], PTE_P)
    case TableRef(i) => i < USER_PDES && mem[pd][i] != 0
    case DirRef => true
  }

  ghost function PageOf(mem: Mem, pd: nat, r: Ref): (a: nat)
    requires IsPage(mem, pd) && IsRef(mem, pd, r)
  {
    match r
    case FrameRef(i, j) => Frame(mem[Frame(mem[pd][i])][j])
    case TableRef(i) => Frame(mem[pd][i])
    case DirRef => pd
  }

  /** Each page mapped is mapped once, and is not used as a table. */
  ghost predicate FramesOnce(mem: Mem, pd: nat)
    requires IsPage(mem, pd)
  {
    forall r, s ::
      (IsRef(mem, pd, r) && IsRef(mem, pd, s) && (r.FrameRef? || s.FrameRef?)
       && PageOf(mem, pd, r) == PageOf(mem, pd, s)) ==> r == s
  }

  /** No two references are to the same page. */
  lemma RefsApart(mem: Mem, dirs: set<nat>, init: nat, pd: nat, r: Ref, s: Ref)
    requires MemInv(mem, dirs, init) && pd in dirs && IsPage(mem, pd) && FramesOnce(mem, pd)
    requires IsRef(mem, pd, r) && IsRef(mem, pd, s) && PageOf(mem, pd, r) == PageOf(mem, pd, s)
    ensures r == s
  {
    hide Frame, Has;
    assert DirOk(mem, dirs, init, pd);
    forall i: nat | i < USER_PDES && mem[pd][i] != 0 ensures Frame(mem[pd][i]) !in dirs && Frame(mem[pd][i]) != init {
      assert PdeOk(mem, dirs, init, pd, i);
    }
  }

  /** `freed` are the pages of the references of rank below `bound`, in order, all of them. */
  ghost predicate Listed(mem: Mem, pd: nat, refs: seq<Ref>, freed: seq<nat>, bound: nat)
    requires IsPage(mem, pd)
  {
    && |refs| == |freed|
    && (forall k :: 0 <= k < |refs| ==>
         IsRef(mem, pd, refs[k]) && freed[k] == PageOf(mem, pd, refs[k])
         && Rank(refs[k]) < bound)
    && (forall k, l :: 0 <= k < l < |refs| ==> Rank(refs[k]) < Rank(refs[l]))
    && (forall r :: IsRef(mem, pd, r) && Rank(r) < bound ==> r in refs)
  }

  lemma RankUnique(mem: Mem, pd: nat, r: Ref, s: Ref)
    requires IsPage(mem, pd) && IsRef(mem, pd, r) && IsRef(mem, pd, s) && Rank(r) == Rank(s)
    ensures r == s
  {
  }

  lemma ListNext(mem: Mem, pd: nat, refs: seq<Ref>, freed: seq<nat>, r: Ref)
    requires IsPage(mem, pd) && Listed(mem, pd, refs, freed, Rank(r)) && IsRef(mem, pd, r)
    ensures Listed(mem, pd, refs + [r], freed + [PageOf(mem, pd, r)], Rank(r) + 1)
  {
    hide Rank, IsRef, PageOf;
    forall s | IsRef(mem, pd, s) && Rank(s) < Rank(r) + 1 ensures s in refs + [r] {
      if Rank(s) == Rank(r) { RankUnique(mem, pd, r, s); }
    }
  }

  lemma ListSkip(mem: Mem, pd: nat, refs: seq<Ref>, freed: seq<nat>, bound: nat, bound': nat)
    requires IsPage(mem, pd) && Listed(mem, pd, refs, freed, bound) && bound <= bound'
    requires forall r :: IsRef(mem, pd, r) ==> Rank(r) < bound || bound' <= Rank(r)
    ensures Listed(mem, pd, refs, freed, bound')
  {
  }

  /** No page is freed twice, exactly when each page mapped is mapped once. */
  lemma FreedOnce(mem: Mem, dirs: set<nat>, init: nat, pd: nat, refs: seq<Ref>, freed: seq<nat>)
    requires MemInv(mem, dirs, init) && pd in dirs && IsPage(mem, pd) && Listed(mem, pd, refs, freed, Rank(DirRef) + 1)
    ensures FramesOnce(mem, pd) <==> NoDup(freed)
  {
    hide MemInv, IsRef, PageOf;
    if FramesOnce(mem, pd) {
      forall k, l | 0 <= k < l < |freed| ensures freed[k] != freed[l] {
        if freed[k] == freed[l] { RefsApart(mem, dirs, init, pd, refs[k], refs[l]); }
      }
    } else {
      var r, s :| IsRef(mem, pd, r) && IsRef(mem, pd, s) && PageOf(mem, pd, r) == PageOf(mem, pd, s) && r != s;
      RefListed(mem, pd, refs, freed, r);
      RefListed(mem, pd, refs, freed, s);
    }
  }

  lemma RefListed(mem: Mem, pd: nat, refs: seq<Ref>, freed: seq<nat>, r: Ref)
    requires IsPage(mem, pd) && IsRef(mem, pd, r) && Listed(mem, pd, refs, freed, Rank(DirRef) + 1)
    ensures exists k :: 0 <= k < |refs| && refs[k] == r && freed[k] == PageOf(mem, pd, r)
  {
    assert Rank(r) < Rank(DirRef) + 1;
    assert r in refs;
  }

  // ---- Frames mapped once -------------------------------------------------------------------------------------------

  /** Some process has the page mapped. */
  ghost predicate Mapped(mem: Mem, dirs: set<nat>, init: nat, page: nat)
    requires MemInv(mem, dirs, init)
  {
    exists q, w: nat :: q in dirs && w < PHYS_BASE && MapsTo(mem, dirs, init, q, w, page)
  }

  ghost predicate MapsTo(mem: Mem, dirs: set<nat>, init: nat, pd: nat, va: nat, page: nat)
    requires MemInv(mem, dirs, init) && (pd in dirs || pd == init) && va < PHYS_BASE
  {
    var m := Translate(mem, dirs, init, pd, va);
    m.Some? && m.value.frame == page
  }

  /** No frame is mapped twice, in one process or in two, and none is a directory or table. */
  ghost predicate FramesApart(mem: Mem, dirs: set<nat>, init: nat)
    requires MemInv(mem, dirs, init)
  {
    && (forall q, w: nat, f :: q in dirs && w < PHYS_BASE && MapsTo(mem, dirs, init, q, w, f) ==> f !in mem)
    && (forall q, w: nat, r, v: nat, f ::
          q in dirs && r in dirs && w < PHYS_BASE && v < PHYS_BASE && MapsTo(mem, dirs, init, q, w, f)
            && MapsTo(mem, dirs, init, r, v, f)
          ==> q == r && w / PGSIZE == v / PGSIZE)
  }

  /** What is mapped afterwards was mapped before, to a page that did not become a directory or table. */
  lemma ApartLess(mem: Mem, dirs: set<nat>, mem': Mem, dirs': set<nat>, init: nat)
    requires MemInv(mem, dirs, init) && MemInv(mem', dirs', init) && FramesApart(mem, dirs, init)
    requires forall q, w: nat, f :: q in dirs' && w < PHYS_BASE && MapsTo(mem', dirs', init, q, w, f) ==>
               q in dirs && MapsTo(mem, dirs, init, q, w, f) && (f in mem' ==> f in mem)
    ensures FramesApart(mem', dirs', init)
  {
    hide MemInv, MapsTo;
  }

  /** Mapping one more page keeps this exactly when the frame was not in use. */
  lemma ApartMore(mem: Mem, mem': Mem, dirs: set<nat>, init: nat, pd: nat, va: nat, frame: nat)
    requires MemInv(mem, dirs, init) && MemInv(mem', dirs, init) && FramesApart(mem, dirs, init) && pd in dirs
             && va < PHYS_BASE
    requires forall w: nat, f :: w < PHYS_BASE && w / PGSIZE == va / PGSIZE ==>
               !MapsTo(mem, dirs, init, pd, w, f) && (MapsTo(mem', dirs, init, pd, w, f) <==> f == frame)
    requires forall q, w: nat, f :: q in dirs && w < PHYS_BASE && !(q == pd && w / PGSIZE == va / PGSIZE) ==>
               (MapsTo(mem', dirs, init, q, w, f) <==> MapsTo(mem, dirs, init, q, w, f))
    requires forall q, w: nat, f :: q in dirs && w < PHYS_BASE && MapsTo(mem, dirs, init, q, w, f) ==> f !in mem'
    ensures FramesApart(mem', dirs, init) <==> frame !in mem' && !Mapped(mem, dirs, init, frame)
  {
    hide MemInv, MapsTo;
    assert MapsTo(mem', dirs, init, pd, va, frame);
    if q, w: nat :| q in dirs && w < PHYS_BASE && MapsTo(mem, dirs, init, q, w, frame) {
      assert MapsTo(mem', dirs, init, q, w, frame);
    }
  }

  /** One page's entry is another one; all others are those of before. */
  ghost predicate PteChange(mem: Mem, mem': Mem, dirs: set<nat>, init: nat, pd: nat, va: nat, e: nat)
    requires MemInv(mem, dirs, init) && MemInv(mem', dirs, init) && pd in dirs && va < PHYS_BASE
  {
    && mem'.Keys == mem.Keys && (forall w: nat :: w < PHYS_BASE && w / PGSIZE == va / PGSIZE ==>
       PteFor(mem', dirs, init, pd, w) == e)
    && forall q, w: nat :: q in dirs && w < PHYS_BASE && !(q == pd && w / PGSIZE == va / PGSIZE) ==>
         PteFor(mem', dirs, init, q, w) == PteFor(mem, dirs, init, q, w)
  }

  lemma ApartSet(mem: Mem, mem': Mem, dirs: set<nat>, init: nat, pd: nat, va: nat, e: nat)
    requires MemInv(mem, dirs, init) && MemInv(mem', dirs, init) && pd in dirs && va < PHYS_BASE
             && FramesApart(mem, dirs, init)
    requires PteChange(mem, mem', dirs, init, pd, va, e) && Has(e, PTE_P)
    requires forall w: nat :: w < PHYS_BASE && w / PGSIZE == va / PGSIZE ==> Translate(mem, dirs, init, pd, w).None?
    ensures FramesApart(mem', dirs, init) <==> Frame(e) !in mem' && !Mapped(mem, dirs, init, Frame(e))
  {
    hide MemInv, PteFor, Has, Frame;
    assert forall w: nat, f :: w < PHYS_BASE && w / PGSIZE == va / PGSIZE ==>
           (MapsTo(mem', dirs, init, pd, w, f) <==> f == Frame(e));
    ApartMore(mem, mem', dirs, init, pd, va, Frame(e));
  }

  lemma ApartClear(mem: Mem, mem': Mem, dirs: set<nat>, init: nat, pd: nat, va: nat, e: nat)
    requires MemInv(mem, dirs, init) && MemInv(mem', dirs, init) && pd in dirs && va < PHYS_BASE
             && FramesApart(mem, dirs, init)
    requires PteChange(mem, mem', dirs, init, pd, va, e) && !Has(e, PTE_P)
    ensures FramesApart(mem', dirs, init)
  {
    hide MemInv, PteFor, Has, Frame, FramesApart;
    ApartLess(mem, dirs, mem', dirs, init);
  }

  lemma MappedMore(mem: Mem, mem': Mem, dirs: set<nat>, init: nat, pd: nat, va: nat, e: nat)
    requires MemInv(mem, dirs, init) && MemInv(mem', dirs, init) && pd in dirs && va < PHYS_BASE
    requires PteChange(mem, mem', dirs, init, pd, va, e)
    ensures forall f :: Mapped(mem', dirs, init, f) ==> Mapped(mem, dirs, init, f) || f == Frame(e)
  {
    hide MemInv, PteFor, Has, Frame;
    forall f | Mapped(mem', dirs, init, f) ensures Mapped(mem, dirs, init, f) || f == Frame(e) {
      var q, w: nat :| q in dirs && w < PHYS_BASE && MapsTo(mem', dirs, init, q, w, f);
      assert !(q == pd && w / PGSIZE == va / PGSIZE) ==> MapsTo(mem, dirs, init, q, w, f);
    }
  }

  lemma MappedSame(mem: Mem, mem': Mem, dirs: set<nat>, init: nat)
    requires MemInv(mem, dirs, init) && MemInv(mem', dirs, init)
    requires forall q, w: nat :: q in dirs && w < PHYS_BASE ==>
             PteFor(mem', dirs, init, q, w) == PteFor(mem, dirs, init, q, w)
    ensures forall f :: Mapped(mem', dirs, init, f) <==> Mapped(mem, dirs, init, f)
  {
    hide MemInv, PteFor, MappingOf;
    assert forall f, q, w: nat :: q in dirs && w < PHYS_BASE ==>
           (MapsTo(mem', dirs, init, q, w, f) <==> MapsTo(mem, dirs, init, q, w, f));
  }

  /** The address of a table entry's page. */
  lemma AddressOf(i: nat, j: nat) returns (va: nat)
    requires i < USER_PDES && j < ENTRIES
    ensures va < PHYS_BASE && PdNo(va) == i && PtNo(va) == j
  {
    va := i * PTSPAN + j * PGSIZE;
    assert va / PGSIZE == i * ENTRIES + j;
    assert va / PTSPAN == va / PGSIZE / ENTRIES;
  }

  lemma FrameRefMaps(mem: Mem, dirs: set<nat>, init: nat, pd: nat, r: Ref) returns (va: nat)
    requires MemInv(mem, dirs, init) && pd in dirs && IsPage(mem, pd) && r.FrameRef? && IsRef(mem, pd, r)
    ensures va < PHYS_BASE && MapsTo(mem, dirs, init, pd, va, PageOf(mem, pd, r)) && PdNo(va) == r.i && PtNo(va) == r.j
  {
    hide Has, Frame, PdNo, PtNo;
    va := AddressOf(r.i, r.j);
    assert DirOk(mem, dirs, init, pd);
  }

  /** So a directory that is destroyed has each of its pages once. */
  lemma ApartOnce(mem: Mem, dirs: set<nat>, init: nat, pd: nat)
    requires MemInv(mem, dirs, init) && pd in dirs && FramesApart(mem, dirs, init)
    ensures IsPage(mem, pd) && FramesOnce(mem, pd)
  {
    hide Has, Frame, PdNo, PtNo, MapsTo, FramesOnce;
    assert DirOk(mem, dirs, init, pd);
    forall r, s | IsRef(mem, pd, r) && IsRef(mem, pd, s) && r.FrameRef? && PageOf(mem, pd, r) == PageOf(mem, pd, s)
      ensures r == s
    {
      RefApart(mem, dirs, init, pd, r, s);
    }
    OnceFromOneSide(mem, pd);
  }

  lemma OnceFromOneSide(mem: Mem, pd: nat)
    requires IsPage(mem, pd)
    requires forall r, s ::
               (IsRef(mem, pd, r) && IsRef(mem, pd, s) && r.FrameRef?
                && PageOf(mem, pd, r) == PageOf(mem, pd, s)) ==> r == s
    ensures FramesOnce(mem, pd)
  {
    hide IsRef, PageOf;
  }

  lemma RefApart(mem: Mem, dirs: set<nat>, init: nat, pd: nat, r: Ref, s: Ref)
    requires MemInv(mem, dirs, init) && pd in dirs && FramesApart(mem, dirs, init) && IsPage(mem, pd)
    requires IsRef(mem, pd, r) && IsRef(mem, pd, s) && r.FrameRef? && PageOf(mem, pd, r) == PageOf(mem, pd, s)
    ensures r == s
  {
    hide Has, Frame, PdNo, PtNo, MapsTo;
    assert DirOk(mem, dirs, init, pd);
    if s.TableRef? { assert PdeOk(mem, dirs, init, pd, s.i); }
    var va := FrameRefMaps(mem, dirs, init, pd, r);
    if s.FrameRef? {
      var wa := FrameRefMaps(mem, dirs, init, pd, s);
      Split(va, wa);
    }
  }
}
