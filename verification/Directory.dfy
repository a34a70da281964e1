/** Directory entries as bytes, and what a list of entries means (filesys/directory.c). */
module DirEntries {
  import opened Disk

  const ENTRY: nat := 20         // sizeof (struct dir_entry)
  const NAME_MAX: nat := 14

  /** A file name as a C string: without its terminating null. */
  type Name = seq<Byte>

  /** One entry as it lies on the disk: 4 bytes of sector number, 15 of name, 1 of in_use. */
  type Raw = r: seq<Byte> | |r| == 20 witness seq(20, _ => 0)

  /** A C string: the bytes before the first null. */
  function CStr(s: seq<Byte>): (r: Name) {
    if s == [] || s[0] == 0 then [] else [s[0]] + CStr(s[1..])
  }

  function NameOf(r: Raw): (n: Name) {
    CStr(r[4..19])
  }

  predicate InUse(r: Raw) {
    r[19] != 0
  }

  function SectorOf(r: Raw): (s: nat) {
    WordAt(r, 0)
  }

  predicate ValidName(n: Name) {
    1 <= |n| <= NAME_MAX && 0 !in n
  }

  /** The entry that dir_add writes: `r` is what the entry variable held before. */
  function NewEntry(r: Raw, n: Name, s: nat): (e: Raw)
    requires ValidName(n) && s < 0x1_0000_0000
  {
    WordBytes(s) + (n + [0] + r[4 + |n| + 1..19]) + [1]
  }

  /** The entry that dir_remove writes. */
  function Erased(r: Raw): (e: Raw) {
    r[..19] + [0]
  }

  lemma {:induction false} CStrOf(n: seq<Byte>, rest: seq<Byte>)
    requires 0 !in n
    ensures CStr(n + [0] + rest) == n
  {
    var s := n + [0] + rest;
    if n != [] {
      assert n[0] in n;
      CStrOf(n[1..], rest);
      assert s[1..] == n[1..] + [0] + rest;
    }
  }

  lemma NewEntryMeans(r: Raw, n: Name, s: nat)
    requires ValidName(n) && s < 0x1_0000_0000
    ensures var e := NewEntry(r, n, s); InUse(e) && NameOf(e) == n && SectorOf(e) == s
  {
    var e, tail := NewEntry(r, n, s), n + [0] + r[4 + |n| + 1..19];
    assert e[4..19] == tail;
    CStrOf(n, r[4 + |n| + 1..19]);
    WordBack(s, [], tail + [1]);
    assert e == [] + WordBytes(s) + (tail + [1]);
  }

  // ---- A directory as a list of entries ---------------------------------------------------------------------------

  /** dir_add accepts exactly the names that an entry can hold with their null, but the empty one. */
  lemma NamesThatFit(n: Name)
    ensures ValidName(n) <==> n != [] && exists r: Raw :: Holds(r, n)
  {
    hide Holds;
    if ValidName(n) { var r := HolderOf(n); }
    if r: Raw :| Holds(r, n) { HeldName(r, n); }
  }

  /** The entry has the name, with a null behind it. */
  predicate Holds(r: Raw, n: Name) {
    NameOf(r) == n && r[18] == 0
  }

  lemma HolderOf(n: Name) returns (r: Raw)
    requires ValidName(n)
    ensures Holds(r, n)
  {
    hide WordBytes, NameOf;
    var z: Raw := seq(20, _ => 0);
    r := NewEntry(z, n, 0);
    NewEntryMeans(z, n, 0);
  }

  lemma HeldName(r: Raw, n: Name)
    requires Holds(r, n)
    ensures 0 !in n && |n| <= 14
  {
    hide CStr;
    assert r[4..19][14] == r[18];
    CStrFacts(r[4..19], 14);
  }

  lemma {:induction false} CStrFacts(s: seq<Byte>, i: nat)
    requires i < |s| && s[i] == 0
    ensures 0 !in CStr(s) && |CStr(s)| <= i
  {
    if s[0] != 0 { CStrFacts(s[1..], i - 1); }
  }

  predicate UsedBy(r: Raw, n: Name) {
    InUse(r) && NameOf(r) == n
  }

  /** Used names occur once. */
  ghost predicate Unique(es: seq<Raw>) {
    forall j, k :: 0 <= j < k < |es| && InUse(es[j]) && InUse(es[k]) ==> NameOf(es[j]) != NameOf(es[k])
  }

  /** The map that a list of entries stands for. */
  ghost function Table(es: seq<Raw>): (m: map<Name, nat>) {
    if es == [] then map[]
    else if InUse(es[0]) then Table(es[1..])[NameOf(es[0]) := SectorOf(es[0])]
    else Table(es[1..])
  }

  lemma {:induction false} TableHas(es: seq<Raw>, k: nat)
    requires Unique(es) && k < |es| && InUse(es[k])
    ensures NameOf(es[k]) in Table(es) && Table(es)[NameOf(es[k])] == SectorOf(es[k])
  {
    if k > 0 {
      assert es[1..][k - 1] == es[k];
      TableHas(es[1..], k - 1);
    }
  }

  lemma {:induction false} TableWhere(es: seq<Raw>, n: Name) returns (k: nat)
    requires n in Table(es)
    ensures k < |es| && UsedBy(es[k], n)
  {
    if UsedBy(es[0], n) {
      k := 0;
    } else {
      var j := TableWhere(es[1..], n);
      k := j + 1;
    }
  }

  ghost predicate NoOther(es: seq<Raw>, slot: nat, n: Name) {
    forall j :: 0 <= j < |es| && j != slot ==> !UsedBy(es[j], n)
  }

  /** Writing entry `e` for `n` at `slot` keeps names unique exactly when no other slot holds that name. */
  lemma UniqueAfter(es: seq<Raw>, slot: nat, e: Raw)
    requires Unique(es) && slot < |es| && InUse(e)
    ensures Unique(es[slot := e]) <==> NoOther(es, slot, NameOf(e))
  {
    var r := es[slot := e];
    if Unique(r) {
      forall j | 0 <= j < |es| && j != slot ensures !UsedBy(es[j], NameOf(e)) {
        assert r[j] == es[j] && r[slot] == e;
      }
    }
  }

  /** The slot written was free, or already this name's, and no other slot has the name. */
  ghost predicate GoodSlot(es: seq<Raw>, slot: nat, n: Name) {
    slot < |es| && NoOther(es, slot, n) && (InUse(es[slot]) ==> NameOf(es[slot]) == n)
  }

  /** Filling `slot` adds exactly its own name to the map, exactly when the slot is a good one. */
  lemma FillRefines(es: seq<Raw>, slot: nat, e: Raw)
    requires Unique(es) && slot < |es| && InUse(e)
    ensures GoodSlot(es, slot, NameOf(e)) <==>
              Unique(es[slot := e]) && Table(es[slot := e]) == Table(es)[NameOf(e) := SectorOf(e)]
  {
    hide Table;
    var r, n := es[slot := e], NameOf(e);
    UniqueAfter(es, slot, e);
    if GoodSlot(es, slot, n) {
      FillAdds(es, slot, e);
    } else if Unique(r) && Table(r) == Table(es)[n := SectorOf(e)] {
      LostName(es, slot, e);
    }
  }

  lemma FillAdds(es: seq<Raw>, slot: nat, e: Raw)
    requires Unique(es) && slot < |es| && InUse(e) && GoodSlot(es, slot, NameOf(e)) && Unique(es[slot := e])
    ensures Table(es[slot := e]) == Table(es)[NameOf(e) := SectorOf(e)]
  {
    hide Table;
    var r, n := es[slot := e], NameOf(e);
    TableHas(r, slot);
    forall m | m in Table(r) && m != n ensures m in Table(es) && Table(es)[m] == Table(r)[m] {
      var k := TableWhere(r, m);
      TableHas(r, k);
      TableHas(es, k);
    }
    forall m | m in Table(es) && m != n ensures m in Table(r) {
      var k := TableWhere(es, m);
      assert r[k] == es[k];
      TableHas(r, k);
    }
  }

  /** Overwriting a used entry of another name loses that name. */
  lemma LostName(es: seq<Raw>, slot: nat, e: Raw)
    requires Unique(es) && slot < |es| && InUse(e) && InUse(es[slot]) && NameOf(es[slot]) != NameOf(e)
    ensures NameOf(es[slot]) in Table(es) && NameOf(es[slot]) !in Table(es[slot := e])
  {
    hide Table;
    var r, m := es[slot := e], NameOf(es[slot]);
    TableHas(es, slot);
    if m in Table(r) {
      var k := TableWhere(r, m);
    }
  }

  /** Erasing a used slot removes exactly its name. */
  lemma EraseRefines(es: seq<Raw>, slot: nat)
    requires Unique(es) && slot < |es| && InUse(es[slot])
    ensures Unique(es[slot := Erased(es[slot])])
            && Table(es[slot := Erased(es[slot])]) == Table(es) - {NameOf(es[slot])}
  {
    hide Table;
    var e := Erased(es[slot]);
    var r, n := es[slot := e], NameOf(es[slot]);
    assert Unique(r);
    forall m | m in Table(r) ensures m in Table(es) && m != n && Table(es)[m] == Table(r)[m] {
      var k := TableWhere(r, m);
      TableHas(r, k);
      TableHas(es, k);
    }
    forall m | m in Table(es) && m != n ensures m in Table(r) {
      var k := TableWhere(es, m);
      assert r[k] == es[k];
      TableHas(r, k);
    }
  }

  // ---- Entries in the bytes of a file -------------------------------------------------------------------------------

  function Entries(f: seq<Byte>): (es: seq<Raw>)
    ensures |es| == |f| / ENTRY
  {
    seq(|f| / ENTRY, k requires 0 <= k < |f| / ENTRY => f[ENTRY * k..ENTRY * k + ENTRY])
  }

  /** Writing the bytes of an entry updates that entry. */
  lemma EntriesWrite(f: seq<Byte>, k: nat, e: Raw)
    requires k < |f| / ENTRY
    ensures ENTRY * k + ENTRY <= |f| && Entries(Splice(f, ENTRY * k, e)) == Entries(f)[k := e]
  {
    var g := Splice(f, ENTRY * k, e);
    var x, y := Entries(g), Entries(f)[k := e];
    forall j | 0 <= j < |x| ensures x[j] == y[j] {
      if j != k { SpliceOutside(f, ENTRY * k, e, ENTRY * j, ENTRY * j + ENTRY); }
    }
  }

  /** Bytes past the last whole entry are no entry's. */
  lemma EntriesSlack(f: seq<Byte>, t: seq<Byte>, at: nat)
    requires ENTRY * (|f| / ENTRY) <= at && at + |t| <= |f|
    ensures Entries(Splice(f, at, t)) == Entries(f)
  {
    var g := Splice(f, at, t);
    forall j | 0 <= j < |f| / ENTRY ensures Entries(g)[j] == Entries(f)[j] {
      SpliceOutside(f, at, t, ENTRY * j, ENTRY * j + ENTRY);
    }
  }

  /** How far a scan gets when only its first `limit` reads find memory for a bounce buffer. */
  function Reach(es: seq<Raw>, limit: nat): (n: nat) {
    if limit < |es| then limit else |es|
  }

  /** lookup's answer. */
  predicate Found(es: seq<Raw>, n: Name, limit: nat) {
    exists k :: 0 <= k < Reach(es, limit) && UsedBy(es[k], n)
  }

  predicate FirstUse(es: seq<Raw>, n: Name, limit: nat, k: nat) {
    k < Reach(es, limit) && UsedBy(es[k], n) && forall j :: 0 <= j < k ==> !UsedBy(es[j], n)
  }

  /** Where dir_add's search for a free slot ends. */
  predicate IsSlot(es: seq<Raw>, limit: nat, k: nat) {
    k <= Reach(es, limit) && (k < Reach(es, limit) ==> !InUse(es[k])) && forall j :: 0 <= j < k ==> InUse(es[j])
  }

  /** The search for a free slot runs out of memory at an entry in use, having seen only entries in use. */
  predicate CutShort(es: seq<Raw>, limit: nat) {
    limit < |es| && forall j :: 0 <= j <= limit ==> InUse(es[j])
  }

  /** dir_add, given that lookup did not find the name, uses a good slot exactly when its search was not cut short
      at another name's entry, and lookup's was not cut short before an entry of this name. */
  lemma GoodSlotWhen(es: seq<Raw>, n: Name, limit: nat, limit': nat, slot: nat)
    requires Unique(es) && !Found(es, n, limit) && IsSlot(es, limit', slot) && slot < |es|
    ensures InUse(es[slot]) <==> CutShort(es, limit')
    ensures GoodSlot(es, slot, n) <==>
              if CutShort(es, limit') then UsedBy(es[limit'], n)
              else forall j :: limit <= j < |es| ==> !UsedBy(es[j], n)
  {
    forall j | 0 <= j < Reach(es, limit) ensures !UsedBy(es[j], n) { }
    if CutShort(es, limit') { assert slot == limit'; }
  }

  /** With memory for every read, the slot is always a good one. */
  lemma GoodSlotAlways(es: seq<Raw>, n: Name, limit: nat, limit': nat, slot: nat)
    requires !Found(es, n, limit) && limit >= |es| && limit' >= |es| && IsSlot(es, limit', slot) && slot < |es|
    ensures GoodSlot(es, slot, n) && !InUse(es[slot]) && n !in Table(es)
  {
    forall j | 0 <= j < |es| ensures !UsedBy(es[j], n) { }
    if n in Table(es) { var k := TableWhere(es, n); }
  }

  lemma {:induction false} FirstFree(es: seq<Raw>, n: nat) returns (k: nat)
    requires n < |es| && !InUse(es[n])
    ensures k <= n && !InUse(es[k]) && forall j :: 0 <= j < k ==> InUse(es[j])
  {
    k := n;
    if m: nat :| m < n && !InUse(es[m]) { k := FirstFree(es, m); }
  }

  /** A slot that was erased is found again: the next search ends there or at an earlier free slot. */
  lemma FreedSlotReused(es: seq<Raw>, slot: nat, limit: nat) returns (k: nat)
    requires slot < |es| && slot < limit
    ensures var r := es[slot := Erased(es[slot])]; k <= slot && IsSlot(r, limit, k) && !InUse(r[k])
  {
    k := FirstFree(es[slot := Erased(es[slot])], slot);
  }

  /** One entry "a", and no memory for the search's read of it: adding "b" takes that slot, and "a" is gone. */
  lemma OverwrittenName()
    ensures var a: Raw := NewEntry(seq(20, _ => 0), [97], 2);
            var es := [a];
            var r := es[0 := NewEntry(a, [98], 3)];
            && Unique(es) && !Found(es, [98], 1) && IsSlot(es, 0, 0) && InUse(es[0])
            && [97] in Table(es) && [97] !in Table(r)
  {
    var z: Raw := seq(20, _ => 0);
    var a: Raw := NewEntry(z, [97], 2);
    NewEntryMeans(z, [97], 2);
    NewEntryMeans(a, [98], 3);
    LostName([a], 0, NewEntry(a, [98], 3));
  }

  /** One entry "a", and no memory for lookup's read of it: adding "a" again into the free second slot gives
      the name twice. */
  lemma DuplicateName()
    ensures var a: Raw := NewEntry(seq(20, _ => 0), [97], 2);
            var es := [a, seq(20, _ => 0)];
            && Unique(es) && !Found(es, [97], 0) && IsSlot(es, 2, 1)
            && !Unique(es[1 := NewEntry(es[1], [97], 3)])
  {
    var z: Raw := seq(20, _ => 0);
    var a: Raw, b: Raw := NewEntry(z, [97], 2), NewEntry(z, [97], 3);
    NewEntryMeans(z, [97], 2);
    NewEntryMeans(z, [97], 3);
    var r := [a, z][1 := b];
    assert r[0] == a && r[1] == b;
  }
}

/** Looking up, adding and listing entries of a directory file (filesys/directory.c). */
module Directory {
  import opened Basics
  import opened DirEntries
  import opened Disk
  import opened Inode

  class Dir {
    const inode: INode
    var pos: nat

    /** dir_open. */
    constructor (inode: INode)
      ensures this.inode == inode && pos == 0
    {
      this.inode, pos := inode, 0;
    }

    /** The entries of the directory. */
    ghost function All(dev: Device): (es: seq<Raw>)
      requires inode.On(dev)
      reads dev
      ensures |es| == inode.length / ENTRY
    {
      Entries(inode.Bytes(dev))
    }

    /** Reads entry `k`, if there is one and there is memory. */
    method ReadEntry(dev: Device, e: array<Byte>, k: nat, mem: bool) returns (ok: bool)
      requires inode.On(dev) && e.Length == ENTRY
      modifies e
      ensures ok <==> mem && k < |All(dev)|
      ensures ok ==> e[..] == All(dev)[k]
    {
      hide Flat;
      EntryAvailable(inode.length, k);
      var n := inode.ReadAt(dev, e, ENTRY, ENTRY * k, mem);
      ok := n == ENTRY;
      assert e[..ENTRY] == e[..];
    }

    /** Writes entry `k`; all or nothing as far as entries are concerned. */
    method WriteEntry(dev: Device, e: Raw, k: nat, mem: bool) returns (ok: bool)
      requires inode.On(dev) && k <= |All(dev)|
      modifies dev
      ensures |dev.sectors| == old(|dev.sectors|)
      ensures ok <==> mem && k < |All(dev)| && inode.denyWriteCnt == 0
      ensures All(dev) == if ok then old(All(dev))[k := e] else old(All(dev))
      ensures OnlyWithin(old(Flat(dev.sectors)), Flat(dev.sectors), SECTOR * inode.start,
              SECTOR * inode.start + inode.length)
    {
      hide Flat, Splice, Entries;
      FlatLength(dev.sectors);
      ghost var f, lo, hi := Flat(dev.sectors), SECTOR * inode.start, SECTOR * inode.start + inode.length;
      ghost var file := inode.Bytes(dev);
      EntryAvailable(inode.length, k);
      var n := inode.WriteAt(dev, e, ENTRY, ENTRY * k, mem);
      ok := n == ENTRY;
      if n > 0 {
        SpliceInside(f, lo, hi, ENTRY * k, e[..n]);
        if ok { EntriesWrite(file, k, e); assert e[..n] == e; } else { EntriesSlack(file, e[..n], ENTRY * k); }
      }
    }

    /** lookup: the first entry in use with this name, among those it can read. */
    method Lookup(dev: Device, name: Name, limit: nat) returns (found: bool, k: nat, raw: seq<Byte>)
      requires inode.On(dev)
      ensures found <==> Found(All(dev), name, limit)
      ensures found ==> FirstUse(All(dev), name, limit, k) && raw == All(dev)[k]
    {
      hide Flat, Entries, UsedBy;
      var e := new Byte[ENTRY];
      k := 0;
      var ok := ReadEntry(dev, e, k, k < limit);
      while ok
        invariant k <= Reach(All(dev), limit)
        invariant ok <==> k < limit && k < |All(dev)|
        invariant ok ==> e[..] == All(dev)[k]
        invariant forall j :: 0 <= j < k ==> !UsedBy(All(dev)[j], name)
        decreases Reach(All(dev), limit) - k
      {
        if UsedBy(e[..], name) {
          return true, k, e[..];
        }
        k := k + 1;
        ok := ReadEntry(dev, e, k, k < limit);
      }
      return false, k, e[..];
    }

    /** dir_add. It succeeds exactly when the name is valid, lookup did not see it, the search ended at a slot
        inside the file and the slot could be written; then that slot alone changes. With memory for all reads
        the directory's map gains exactly this name; in general that is so exactly when the slot is good. */
    method Add(dev: Device, name: Name, sector: nat, limit: nat, limit': nat, mem: bool) returns (ok: bool)
      requires inode.On(dev) && 0 !in name && sector < 0x1_0000_0000
      modifies dev
      ensures |dev.sectors| == old(|dev.sectors|)
      ensures OnlyWithin(old(Flat(dev.sectors)), Flat(dev.sectors), SECTOR * inode.start,
              SECTOR * inode.start + inode.length)
      ensures !ok ==> All(dev) == old(All(dev))
      ensures ok <==> ValidName(name) && !Found(old(All(dev)), name, limit) && mem && inode.denyWriteCnt == 0
                      && exists slot :: 0 <= slot < |All(dev)| && IsSlot(old(All(dev)), limit', slot)
      ensures ok ==> exists slot ::
                0 <= slot < |All(dev)|
                && Filled(old(All(dev)), All(dev), limit', slot, name, sector)
      ensures ok && Unique(old(All(dev))) && limit >= |All(dev)| && limit' >= |All(dev)| ==>
                && Unique(All(dev)) && name !in Table(old(All(dev)))
                && Table(All(dev)) == Table(old(All(dev)))[name := sector]
    {
      hide Flat, Entries, NameOf, Table, Unique;
      ghost var es := All(dev);
      SameRow(Flat(dev.sectors), SECTOR * inode.start, SECTOR * inode.start + inode.length);
      if |name| == 0 || |name| > NAME_MAX { return false; }
      var found, at, seen := Lookup(dev, name, limit);
      if found { return false; }
      var e := new Byte[ENTRY];
      var k := FreeSlot(dev, e, limit');
      OneSlot(es, limit', k);
      var raw := NewEntry(e[..], name, sector);
      NewEntryMeans(e[..], name, sector);
      ok := WriteEntry(dev, raw, k, mem);
      if ok {
        assert Filled(es, All(dev), limit', k, name, sector);
        FilledMeans(es, raw, name, limit, limit', k);
      }
    }

    /** dir_add's loop: the first slot not in use, or where reading ends. */
    method FreeSlot(dev: Device, e: array<Byte>, limit: nat) returns (k: nat)
      requires inode.On(dev) && e.Length == ENTRY
      modifies e
      ensures IsSlot(All(dev), limit, k)
    {
      hide Flat, Entries;
      k := 0;
      var ok := ReadEntry(dev, e, k, k < limit);
      while ok
        invariant k <= Reach(All(dev), limit)
        invariant ok <==> k < limit && k < |All(dev)|
        invariant ok ==> e[..] == All(dev)[k]
        invariant forall j :: 0 <= j < k ==> InUse(All(dev)[j])
        decreases Reach(All(dev), limit) - k
      {
        if e[19] == 0 {
          assert e[..][19] == 0;
          return;
        }
        assert e[..][19] != 0;
        k := k + 1;
        ok := ReadEntry(dev, e, k, k < limit);
      }
    }

    /** dir_readdir: the name of the first entry in use from the current position on. */
    method ReadDir(dev: Device, limit: nat) returns (r: Option<Name>)
      requires inode.On(dev) && pos % ENTRY == 0
      modifies this
      ensures pos % ENTRY == 0 && old(pos) <= pos
      ensures r.Some? ==>
                var k := pos / ENTRY - 1;
                && 0 <= k < |All(dev)| && old(pos) <= ENTRY * k && InUse(All(dev)[k]) && r.value == NameOf(All(dev)[k])
                && forall j :: old(pos) / ENTRY <= j < k ==> !InUse(All(dev)[j])
      ensures r.None? ==> forall j :: old(pos) / ENTRY <= j < Reach(All(dev), limit) ==> !InUse(All(dev)[j])
    {
      hide Flat, Entries, NameOf;
      var e := new Byte[ENTRY];
      var k := pos / ENTRY;
      var ok := ReadEntry(dev, e, k, k < limit);
      while ok
        invariant pos == ENTRY * k && old(pos) / ENTRY <= k
        invariant ok <==> k < limit && k < |All(dev)|
        invariant ok ==> e[..] == All(dev)[k]
        invariant forall j :: old(pos) / ENTRY <= j < k && j < |All(dev)| ==> !InUse(All(dev)[j])
        decreases limit - k
      {
        pos := pos + ENTRY;
        if InUse(e[..]) {
          return Some(NameOf(e[..]));
        }
        k := k + 1;
        ok := ReadEntry(dev, e, k, k < limit);
      }
      r := None;
    }
  }

  lemma EntryAvailable(length: nat, k: nat)
    ensures Available(length, ENTRY, ENTRY * k) == ENTRY <==> k < length / ENTRY
    ensures k == length / ENTRY ==> ENTRY * k <= length && Available(length, ENTRY, ENTRY * k) == length - ENTRY * k
    ensures NeedsBounce(length, ENTRY, ENTRY * k)
  {
  }

  /** `slot`, where the search ended, now holds the name, and nothing else changed. */
  ghost predicate Filled(es: seq<Raw>, r: seq<Raw>, limit: nat, slot: nat, n: Name, s: nat) {
    && IsSlot(es, limit, slot) && slot < |es| == |r|
    && r == es[slot := r[slot]] && UsedBy(r[slot], n) && SectorOf(r[slot]) == s
  }

  lemma OneSlot(es: seq<Raw>, limit: nat, k: nat)
    requires IsSlot(es, limit, k)
    ensures forall j :: IsSlot(es, limit, j) ==> j == k
  {
  }

  lemma FilledMeans(es: seq<Raw>, e: Raw, n: Name, limit: nat, limit': nat, k: nat)
    requires k < |es| && IsSlot(es, limit', k) && !Found(es, n, limit) && InUse(e) && NameOf(e) == n
    ensures Unique(es) && limit >= |es| && limit' >= |es| ==>
              Unique(es[k := e]) && n !in Table(es) && Table(es[k := e]) == Table(es)[n := SectorOf(e)]
  {
    if Unique(es) && limit >= |es| && limit' >= |es| {
      GoodSlotAlways(es, n, limit, limit', k);
      FillRefines(es, k, e);
    }
  }
}
