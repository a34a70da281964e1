/** A disk on which filesys_create leaves a sector marked that no inode owns (filesys/filesys.c). */
module FsLeak {
  import opened Bitmap
  import opened DirEntries
  import opened Directory
  import opened Disk
  import opened FileSys
  import opened FsOwnership
  import opened Palloc

  const PLENTY := Memory(true, true, true, true, 16, 16, true, true, true, true)
  const LETTER: Name := [97]

  lemma FirstFree(used: set<nat>, n: nat, i: nat)
    requires i < n && i !in used && forall j: nat :: j < i ==> j in used
    ensures FirstRoom(used, n, 1, i) && HasRoom(used, n, 1)
  {
    OneSector(i);
    forall j: nat | j < i ensures !Room(used, n, 1, j) { OneSector(j); }
  }

  lemma OnlyFirstFree(used: set<nat>, n: nat, i: nat, j: nat)
    requires i < n && i !in used && (forall k: nat :: k < i ==> k in used) && FirstRoom(used, n, 1, j)
    ensures j == i
  {
    FirstFree(used, n, i);
    FirstRoomUnique(used, n, 1, i, j);
  }

  lemma NoSectors(used: set<nat>, n: nat)
    ensures HasRoom(used, n, 0)
  {
    assert Room(used, n, 0, 0);
  }

  lemma TwoTaken(a: set<nat>, b: set<nat>, i: nat, j: nat)
    requires FirstRoom({0, 1}, 64, 1, i) && a == {0, 1} + GroupOf(i, 1)
    requires FirstRoom(a, 64, 1, j) && b == a + GroupOf(j, 1)
    ensures b == {0, 1, 2, 3}
  {
    OnlyFirstFree({0, 1}, 64, 2, i);
    OneSector(2);
    OnlyFirstFree(a, 64, 3, j);
    OneSector(3);
  }

  /** What do_format makes of 64 sectors: the map's data in sector 2, the root directory's in sector 3. */
  lemma FormattedUse(fs: FileSystem)
    requires fs.freeMap.Valid() && |fs.dev.sectors| == fs.freeMap.bitCnt == 64
    requires exists a :: fs.NewMap({0, 1}, a) && fs.NewRoot(a, fs.Used())
    ensures fs.Used() == {0, 1, 2, 3}
  {
    hide FirstRoom, GroupOf, Marked, StartOf, LengthOf;
    var d := fs.dev.sectors;
    var a :| fs.NewMap({0, 1}, a) && fs.NewRoot(a, fs.Used());
    TwoTaken(a, fs.Used(), StartOf(d[FREE_MAP_SECTOR]), StartOf(d[ROOT_DIR_SECTOR]));
  }

  lemma SixtyFourFormats()
    ensures Formats({0, 1}, 64, 8, PLENTY)
  {
    FirstFree({0, 1}, 64, 2);
    OneSector(2);
    FirstFree({0, 1} + GroupOf(2, 1), 64, 3);
    assert BytesToSectors(8) == 1 && BytesToSectors(16 * ENTRY) == 1;
  }

  /** A new disk of 64 sectors. */
  method NewDisk(dev: Device) returns (fs: FileSystem)
    requires |dev.sectors| == 64
    modifies dev
    ensures fresh(fs) && fresh(fs.freeMap.bits) && fresh(fs.open) && fs.dev == dev && |dev.sectors| == 64
    ensures fs.Consistent() && fs.exist == {0, 1} && fs.Used() == {0, 1, 2, 3} && fs.freeMap.bitCnt == 64
    ensures |RootEntries(dev.sectors)| == 16 && forall k :: 0 <= k < 16 ==> !InUse(RootEntries(dev.sectors)[k])
  {
    hide OwnInv, OpenInv, FirstRoom, HasRoom, InUse, RootEntries, EntriesOk, RootOn;
    fs := new FileSystem(dev);
    SixtyFourFormats();
    var ok := fs.Format(PLENTY);
    FormattedUse(fs);
  }

  /** Sectors 4 and up are free, so a file of `length` bytes finds its place. */
  lemma FileFits(used: set<nat>, i: nat, length: nat)
    requires length < 512 && i < 63 && i !in used && i + 1 !in used && forall j: nat :: j < i ==> j in used
    ensures exists s: nat :: FirstRoom(used, 64, 1, s) && HasRoom(used + {s}, 64, BytesToSectors(length))
  {
    FirstFree(used, 64, i);
    if length == 0 { NoSectors(used + {i}, 64); } else { FirstFree(used + {i}, 64, i + 1); }
    assert BytesToSectors(length) == if length == 0 then 0 else 1;
  }

  lemma EmptyTakes(es: seq<Raw>)
    requires |es| == 16 && forall k :: 0 <= k < 16 ==> !InUse(es[k])
    ensures Addable(es, LETTER, 16, 16, true)
  {
    assert IsSlot(es, 16, 0);
  }

  lemma NameTaken(es: seq<Raw>, r: seq<Raw>, s: nat)
    requires |es| == 16 && Named(es, r, LETTER, s, 16, 16)
    ensures !Addable(r, LETTER, 16, 16, true)
  {
    var slot :| 0 <= slot < |es| && Filled(es, r, 16, slot, LETTER, s);
    assert UsedBy(r[slot], LETTER);
  }

  lemma FourTaken(fs: FileSystem, s: nat)
    requires fs.freeMap.Valid() && |fs.dev.sectors| == 64
    requires fs.NewFile({0, 1, 2, 3}, 0, s) && fs.FirstPlaces({0, 1, 2, 3}, s)
    ensures s == 4 && fs.Used() == {0, 1, 2, 3, 4}
  {
    hide FirstRoom, Marked, StartOf, LengthOf;
    OnlyFirstFree({0, 1, 2, 3}, 64, 4, s);
  }

  /** An empty file in sector 4. */
  method AddFile(fs: FileSystem) returns (ok: bool)
    requires fs.Consistent() && |fs.dev.sectors| == 64 && fs.Used() == {0, 1, 2, 3} && fs.exist == {0, 1}
    requires var es := RootEntries(fs.dev.sectors); |es| == 16 && forall k :: 0 <= k < 16 ==> !InUse(es[k])
    modifies fs`open, fs`exist, fs.open, fs.dev, fs.freeMap.bits
    ensures ok && fs.Consistent() && |fs.dev.sectors| == 64 && forall n :: n in fs.open ==> n in old(fs.open)
    ensures fs.exist == {0, 1, 4} && fs.Used() == {0, 1, 2, 3, 4} && !fs.Enters(LETTER, PLENTY)
  {
    hide OwnInv, OpenInv, FirstRoom, HasRoom, InUse, RootEntries, EntriesOk, RootOn, Named, Addable;
    hide Marked, GroupOf, StartOf, LengthOf, DirEntries.Table, BytesToSectors;
    ghost var es := RootEntries(fs.dev.sectors);
    FileFits(fs.Used(), 4, 0);
    EmptyTakes(es);
    ghost var s;
    ok, s := fs.CreateFile(LETTER, 0, PLENTY);
    FourTaken(fs, s);
    NameTaken(es, RootEntries(fs.dev.sectors), s);
  }

  lemma SixthLeaked(now: set<nat>)
    requires Leaked({0, 1, 2, 3, 4}, now, 64, 1) && now != {0, 1, 2, 3, 4}
    ensures now == {0, 1, 2, 3, 4, 6}
  {
    var s: nat, start: nat :| Abandoned({0, 1, 2, 3, 4}, now, 64, 1, s, start);
    OnlyFirstFree({0, 1, 2, 3, 4}, 64, 5, s);
    assert {0, 1, 2, 3, 4} + {5} == {0, 1, 2, 3, 4, 5};
    OnlyFirstFree({0, 1, 2, 3, 4, 5}, 64, 6, start);
    OneSector(6);
  }

  /** Creating the file again, now with one byte: the call fails for the name, and the byte's sector stays marked
      although no inode owns it. */
  method AddAgain(fs: FileSystem) returns (ok: bool)
    requires fs.Consistent() && |fs.dev.sectors| == 64 && fs.Used() == {0, 1, 2, 3, 4} && !fs.Enters(LETTER, PLENTY)
    modifies fs`open, fs`exist, fs.open, fs.dev, fs.freeMap.bits
    ensures !ok && fs.Consistent() && fs.exist == old(fs.exist)
    ensures fs.Used() == {0, 1, 2, 3, 4, 6} && Unowned(fs.dev.sectors, fs.exist, {6})
  {
    hide OwnInv, OpenInv, FirstRoom, HasRoom, RootEntries, EntriesOk, RootOn, Addable, Leaked, Unowned;
    ghost var d := fs.dev.sectors;
    FileFits(fs.Used(), 5, 1);
    FreeIsUnowned(d, fs.Used(), fs.exist, {6});
    ghost var s;
    ok, s := fs.CreateFile(LETTER, 1, PLENTY);
    SixthLeaked(fs.Used());
    SameInodesUnowned(d, fs.dev.sectors, fs.exist, {6});
  }

  /** From any disk of 64 sectors: format it, make an empty file, then make a file of that name with one byte. */
  method LeakedSector(dev: Device) returns (fs: FileSystem, ok: bool, ok': bool)
    requires |dev.sectors| == 64
    modifies dev
    ensures ok && !ok' && fs.Consistent() && fs.dev == dev
    ensures fs.exist == {0, 1, 4} && fs.Used() == {0, 1, 2, 3, 4, 6} && Unowned(dev.sectors, fs.exist, {6})
  {
    hide *;
    fs := NewDisk(dev);
    ghost var open := fs.open;
    assert forall n :: n in open ==> fresh(n);
    ok := AddFile(fs);
    assert forall i :: 0 <= i < |fs.open| ==> fs.open[i] in open;
    ok' := AddAgain(fs);
  }
}
