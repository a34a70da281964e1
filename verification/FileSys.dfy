/** The open-inode table and the free map working together (filesys/inode.c, filesys/free-map.c). */
module FileSys {
  import opened Basics
  import opened Bitmap
  import opened DirEntries
  import Directory
  import opened Disk
  import opened FsMap
  import opened FsOwnership
  import opened Inode
  import opened Palloc

  const FREE_MAP_SECTOR: nat := 0
  const ROOT_DIR_SECTOR: nat := 1
  const INODE_MAGIC: nat := 0x494e_4f44

  function Zeros(n: nat): (s: seq<Byte>)
    ensures |s| == n
  {
    seq(n, _ => 0)
  }

  /** The third word of an inode's sector. */
  function MagicOf(s: Sector): (w: nat) {
    WordAt(s, 8)
  }

  /** The sector that inode_create writes. */
  function DiskInode(start: nat, length: nat): (s: Sector)
    requires start < WORD && length < MAX_OFF
  {
    WordBytes(start) + WordBytes(length) + WordBytes(INODE_MAGIC) + Zeros(500)
  }

  lemma DiskInodeMeans(start: nat, length: nat)
    requires start < WORD && length < MAX_OFF
    ensures StartOf(DiskInode(start, length)) == start && LengthOf(DiskInode(start, length)) == length
    ensures MagicOf(DiskInode(start, length)) == 0x494e_4f44
  {
    hide WordBytes, WordAt;
    var s, rest := DiskInode(start, length), WordBytes(INODE_MAGIC) + Zeros(500);
    assert s == [] + WordBytes(start) + (WordBytes(length) + rest);
    WordBack(start, [], WordBytes(length) + rest);
    assert s == WordBytes(start) + WordBytes(length) + rest;
    WordBack(length, WordBytes(start), rest);
    assert s == WordBytes(start) + WordBytes(length) + WordBytes(INODE_MAGIC) + Zeros(500);
    WordBack(INODE_MAGIC, WordBytes(start) + WordBytes(length), Zeros(500));
  }

  /** An open inode holds the data of its sector. */
  ghost predicate Mirrors(n: INode, d: seq<Sector>, exist: set<nat>)
    reads n
  {
    n.sector in exist && n.sector < |d| && n.start == StartOf(d[n.sector]) && n.length == LengthOf(d[n.sector])
      && n.openCnt > 0
  }

  ghost predicate OpenInv(open: seq<INode>, d: seq<Sector>, exist: set<nat>)
    reads open
  {
    && (forall i :: 0 <= i < |open| ==> Mirrors(open[i], d, exist))
    && (forall i, j :: 0 <= i < j < |open| ==> open[i].sector != open[j].sector)
  }

  lemma OpenSame(open: seq<INode>, d: seq<Sector>, e: seq<Sector>, exist: set<nat>)
    requires OpenInv(open, d, exist) && SameInodes(d, e, exist)
    ensures OpenInv(open, e, exist)
  {
    forall i | 0 <= i < |open| ensures Mirrors(open[i], e, exist) { assert Mirrors(open[i], d, exist); }
  }

  lemma OpenMore(open: seq<INode>, d: seq<Sector>, exist: set<nat>, s: nat)
    requires OpenInv(open, d, exist)
    ensures OpenInv(open, d, exist + {s})
  {
    forall i | 0 <= i < |open| ensures Mirrors(open[i], d, exist + {s}) { assert Mirrors(open[i], d, exist); }
  }

  lemma SameInodesTrans(d: seq<Sector>, e: seq<Sector>, f: seq<Sector>, exist: set<nat>)
    requires SameInodes(d, e, exist) && SameInodes(e, f, exist)
    ensures SameInodes(d, f, exist)
  {
  }

  lemma SameInodesLess(d: seq<Sector>, e: seq<Sector>, exist: set<nat>, some: set<nat>)
    requires SameInodes(d, e, exist) && some <= exist
    ensures SameInodes(d, e, some)
  {
  }

  lemma OpenLess(open: seq<INode>, d: seq<Sector>, exist: set<nat>, s: nat)
    requires OpenInv(open, d, exist) && forall m :: m in open ==> m.sector != s
    ensures OpenInv(open, d, exist - {s})
  {
    forall i | 0 <= i < |open| ensures Mirrors(open[i], d, exist - {s}) {
      assert open[i] in open && Mirrors(open[i], d, exist);
    }
  }

  // ---- The root directory ------------------------------------------------------------------------------------------

  /** The entries of the root directory on a disk. */
  ghost function RootEntries(d: seq<Sector>): (es: seq<Raw>)
    requires RootOn(d)
  {
    var at := SECTOR * StartOf(d[ROOT_DIR_SECTOR]);
    Entries(Flat(d)[at..at + LengthOf(d[ROOT_DIR_SECTOR])])
  }

  ghost predicate RootOn(d: seq<Sector>) {
    Sound(d, ROOT_DIR_SECTOR) && SECTOR * StartOf(d[ROOT_DIR_SECTOR]) + LengthOf(d[ROOT_DIR_SECTOR]) <= SECTOR * |d|
  }

  /** Every entry in use names an existing inode, no two the same one, and none of the two system files. */
  ghost predicate EntriesOk(es: seq<Raw>, exist: set<nat>) {
    && (forall k :: 0 <= k < |es| && InUse(es[k]) ==> SectorOf(es[k]) in exist && SectorOf(es[k]) > ROOT_DIR_SECTOR)
    && (forall j, k :: 0 <= j < k < |es| && InUse(es[j]) && InUse(es[k]) ==> SectorOf(es[j]) != SectorOf(es[k]))
  }

  ghost predicate Names(es: seq<Raw>, s: nat) {
    exists k :: 0 <= k < |es| && InUse(es[k]) && SectorOf(es[k]) == s
  }

  /** The root directory is as it was when its inode and data were not written. */
  lemma RootSame(d: seq<Sector>, e: seq<Sector>, marked: set<nat>, exist: set<nat>, g: set<nat>)
    requires OwnInv(d, marked, exist) && ROOT_DIR_SECTOR in exist && RootOn(d)
    requires SameBut(d, e, g) && Owned(d, ROOT_DIR_SECTOR) !! g
    ensures RootOn(e) && RootEntries(e) == RootEntries(d) && e[ROOT_DIR_SECTOR] == d[ROOT_DIR_SECTOR]
  {
    hide Flat, Entries;
    assert InodeOk(d, marked, ROOT_DIR_SECTOR);
    assert ROOT_DIR_SECTOR in Owned(d, ROOT_DIR_SECTOR);
    SameFileOf(d, e, ROOT_DIR_SECTOR, g);
  }

  /** A new entry for an inode that no entry names. */
  lemma EntryAdded(es: seq<Raw>, exist: set<nat>, slot: nat, e: Raw, s: nat)
    requires EntriesOk(es, exist) && slot < |es| && InUse(e) && SectorOf(e) == s > ROOT_DIR_SECTOR && s in exist
             && !Names(es, s)
    ensures EntriesOk(es[slot := e], exist)
    ensures forall t :: Names(es[slot := e], t) ==> Names(es, t) || t == s
  {
    var r := es[slot := e];
    forall k | 0 <= k < |es| && InUse(es[k]) ensures SectorOf(es[k]) != s { }
    forall t | Names(r, t) ensures Names(es, t) || t == s {
      var k :| 0 <= k < |r| && InUse(r[k]) && SectorOf(r[k]) == t;
      if k != slot { assert InUse(es[k]) && SectorOf(es[k]) == t; }
    }
  }

  lemma NamedExist(es: seq<Raw>, exist: set<nat>, s: nat)
    requires EntriesOk(es, exist)
    ensures Names(es, s) ==> s in exist && s > ROOT_DIR_SECTOR
    ensures EntriesOk(es, exist + {s}) && (!Names(es, s) ==> EntriesOk(es, exist - {s}))
  {
    if !Names(es, s) {
      forall k | 0 <= k < |es| && InUse(es[k]) ensures SectorOf(es[k]) in exist - {s} { }
    }
  }

  /** An entry erased: nothing names its inode any more. */
  lemma EntryErased(es: seq<Raw>, exist: set<nat>, slot: nat)
    requires EntriesOk(es, exist) && slot < |es| && InUse(es[slot])
    ensures var r, s := es[slot := Erased(es[slot])], SectorOf(es[slot]);
            EntriesOk(r, exist) && EntriesOk(r, exist - {s}) && !Names(r, s) && forall t :: Names(r, t) ==> Names(es, t)
  {
    var r, s := es[slot := Erased(es[slot])], SectorOf(es[slot]);
    forall k | 0 <= k < |r| && InUse(r[k]) ensures k != slot && r[k] == es[k] && SectorOf(r[k]) != s { }
    forall t | Names(r, t) ensures Names(es, t) {
      var k :| 0 <= k < |r| && InUse(r[k]) && SectorOf(r[k]) == t;
      assert InUse(es[k]) && SectorOf(es[k]) == t;
    }
  }

  /** How many sectors an open inode's data takes. */
  ghost function SectorCount(n: INode): (c: nat) {
    if n.length < MAX_OFF then BytesToSectors(n.length) else 0
  }

  class FileSystem {
    const dev: Device
    const freeMap: BitmapObject
    var open: seq<INode>
    var freeMapFile: INode?
    ghost var exist: set<nat>

    /** inode_init and free_map_init. */
    constructor (dev: Device)
      requires 2 <= |dev.sectors| < BITMAP_ERROR
      ensures this.dev == dev && Valid() && fresh(freeMap.bits) && exist == {} && open == [] && freeMapFile == null
      ensures Used() == {FREE_MAP_SECTOR, ROOT_DIR_SECTOR}
    {
      this.dev := dev;
      freeMap := new BitmapObject(|dev.sectors|);
      open, freeMapFile, exist := [], null, {};
      new;
      freeMap.Mark(FREE_MAP_SECTOR);
      freeMap.Mark(ROOT_DIR_SECTOR);
    }

    /** The sectors marked in the free map. */
    ghost function Used(): (s: set<nat>)
      requires freeMap.Valid()
      reads freeMap.bits
    {
      Marked(freeMap.Contents(), 0)
    }

    /** The free map's file is open, and made for this bitmap. */
    ghost predicate MapFileOk()
      reads this, open, freeMapFile
    {
      freeMapFile != null ==>
        && freeMapFile in open && freeMapFile.sector == FREE_MAP_SECTOR && !freeMapFile.removed
        && freeMapFile.denyWriteCnt == 0 && freeMapFile.length == 4 * ElemCnt(freeMap.bitCnt)
    }

    ghost predicate Valid()
      reads this, dev, freeMap.bits, open, freeMapFile
    {
      ValidOn(dev.sectors)
    }

    /** The invariant, for a disk with these sectors. */
    ghost predicate ValidOn(d: seq<Sector>)
      reads this, freeMap.bits, open, freeMapFile
    {
      && freeMap.Valid() && freeMap.bitCnt == |d| < WORD
      && OwnInv(d, Used(), exist) && OpenInv(open, d, exist) && MapFileOk()
    }

    /** Where the free map's own file lies. */
    ghost function MapData(): (g: set<nat>)
      reads this
    {
      if freeMapFile == null then {} else GroupOf(freeMapFile.start, SectorCount(freeMapFile))
    }

    /** An open inode's view of the disk is the disk's. */
    lemma OpenFacts(d: seq<Sector>, n: INode)
      requires ValidOn(d) && n in open
      ensures n.sector in exist && Sound(d, n.sector) && SECTOR * n.start + n.length <= SECTOR * |d| && n.openCnt > 0
      ensures n.start == StartOf(d[n.sector]) && n.length == LengthOf(d[n.sector])
      ensures GroupOf(n.start, SectorCount(n)) == Data(d, n.sector)
    {
      hide OwnInv;
      var i :| 0 <= i < |open| && open[i] == n;
      assert Mirrors(open[i], d, exist);
      InodeOnDisk(d, Used(), exist, n.sector);
    }

    /** A write to an open file, on a disk that was `d`, keeps the invariant and changes only that file's data. */
    lemma WroteFile(d: seq<Sector>, n: INode)
      requires ValidOn(d) && n in open
      requires OnlyWithin(Flat(d), Flat(dev.sectors), SECTOR * n.start, SECTOR * n.start + n.length)
      ensures Valid() && SameBut(d, dev.sectors, GroupOf(n.start, SectorCount(n))) && SameInodes(d, dev.sectors, exist)
    {
      hide Flat, OwnInv, OnlyWithin;
      OpenFacts(d, n);
      FileWritten(d, dev.sectors, Used(), exist, n.sector);
      OpenSame(open, d, dev.sectors, exist);
    }

    /** Whether a write of the free map reaches its file: a last part of a sector needs a bounce buffer. */
    ghost predicate MapSaved(mem: bool)
      reads this`freeMapFile
    {
      freeMapFile == null || mem || 4 * ElemCnt(freeMap.bitCnt) % SECTOR == 0
    }

    /** The free map's file holds the free map. */
    ghost predicate MapOnDisk()
      requires freeMap.Valid()
      reads this`freeMapFile, dev, freeMap.bits
    {
      freeMapFile != null ==> Saved(dev.sectors, freeMap.bitCnt, Used())
    }

    /** bitmap_write to the free map's file: on success it holds the map, and only its data changes. */
    method WriteMap(mem: bool) returns (ok: bool)
      requires Valid() && freeMapFile != null
      modifies dev
      ensures Valid() && (ok <==> MapSaved(mem)) && (ok ==> MapOnDisk())
      ensures SameBut(old(dev.sectors), dev.sectors, MapData()) && SameInodes(old(dev.sectors), dev.sectors, exist)
    {
      hide Flat, OwnInv, OpenInv, Splice, NeedsBounce, BytesToSectors, OnlyWithin, Saved;
      var n := freeMapFile;
      ghost var d := dev.sectors;
      OpenFacts(d, n);
      var image := freeMap.Write();
      var bytes := MapBytes(image);
      var w := n.WriteAt(dev, bytes, |bytes|, 0, mem);
      ok := w == |bytes|;
      WroteFile(d, n);
      if ok {
        WholeFile(d, dev.sectors, n, bytes, w);
        SavedWords(dev.sectors, freeMap.bitCnt, image);
      }
    }

    /** free_map_allocate: a free group of sectors is marked, or, when there is none or the free map's file
        cannot be written, the map is as before. */
    method Allocate(cnt: nat, mem: bool) returns (ok: bool, sector: nat)
      requires Valid()
      modifies dev, freeMap.bits
      ensures Valid() && SameBut(old(dev.sectors), dev.sectors, MapData())
              && SameInodes(old(dev.sectors), dev.sectors, exist)
      ensures ok <==> HasRoom(old(Used()), |dev.sectors|, cnt) && MapSaved(mem)
      ensures ok ==>
                FirstRoom(old(Used()), |dev.sectors|, cnt, sector) && Used() == old(Used()) + GroupOf(sector, cnt)
                && MapOnDisk()
      ensures !ok ==> Used() == old(Used())
      ensures old(MapOnDisk()) && MapSaved(mem) ==> MapOnDisk()
    {
      hide OwnInv, OpenInv, SameInodes, Saved;
      ghost var d, s, used := dev.sectors, freeMap.Contents(), Used();
      SameInodesRefl();
      sector := freeMap.ScanAndFlip(0, cnt, false);
      if sector == BITMAP_ERROR {
        NoFreeGroup(s, cnt);
        return false, 0;
      }
      MarkedAfterFill(s, 0, sector, cnt, true);
      FirstGroupIsRoom(s, cnt, sector);
      MarkKeeps(dev.sectors, used, exist, GroupOf(sector, cnt));
      ok := true;
      if freeMapFile != null {
        var w := WriteMap(mem);
        if !w {
          SameInodesOwn(d, dev.sectors, used, exist);
          assert used + GroupOf(sector, cnt) - GroupOf(sector, cnt) == used;
          MarkedAfterFill(freeMap.Contents(), 0, sector, cnt, false);
          freeMap.SetMultiple(sector, cnt, false);
          ok := false;
        }
      }
    }

    lemma SameInodesRefl()
      requires Valid()
      ensures SameInodes(dev.sectors, dev.sectors, exist)
    {
      forall s | s in exist ensures s < |dev.sectors| { assert InodeOk(dev.sectors, Used(), s); }
    }

    /** free_map_release of marked sectors that no existing inode owns. */
    method Release(sector: nat, cnt: nat, mem: bool)
      requires Valid() && freeMapFile != null && sector + cnt <= |dev.sectors|
      requires GroupOf(sector, cnt) <= Used() && Unowned(dev.sectors, exist, GroupOf(sector, cnt))
      modifies dev, freeMap.bits
      ensures Valid() && SameBut(old(dev.sectors), dev.sectors, MapData())
              && SameInodes(old(dev.sectors), dev.sectors, exist)
      ensures Used() == old(Used()) - GroupOf(sector, cnt) && (MapSaved(mem) ==> MapOnDisk())
    {
      hide OwnInv, OpenInv, SameInodes, Unowned, Saved;
      ghost var g := GroupOf(sector, cnt);
      UnmarkKeeps(dev.sectors, Used(), exist, g);
      MarkedAfterFill(freeMap.Contents(), 0, sector, cnt, false);
      freeMap.SetMultiple(sector, cnt, false);
      var w := WriteMap(mem);
    }

    /** The zeroing loop of inode_create. */
    method ZeroSectors(start: nat, cnt: nat)
      requires start + cnt <= |dev.sectors|
      modifies dev
      ensures SameBut(old(dev.sectors), dev.sectors, GroupOf(start, cnt))
      ensures forall i: nat :: i in GroupOf(start, cnt) ==> dev.sectors[i] == Zeros(SECTOR)
    {
      var i := 0;
      while i < cnt
        invariant i <= cnt && SameBut(old(dev.sectors), dev.sectors, GroupOf(start, cnt))
        invariant forall k: nat :: start <= k < start + i ==> dev.sectors[k] == Zeros(SECTOR)
      {
        dev.Write(start + i, Zeros(SECTOR));
        i := i + 1;
      }
    }

    /** inode_create, once the extent is there: the inode's sector and zeros. */
    method PlaceInode(sector: nat, start: nat, length: nat)
      requires Valid() && length < MAX_OFF && sector in Used() && sector !in exist
               && start + BytesToSectors(length) <= |dev.sectors|
      requires Unowned(dev.sectors, exist, {sector})
               && Unowned(dev.sectors, exist, GroupOf(start, BytesToSectors(length)))
      requires GroupOf(start, BytesToSectors(length)) <= Used() && sector !in GroupOf(start, BytesToSectors(length))
      modifies this`exist, dev
      ensures Valid() && SameInodes(old(dev.sectors), dev.sectors, old(exist)) && exist == old(exist) + {sector}
      ensures sector < |dev.sectors| && StartOf(dev.sectors[sector]) == start && LengthOf(dev.sectors[sector]) == length
      ensures MagicOf(dev.sectors[sector]) == INODE_MAGIC
      ensures Data(dev.sectors, sector) == GroupOf(start, BytesToSectors(length))
      ensures SameBut(old(dev.sectors), dev.sectors, Owned(dev.sectors, sector))
      ensures forall i: nat :: i in Data(dev.sectors, sector) ==> i < |dev.sectors| && dev.sectors[i] == Zeros(SECTOR)
      ensures old(MapOnDisk()) ==> MapOnDisk()
    {
      hide OwnInv, OpenInv, SameInodes, Unowned, Saved;
      ghost var d, g := dev.sectors, GroupOf(start, BytesToSectors(length));
      MarkedBelow(sector);
      DiskInodeMeans(start, length);
      dev.Write(sector, DiskInode(start, length));
      ZeroSectors(start, BytesToSectors(length));
      Created(d, dev.sectors, Used(), exist, sector, g);
      OpenSame(open, d, dev.sectors, exist);
      OpenMore(open, dev.sectors, exist, sector);
      if freeMapFile != null && old(MapOnDisk()) {
        MapNotIn(d, sector, g);
        SavedKept(d, dev.sectors, freeMap.bitCnt, Used(), {sector} + g);
      }
      exist := exist + {sector};
    }

    /** Nor does a write to another file. */
    lemma MapNotWritten(d: seq<Sector>, s: nat)
      requires ValidOn(d) && freeMapFile != null && s in exist && s != FREE_MAP_SECTOR && Sound(d, s)
               && SameBut(d, dev.sectors, Data(d, s))
      ensures Saved(d, freeMap.bitCnt, Used()) ==> Saved(dev.sectors, freeMap.bitCnt, Used())
    {
      hide OwnInv, OpenInv, Saved, Data, SameBut;
      OpenFacts(d, freeMapFile);
      DataApart(d, Used(), exist, FREE_MAP_SECTOR, s);
      if Saved(d, freeMap.bitCnt, Used()) { SavedKept(d, dev.sectors, freeMap.bitCnt, Used(), Data(d, s)); }
    }

    lemma NothingRemoved(name: Name, limit: nat)
      requires Consistent()
      ensures FilesKept(dev.sectors, dev.sectors, exist) && RootOn(dev.sectors) && freeMap.Valid()
      ensures Removal(RootEntries(dev.sectors), RootEntries(dev.sectors), name, limit, false, 0)
      ensures Owners(dev.sectors, exist, exist, Used(), Used(), None)
    {
      hide FilesKept, OwnInv, RootEntries;
      KeptSame(dev.sectors, Used(), exist);
    }

    /** A write to the root directory changes no other file. */
    lemma RootSpares(d: seq<Sector>)
      requires ValidOn(d) && ROOT_DIR_SECTOR in exist && Sound(d, ROOT_DIR_SECTOR)
               && SameBut(d, dev.sectors, Data(d, ROOT_DIR_SECTOR))
      ensures FilesKept(d, dev.sectors, exist)
    {
      hide OwnInv, OpenInv, Spares, Data, FilesKept;
      SparesData(d, Used(), exist, ROOT_DIR_SECTOR);
      KeptBut(d, dev.sectors, Used(), exist, Data(d, ROOT_DIR_SECTOR));
    }

    /** The map's data is no other file's. */
    lemma MapSpares(d: seq<Sector>)
      requires ValidOn(d) && freeMapFile != null
      ensures Spares(d, exist, MapData())
    {
      hide OwnInv, OpenInv, Spares, Data;
      OpenFacts(d, freeMapFile);
      SparesData(d, Used(), exist, FREE_MAP_SECTOR);
    }

    lemma MapNotIn(d: seq<Sector>, s: nat, g: set<nat>)
      requires ValidOn(d) && freeMapFile != null && Unowned(d, exist, {s}) && Unowned(d, exist, g)
      ensures Sound(d, FREE_MAP_SECTOR) && Owned(d, FREE_MAP_SECTOR) !! {s} + g
    {
      hide OwnInv, OpenInv;
      OpenFacts(d, freeMapFile);
    }

    /** inode_create: a new inode in a marked sector that nobody owns, with a data extent of its own, all zeros;
        or nothing. */
    method Create(sector: nat, length: nat, memInode: bool, mem: bool) returns (ok: bool)
      requires Valid() && length < MAX_OFF && sector in Used() && sector !in exist && sector !in MapData()
      requires Unowned(dev.sectors, exist, {sector})
      modifies this`exist, dev, freeMap.bits
      ensures Valid() && |dev.sectors| == old(|dev.sectors|) && SameInodes(old(dev.sectors), dev.sectors, old(exist))
      ensures ok <==> memInode && HasRoom(old(Used()), |dev.sectors|, BytesToSectors(length)) && MapSaved(mem)
      ensures !ok ==> exist == old(exist) && Used() == old(Used()) && SameBut(old(dev.sectors), dev.sectors, MapData())
      ensures ok ==> exist == old(exist) + {sector} && sector < |dev.sectors| && LengthOf(dev.sectors[sector]) == length
                     && FirstRoom(old(Used()), |dev.sectors|, BytesToSectors(length), StartOf(dev.sectors[sector]))
                     && Data(dev.sectors, sector) !! old(Used()) && Used() == old(Used()) + Data(dev.sectors, sector)
                     && SameBut(old(dev.sectors), dev.sectors, MapData() + Owned(dev.sectors, sector))
                     && forall i: nat :: i in Data(dev.sectors, sector) ==>
                          i < |dev.sectors|
                          && dev.sectors[i] == Zeros(SECTOR)
      ensures ok || (old(MapOnDisk()) && MapSaved(mem)) ==> MapOnDisk()
    {
      hide OwnInv, OpenInv, SameInodes, Unowned, Saved;
      SameInodesRefl();
      ghost var d0, used0 := dev.sectors, Used();
      if !memInode { return false; }
      var cnt := BytesToSectors(length);
      var got, start := Allocate(cnt, mem);
      if !got { return false; }
      ghost var d1, g := dev.sectors, GroupOf(start, cnt);
      FreeIsUnowned(d0, used0, exist, g);
      SameInodesUnowned(d0, d1, exist, g);
      SameInodesUnowned(d0, d1, exist, {sector});
      PlaceInode(sector, start, length);
      SameInodesTrans(d0, d1, dev.sectors, old(exist));
      ok := true;
    }

    lemma MarkedBelow(s: nat)
      requires freeMap.Valid() && s in Used()
      ensures s < freeMap.bitCnt
    {
    }

    /** Is the inode of this sector open? */
    ghost predicate IsOpen(sector: nat)
      reads this
    {
      exists n :: n in open && n.sector == sector
    }

    /** inode_open: the one open inode of the sector, with one opener more, or a new one read from the disk. */
    method Open(sector: nat, mem: bool) returns (r: INode?)
      requires Valid() && sector in exist
      modifies this`open, open
      ensures Valid() && (r == null <==> !old(IsOpen(sector)) && !mem)
      ensures forall n :: n in old(open) && n != r ==> n in open && unchanged(n)
      ensures r == null ==> open == old(open)
      ensures r != null ==> r in open && r.sector == sector
      ensures r != null && old(IsOpen(sector)) ==>
                r in old(open) && open == old(open) && r.openCnt == old(r.openCnt) + 1 > 1
                && r.removed == old(r.removed) && r.denyWriteCnt == old(r.denyWriteCnt)
      ensures r != null && !old(IsOpen(sector)) ==>
                fresh(r) && open == [r] + old(open) && r.openCnt == 1 && !r.removed && r.denyWriteCnt == 0
    {
      hide OwnInv, StartOf, LengthOf, Marked, ElemCnt;
      var i := 0;
      while i < |open|
        invariant i <= |open| && forall j :: 0 <= j < i ==> open[j].sector != sector
      {
        if open[i].sector == sector {
          r := open[i];
          ghost var d := dev.sectors;
          assert Mirrors(r, d, exist);
          r.openCnt := r.openCnt + 1;
          assert forall j :: 0 <= j < |open| ==> old(Mirrors(open[j], d, exist));
          assert OpenInv(open, d, exist);
          return;
        }
        i := i + 1;
      }
      if !mem { return null; }
      InodeOnDisk(dev.sectors, Used(), exist, sector);
      var data := dev.Read(sector);
      r := new INode(sector, StartOf(data), LengthOf(data));
      assert forall j :: 0 <= j < |open| ==> Mirrors(open[j], dev.sectors, exist);
      open := [r] + open;
    }

    /** inode_remove. */
    method Remove(n: INode)
      requires Valid() && n in open && n.sector != FREE_MAP_SECTOR
      modifies n`removed
      ensures Valid() && n.removed
    {
      hide OwnInv;
      assert forall j :: 0 <= j < |open| ==> Mirrors(open[j], dev.sectors, exist);
      n.removed := true;
    }

    /** list_remove of an open inode. */
    method Unlink(n: INode)
      requires n in open && forall i, j :: 0 <= i < j < |open| ==> open[i].sector != open[j].sector
      modifies this`open
      ensures forall m :: m in open <==> m in old(open) && m != n
      ensures forall i, j :: 0 <= i < j < |open| ==> open[i].sector != open[j].sector
      ensures |open| == old(|open|) - 1
    {
      var i := 0;
      while open[i] != n
        invariant i < |open| && forall j :: 0 <= j < i ==> open[j] != n
        decreases |open| - i
      {
        i := i + 1;
      }
      ghost var was := open;
      open := open[..i] + open[i + 1..];
      forall m | m in was && m != n ensures m in open {
        var j :| 0 <= j < |was| && was[j] == m;
        assert m == if j < i then open[j] else open[j - 1];
      }
    }

    /** inode_close. Only the last close of an inode takes it off the list, and only if it was removed are its
        sectors released: its own and all of its data, which nobody else owns. */
    method Close(n: INode, mem: bool, mem': bool)
      requires Valid() && n in open && (n == freeMapFile ==> n.openCnt > 1)
      requires n.removed ==> freeMapFile != null
      modifies this`open, this`exist, n, dev, freeMap.bits
      ensures Valid() && n.openCnt == old(n.openCnt) - 1 && n.removed == old(n.removed)
              && n.denyWriteCnt == old(n.denyWriteCnt)
      ensures old(n.openCnt) > 1 ==> open == old(open)
      ensures old(n.openCnt) == 1 ==> forall m :: m in open <==> m in old(open) && m != n
      ensures !(old(n.openCnt) == 1 && n.removed) ==>
                exist == old(exist) && Used() == old(Used()) && dev.sectors == old(dev.sectors)
      ensures old(n.openCnt) == 1 && n.removed ==>
                && n.sector in old(exist) && Sound(old(dev.sectors), n.sector)
                && exist == old(exist) - {n.sector} && Used() == old(Used()) - Owned(old(dev.sectors), n.sector)
                && SameBut(old(dev.sectors), dev.sectors, MapData()) && SameInodes(old(dev.sectors), dev.sectors, exist)
      ensures old(MapOnDisk()) && MapSaved(mem') ==> MapOnDisk()
    {
      hide OwnInv, OpenInv, SameInodes, Owned, SameBut, Saved;
      OpenFacts(dev.sectors, n);
      if n.openCnt > 1 {
        LeaveOpen(n);
      } else {
        TakeOff(n);
        if n.removed {
          ReleaseAll(n, mem, mem');
        }
      }
    }

    /** inode_close when other openers remain. */
    method LeaveOpen(n: INode)
      requires Valid() && n in open && n.openCnt > 1
      modifies n`openCnt
      ensures Valid() && n.openCnt == old(n.openCnt) - 1
    {
      hide OwnInv;
      ghost var d := dev.sectors;
      assert forall j :: 0 <= j < |open| ==> Mirrors(open[j], d, exist);
      n.openCnt := n.openCnt - 1;
      assert OpenInv(open, d, exist);
    }

    /** inode_close by the last opener: the inode leaves the list. */
    method TakeOff(n: INode)
      requires Valid() && n in open && n.openCnt == 1 && n != freeMapFile
      modifies this`open, n`openCnt
      ensures Valid() && n.openCnt == 0
      ensures forall m :: m in open <==> m in old(open) && m != n
      ensures forall m :: m in open ==> m.sector != n.sector
    {
      hide OwnInv;
      ghost var d := dev.sectors;
      assert forall j :: 0 <= j < |open| ==> Mirrors(open[j], d, exist);
      assert forall m :: m in open && m != n ==> m.sector != n.sector;
      n.openCnt := n.openCnt - 1;
      Unlink(n);
      StillOpen(d, n);
    }

    /** The two releases of a removed inode's last close. */
    method ReleaseAll(n: INode, mem: bool, mem': bool)
      requires Valid() && freeMapFile != null && n.sector in exist && forall m :: m in open ==> m.sector != n.sector
      requires n.sector < |dev.sectors| && n.start == StartOf(dev.sectors[n.sector])
               && n.length == LengthOf(dev.sectors[n.sector])
      modifies this`exist, dev, freeMap.bits
      ensures Valid() && Sound(old(dev.sectors), n.sector)
      ensures exist == old(exist) - {n.sector} && Used() == old(Used()) - Owned(old(dev.sectors), n.sector)
      ensures SameBut(old(dev.sectors), dev.sectors, MapData()) && SameInodes(old(dev.sectors), dev.sectors, exist)
      ensures MapSaved(mem') ==> MapOnDisk()
    {
      hide OwnInv, SameInodes, Unowned, OpenInv, Saved;
      ghost var d, s, used := dev.sectors, n.sector, Used();
      ReleaseKeeps(d, used, exist, s);
      ReleaseFacts(d, used, exist, s);
      OpenLess(open, d, exist, s);
      MarkKeeps(d, used - Owned(d, s), exist - {s}, Owned(d, s));
      assert used - Owned(d, s) + Owned(d, s) == used;
      exist := exist - {s};
      Release(n.sector, 1, mem);
      ghost var d1 := dev.sectors;
      SameInodesUnowned(d, d1, exist, Data(d, s));
      Release(n.start, BytesToSectors(n.length), mem');
      SameInodesTrans(d, d1, dev.sectors, exist);
      assert used - {s} - Data(d, s) == used - Owned(d, s);
    }

    lemma StillOpen(d: seq<Sector>, n: INode)
      requires forall m :: m in open ==> m != n && Mirrors(m, d, exist)
      requires forall i, j :: 0 <= i < j < |open| ==> open[i].sector != open[j].sector
      ensures OpenInv(open, d, exist)
    {
    }

    // ---- Files by name (filesys/filesys.c) -------------------------------------------------------------------------

    /** The state between operations: the invariant, the two system files, a root directory whose entries name
        different existing inodes, and no removed inode that still has a name. */
    ghost predicate Consistent()
      reads this, dev, freeMap.bits, open, freeMapFile
    {
      Valid() && RootInv(dev.sectors)
    }

    ghost predicate RootInv(d: seq<Sector>)
      reads this, open
    {
      && freeMapFile != null && FREE_MAP_SECTOR in exist && ROOT_DIR_SECTOR in exist && RootOn(d)
      && EntriesOk(RootEntries(d), exist)
      && (forall n :: n in open && n.removed ==> n.sector > ROOT_DIR_SECTOR && !Names(RootEntries(d), n.sector))
      && (forall n :: n in open && n.sector == ROOT_DIR_SECTOR ==> n.denyWriteCnt == 0)
    }

    /** The open inodes other than `r` are those of before, with the same openers. */
    twostate predicate SameOpenBut(new r: INode?)
      reads this, open
    {
      && (forall m :: m in old(open) && m != r ==>
            m in open && m.openCnt == old(m.openCnt) && m.removed == old(m.removed)
              && m.denyWriteCnt == old(m.denyWriteCnt))
      && (forall m :: m in open ==> m in old(open) || m == r)
    }

    /** `r` has one opener more than before. */
    twostate predicate Opened(new r: INode)
      reads r
    {
      if r in old(open) then r.openCnt == old(r.openCnt) + 1 > 1 && r.removed == old(r.removed)
        && r.denyWriteCnt == old(r.denyWriteCnt)
      else fresh(r) && r.openCnt == 1 && !r.removed && r.denyWriteCnt == 0
    }

    /** dir_open_root; `memDir` says whether the directory structure can be had. */
    method OpenRoot(mem: bool, memDir: bool) returns (root: INode?)
      requires Consistent()
      modifies this`open, this`exist, open, dev, freeMap.bits
      ensures Consistent() && exist == old(exist) && dev.sectors == old(dev.sectors) && Used() == old(Used())
      ensures SameOpenBut(root) && (root == null <==> !memDir || !(mem || old(IsOpen(ROOT_DIR_SECTOR))))
      ensures root != null ==>
                root in open && root.sector == ROOT_DIR_SECTOR && Opened(root) && !root.removed
                && root != freeMapFile
    {
      hide OwnInv, OpenInv, EntriesOk, RootEntries, RootOn, Names;
      root := Open(ROOT_DIR_SECTOR, mem);
      if root != null && !memDir {
        Close(root, true, true);
        root := null;
      }
    }

    /** The free map's file is not the root directory's. */
    lemma MapApart(d: seq<Sector>)
      requires ValidOn(d) && RootInv(d)
      ensures Owned(d, ROOT_DIR_SECTOR) !! MapData() && RootOn(d) && MapData() <= Used() && FREE_MAP_SECTOR in Used()
      ensures Owned(d, ROOT_DIR_SECTOR) <= Used()
    {
      hide OpenInv, Flat;
      OpenFacts(d, freeMapFile);
      assert InodeOk(d, Used(), FREE_MAP_SECTOR) && InodeOk(d, Used(), ROOT_DIR_SECTOR);
    }

    /** Writes that do not touch the root directory leave it consistent. */
    lemma RootKept(d: seq<Sector>, e: seq<Sector>, marked: set<nat>, g: set<nat>)
      requires OwnInv(d, marked, exist) && RootInv(d) && SameBut(d, e, g) && Owned(d, ROOT_DIR_SECTOR) !! g
      ensures RootInv(e) && RootEntries(e) == RootEntries(d)
    {
      hide OwnInv, EntriesOk, Names, RootEntries;
      RootSame(d, e, marked, exist, g);
    }

    /** The first step of filesys_create: a sector for the inode. */
    method NewInodeSector(mem: bool) returns (ok: bool, s: nat)
      requires Consistent()
      modifies dev, freeMap.bits
      ensures Consistent() && RootEntries(dev.sectors) == old(RootEntries(dev.sectors))
      ensures SameInodes(old(dev.sectors), dev.sectors, exist)
      ensures ok <==> HasRoom(old(Used()), |dev.sectors|, 1) && MapSaved(mem)
      ensures !ok ==> Used() == old(Used())
      ensures ok ==> FirstRoom(old(Used()), |dev.sectors|, 1, s)
      ensures old(MapOnDisk()) && MapSaved(mem) ==> MapOnDisk()
      ensures FilesKept(old(dev.sectors), dev.sectors, exist)
      ensures ok ==>
                s > ROOT_DIR_SECTOR && s !in exist && s !in old(Used()) && Used() == old(Used()) + {s}
                && s !in MapData()
                && Unowned(dev.sectors, exist, {s}) && !Names(RootEntries(dev.sectors), s)
                && forall n :: n in open ==> n.sector != s
    {
      hide OwnInv, OpenInv, EntriesOk, Names, Unowned, RootEntries, Saved, FirstRoom, HasRoom, StartOf, LengthOf;
      hide FilesKept, Spares;
      ghost var d, used := dev.sectors, Used();
      MapApart(d);
      MapSpares(d);
      ok, s := Allocate(1, mem);
      RootKept(d, dev.sectors, used, MapData());
      KeptBut(d, dev.sectors, used, exist, MapData());
      if ok {
        TakenSector(used, |d|, s);
        SameInodesOwn(d, dev.sectors, used, exist);
        NewSectorOf(dev.sectors, used, s);
      }
    }

    lemma NewSectorOf(d: seq<Sector>, used: set<nat>, s: nat)
      requires ValidOn(d) && RootInv(d) && OwnInv(d, used, exist) && s !in used
      ensures s > ROOT_DIR_SECTOR && s !in exist && s !in MapData() && !Names(RootEntries(d), s)
              && Unowned(d, exist, {s})
      ensures forall n :: n in open ==> n.sector != s
    {
      hide OpenInv, RootEntries;
      OpenFacts(d, freeMapFile);
      forall t | t in exist ensures t in used && Sound(d, t) && s !in Data(d, t) { assert InodeOk(d, used, t); }
      NamedExist(RootEntries(d), exist, s);
      FreeIsUnowned(d, used, exist, {s});
      forall n | n in open ensures n.sector != s { OpenFacts(d, n); }
    }

    /** The second step: the inode, with its data. */
    method NewInode(s: nat, length: nat, memInode: bool, mem: bool) returns (ok: bool)
      requires Consistent() && length < MAX_OFF && s in Used() && s !in exist && s !in MapData() && s > ROOT_DIR_SECTOR
      requires Unowned(dev.sectors, exist, {s}) && !Names(RootEntries(dev.sectors), s)
      modifies this`exist, dev, freeMap.bits
      ensures Consistent() && RootEntries(dev.sectors) == old(RootEntries(dev.sectors))
              && !Names(RootEntries(dev.sectors), s)
      ensures SameInodes(old(dev.sectors), dev.sectors, old(exist))
      ensures ok <==> memInode && HasRoom(old(Used()), |dev.sectors|, BytesToSectors(length)) && MapSaved(mem)
      ensures !ok ==> exist == old(exist) && Used() == old(Used()) && Unowned(dev.sectors, exist, {s})
      ensures ok ==> exist == old(exist) + {s} && Sound(dev.sectors, s) && LengthOf(dev.sectors[s]) == length
                     && Data(dev.sectors, s) !! old(Used()) && Used() == old(Used()) + Data(dev.sectors, s)
                     && FirstRoom(old(Used()), |dev.sectors|, BytesToSectors(length), StartOf(dev.sectors[s]))
      ensures ok || (old(MapOnDisk()) && MapSaved(mem)) ==> MapOnDisk()
      ensures FilesKept(old(dev.sectors), dev.sectors, old(exist)) && (ok ==> ZeroFile(dev.sectors, s))
    {
      hide OwnInv, OpenInv, EntriesOk, Names, Unowned, RootEntries, HasRoom, FirstRoom, Saved, FilesKept, ZeroFile,
        Spares;
      ghost var d, used := dev.sectors, Used();
      MapApart(d);
      RootDoesNotOwn(d, s);
      MapSpares(d);
      ok := Create(s, length, memInode, mem);
      SameInodesUnowned(d, dev.sectors, old(exist), {s});
      ghost var g := if ok then MapData() + Owned(dev.sectors, s) else MapData();
      assert Owned(d, ROOT_DIR_SECTOR) !! g;
      if ok {
        NamedExist(RootEntries(d), old(exist), s);
        NewSpares(d, used, old(exist), s, Data(dev.sectors, s), MapData());
        ZeroData(dev.sectors, Used(), exist, s);
      }
      KeptBut(d, dev.sectors, used, old(exist), g);
      RootKeptFor(d, dev.sectors, used, old(exist), g);
    }

    lemma RootDoesNotOwn(d: seq<Sector>, s: nat)
      requires ROOT_DIR_SECTOR in exist && Unowned(d, exist, {s})
      ensures Sound(d, ROOT_DIR_SECTOR) && s !in Owned(d, ROOT_DIR_SECTOR)
    {
      assert Owned(d, ROOT_DIR_SECTOR) !! {s};
    }

    /** As RootKept, when an inode was added. */
    lemma RootKeptFor(d: seq<Sector>, e: seq<Sector>, marked: set<nat>, was: set<nat>, g: set<nat>)
      requires OwnInv(d, marked, was) && ROOT_DIR_SECTOR in was && FREE_MAP_SECTOR in was && freeMapFile != null
               && RootOn(d)
      requires was <= exist && EntriesOk(RootEntries(d), exist)
      requires forall n :: n in open && n.removed ==> n.sector > ROOT_DIR_SECTOR && !Names(RootEntries(d), n.sector)
      requires forall n :: n in open && n.sector == ROOT_DIR_SECTOR ==> n.denyWriteCnt == 0
      requires SameBut(d, e, g) && Owned(d, ROOT_DIR_SECTOR) !! g
      ensures RootInv(e) && RootEntries(e) == RootEntries(d)
    {
      hide OwnInv, EntriesOk, Names, RootEntries;
      RootSame(d, e, marked, was, g);
    }

    /** The third step: dir_add of an existing inode that has no name yet. */
    method AddEntry(root: INode, name: Name, s: nat, limit: nat, limit': nat, mem: bool) returns (ok: bool)
      requires Consistent() && root in open && root.sector == ROOT_DIR_SECTOR && 0 !in name && s < WORD
      requires s in exist && s > ROOT_DIR_SECTOR && !Names(RootEntries(dev.sectors), s)
               && forall n :: n in open ==> n.sector != s
      modifies dev
      ensures Consistent() && SameInodes(old(dev.sectors), dev.sectors, exist)
      ensures ok <==> Addable(old(RootEntries(dev.sectors)), name, limit, limit', mem)
      ensures !ok ==> RootEntries(dev.sectors) == old(RootEntries(dev.sectors))
      ensures ok ==> Named(old(RootEntries(dev.sectors)), RootEntries(dev.sectors), name, s, limit, limit')
      ensures old(MapOnDisk()) ==> MapOnDisk()
      ensures FilesKept(old(dev.sectors), dev.sectors, exist)
    {
      hide OwnInv, OpenInv, EntriesOk, Names, Flat, OnlyWithin, Entries, Table, Unique, Found, NameOf, Saved, FilesKept;
      ghost var d, es := dev.sectors, RootEntries(dev.sectors);
      OpenFacts(d, root);
      var dir := new Directory.Dir(root);
      ok := dir.Add(dev, name, s, limit, limit', mem);
      WroteFile(d, root);
      MapNotWritten(d, ROOT_DIR_SECTOR);
      RootSpares(d);
      OpenFacts(dev.sectors, root);
      assert dir.All(dev) == RootEntries(dev.sectors);
      if ok {
        ghost var slot :| 0 <= slot < |es| && Directory.Filled(es, RootEntries(dev.sectors), limit', slot, name, s);
        EntryAdded(es, exist, slot, RootEntries(dev.sectors)[slot], s);
      }
    }

    /** filesys_create's cleanup: the inode's sector alone goes back to the free map. */
    method DropInode(s: nat, mem: bool)
      requires Consistent() && s in Used() && s > ROOT_DIR_SECTOR && !Names(RootEntries(dev.sectors), s)
      requires forall n :: n in open ==> n.sector != s
      requires s !in exist ==> Unowned(dev.sectors, exist, {s})
      modifies this`exist, dev, freeMap.bits
      ensures Consistent() && RootEntries(dev.sectors) == old(RootEntries(dev.sectors))
      ensures exist == old(exist) - {s} && Used() == old(Used()) - {s}
              && SameInodes(old(dev.sectors), dev.sectors, exist)
      ensures MapSaved(mem) ==> MapOnDisk()
      ensures FilesKept(old(dev.sectors), dev.sectors, exist)
    {
      hide OwnInv, OpenInv, EntriesOk, Names, Unowned, RootEntries, Saved, FilesKept, Spares;
      ghost var d, used := dev.sectors, Used();
      MarkedBelow(s);
      MapApart(d);
      NamedExist(RootEntries(d), exist, s);
      DropKeeps(d, used, exist, s);
      assert {s} <= used;
      OpenLess(open, d, exist, s);
      exist := exist - {s};
      MapSpares(d);
      Release(s, 1, mem);
      RootKept(d, dev.sectors, used, MapData());
      KeptBut(d, dev.sectors, used, exist, MapData());
    }

    /** The root directory can be opened. */
    ghost predicate RootOpens(m: Memory)
      reads this
    {
      m.dir && (m.root || IsOpen(ROOT_DIR_SECTOR))
    }

    /** There are a sector for an inode and an extent for its data, and the memory to take them. */
    ghost predicate Stored(length: nat, m: Memory)
      requires freeMap.Valid() && length < MAX_OFF
      reads this, dev, freeMap.bits
    {
      && MapSaved(m.map1) && m.inode && MapSaved(m.map2)
      && exists s: nat ::
           FirstRoom(Used(), |dev.sectors|, 1, s)
           && HasRoom(Used() + {s}, |dev.sectors|, BytesToSectors(length))
    }

    /** Every write of the free map reaches its file. */
    ghost predicate Saves(m: Memory)
      reads this`freeMapFile
    {
      MapSaved(m.map1) && MapSaved(m.map2) && MapSaved(m.map3)
    }

    /** The root directory can take the name. */
    ghost predicate Enters(name: Name, m: Memory)
      requires RootOn(dev.sectors)
      reads dev
    {
      Addable(RootEntries(dev.sectors), name, m.lookup, m.slot, m.write)
    }

    /** The first two steps of filesys_create, and their cleanup. */
    method MakeInode(length: nat, m: Memory) returns (ok: bool, s: nat)
      requires Consistent() && length < MAX_OFF
      modifies this`exist, dev, freeMap.bits
      ensures Consistent() && RootEntries(dev.sectors) == old(RootEntries(dev.sectors))
      ensures SameInodes(old(dev.sectors), dev.sectors, old(exist))
      ensures ok <==> old(Stored(length, m))
      ensures !ok ==> exist == old(exist) && Used() == old(Used())
      ensures ok ==>
                NewFile(old(Used()), length, s) && exist == old(exist) + {s} && s !in old(exist)
                && FirstPlaces(old(Used()), s)
      ensures ok ==>
                s > ROOT_DIR_SECTOR && !Names(RootEntries(dev.sectors), s)
                && forall n :: n in open ==> n.sector != s
      ensures ok || (old(MapOnDisk()) && Saves(m)) ==> MapOnDisk()
      ensures FilesKept(old(dev.sectors), dev.sectors, old(exist)) && (ok ==> ZeroFile(dev.sectors, s))
    {
      hide OwnInv, OpenInv, EntriesOk, Names, Unowned, RootEntries, RootOn, FirstRoom, HasRoom, Saved, StartOf,
        LengthOf, FilesKept, ZeroFile;
      SameInodesRefl();
      ghost var used, n := Used(), |dev.sectors|;
      var got;
      got, s := NewInodeSector(m.map1);
      if !got {
        NoFirst(used, n, 1);
        return false, s;
      }
      FirstChoice(used, n, s, BytesToSectors(length));
      ghost var d0, d1 := old(dev.sectors), dev.sectors;
      ok := NewInode(s, length, m.inode, m.map2);
      ghost var d2 := dev.sectors;
      SameInodesTrans(d0, d1, d2, old(exist));
      KeptTrans(d0, d1, d2, old(exist));
      if !ok {
        assert exist - {s} == exist;
        DropInode(s, m.map3);
        assert used + {s} - {s} == used;
        SameInodesTrans(d0, d2, dev.sectors, old(exist));
        KeptTrans(d0, d2, dev.sectors, old(exist));
      }
    }

    /** filesys_create, with the root directory open. When the entry cannot be added the inode's sector is released
        but its data sectors stay marked; that is exactly when failure leaves a mark. */
    method CreateIn(root: INode, name: Name, length: nat, m: Memory) returns (ok: bool, ghost s: nat)
      requires Consistent() && root in open && root.sector == ROOT_DIR_SECTOR && 0 !in name && length < MAX_OFF
      modifies this`exist, dev, freeMap.bits
      ensures Consistent() && SameInodes(old(dev.sectors), dev.sectors, old(exist))
      ensures ok <==> old(Stored(length, m)) && old(Enters(name, m))
      ensures !ok ==> (Used() != old(Used()) <==> old(Stored(length, m)) && BytesToSectors(length) > 0)
      ensures ok ==>
                NewFile(old(Used()), length, s) && exist == old(exist) + {s} && s !in old(exist)
                && FirstPlaces(old(Used()), s)
                && Named(old(RootEntries(dev.sectors)), RootEntries(dev.sectors), name, s, m.lookup, m.slot)
      ensures !ok ==> exist == old(exist) && RootEntries(dev.sectors) == old(RootEntries(dev.sectors))
                      && Leaked(old(Used()), Used(), |dev.sectors|, BytesToSectors(length))
      ensures old(MapOnDisk()) && Saves(m) ==> MapOnDisk()
      ensures FilesKept(old(dev.sectors), dev.sectors, old(exist)) && (ok ==> ZeroFile(dev.sectors, s))
    {
      hide OwnInv, OpenInv, EntriesOk, Names, RootEntries, RootOn, Named, Stored, Addable, FirstRoom, Saved, FilesKept;
      hide ZeroFile;
      ghost var used := Used();
      NoLeak(used, |dev.sectors|, BytesToSectors(length));
      var made, sector := MakeInode(length, m);
      s := sector;
      if !made { return false, s; }
      MarkedBelow(sector);
      ghost var d := dev.sectors;
      ok := AddEntry(root, name, sector, m.lookup, m.slot, m.write);
      ghost var e := dev.sectors;
      if ok { StillZero(d, e, exist, sector); }
      KeptLess(d, e, exist, old(exist));
      KeptTrans(old(dev.sectors), d, e, old(exist));
      SameInodesLess(d, e, exist, old(exist));
      SameInodesTrans(old(dev.sectors), d, e, old(exist));
      if !ok {
        DropInode(sector, m.map3);
        assert exist == old(exist);
        SameInodesTrans(old(dev.sectors), e, dev.sectors, old(exist));
        KeptTrans(old(dev.sectors), e, dev.sectors, old(exist));
        LeftMarked(used, Used(), |d|, s, StartOf(d[s]), BytesToSectors(length));
      }
    }

    /** The file just made: a sector that was free, and data sectors that were free. */
    ghost predicate NewFile(was: set<nat>, length: nat, s: nat)
      requires freeMap.Valid()
      reads dev, freeMap.bits
    {
      && Sound(dev.sectors, s) && LengthOf(dev.sectors[s]) == length && s !in was && Data(dev.sectors, s) !! was
      && s !in Data(dev.sectors, s) && Used() == was + Owned(dev.sectors, s)
    }

    /** Its sectors are the first that were free. */
    ghost predicate FirstPlaces(was: set<nat>, s: nat)
      requires Sound(dev.sectors, s)
      reads dev
    {
      && FirstRoom(was, |dev.sectors|, 1, s)
      && FirstRoom(was + {s}, |dev.sectors|, BytesToSectors(LengthOf(dev.sectors[s])), StartOf(dev.sectors[s]))
    }

    /** filesys_create: a new file with sectors of its own gets the name, or nothing happens but, at worst, the
        leak of one extent. No opener is left behind. */
    method CreateFile(name: Name, length: nat, m: Memory) returns (ok: bool, ghost s: nat)
      requires Consistent() && 0 !in name && length < MAX_OFF
      modifies this`open, this`exist, open, dev, freeMap.bits
      ensures Consistent() && SameOpenBut(null) && SameInodes(old(dev.sectors), dev.sectors, old(exist))
      ensures ok <==> old(RootOpens(m) && Stored(length, m) && Enters(name, m))
      ensures !ok ==> (Used() != old(Used()) <==>
                old(RootOpens(m) && Stored(length, m) && !Enters(name, m)) && BytesToSectors(length) > 0)
      ensures ok ==>
                NewFile(old(Used()), length, s) && exist == old(exist) + {s} && s !in old(exist)
                && FirstPlaces(old(Used()), s)
                && Named(old(RootEntries(dev.sectors)), RootEntries(dev.sectors), name, s, m.lookup, m.slot)
      ensures !ok ==> exist == old(exist) && RootEntries(dev.sectors) == old(RootEntries(dev.sectors))
                      && Leaked(old(Used()), Used(), |dev.sectors|, BytesToSectors(length))
      ensures old(MapOnDisk()) && Saves(m) ==> MapOnDisk()
      ensures FilesKept(old(dev.sectors), dev.sectors, old(exist)) && (ok ==> ZeroFile(dev.sectors, s))
    {
      hide OwnInv, OpenInv, EntriesOk, Names, RootEntries, RootOn, Named, Leaked, Saved, FilesKept, ZeroFile;
      var root := OpenRoot(m.root, m.dir);
      NoLeak(Used(), |dev.sectors|, BytesToSectors(length));
      SameInodesRefl();
      KeptSame(dev.sectors, Used(), exist);
      if root == null { return false, 0; }
      ok, s := CreateIn(root, name, length, m);
      CloseKept(root);
    }

    /** inode_close by a client: the last close of a removed file releases its sectors, any other close none. */
    method CloseFile(n: INode, mem: bool, mem': bool)
      requires Consistent() && n in open && (n == freeMapFile ==> n.openCnt > 1)
      modifies this`open, this`exist, n, dev, freeMap.bits
      ensures Consistent() && n.openCnt == old(n.openCnt) - 1 && n.removed == old(n.removed)
              && n.denyWriteCnt == old(n.denyWriteCnt)
      ensures RootEntries(dev.sectors) == old(RootEntries(dev.sectors))
      ensures old(n.openCnt) > 1 ==> open == old(open)
      ensures old(n.openCnt) == 1 ==> forall m :: m in open <==> m in old(open) && m != n
      ensures !(old(n.openCnt) == 1 && n.removed) ==>
                exist == old(exist) && Used() == old(Used()) && dev.sectors == old(dev.sectors)
      ensures old(n.openCnt) == 1 && n.removed ==>
                && n.sector in old(exist) && Sound(old(dev.sectors), n.sector)
                && exist == old(exist) - {n.sector} && Used() == old(Used()) - Owned(old(dev.sectors), n.sector)
                && SameInodes(old(dev.sectors), dev.sectors, exist)
      ensures old(MapOnDisk()) && MapSaved(mem') ==> MapOnDisk()
      ensures FilesKept(old(dev.sectors), dev.sectors, exist)
    {
      hide OwnInv, OpenInv, EntriesOk, Names, RootEntries, RootOn, Saved, FilesKept, Spares;
      ghost var d, used := dev.sectors, Used();
      MapApart(d);
      MapSpares(d);
      KeptSame(d, used, exist);
      NamedExist(RootEntries(d), exist, n.sector);
      Close(n, mem, mem');
      if old(n.openCnt) == 1 && n.removed {
        RootSame(d, dev.sectors, used, old(exist), MapData());
        KeptBut(d, dev.sectors, used, old(exist), MapData());
        KeptLess(d, dev.sectors, old(exist), exist);
      }
    }

    /** Closing a file that is not removed: one opener less, and nothing else. */
    method CloseKept(n: INode)
      requires Consistent() && n in open && !n.removed && n != freeMapFile
      modifies this`open, this`exist, n, dev, freeMap.bits
      ensures Consistent() && exist == old(exist) && Used() == old(Used()) && dev.sectors == old(dev.sectors)
      ensures n.openCnt == old(n.openCnt) - 1 && !n.removed && n.denyWriteCnt == old(n.denyWriteCnt)
              && (MapOnDisk() <==> old(MapOnDisk()))
      ensures old(n.openCnt) > 1 ==> open == old(open)
      ensures old(n.openCnt) == 1 ==> forall m :: m in open <==> m in old(open) && m != n
    {
      hide Valid, RootInv, Saved;
      CloseFile(n, true, true);
    }

    /** lookup in the root directory: a name found is an existing file's. */
    method LookupRoot(root: INode, name: Name, limit: nat) returns (found: bool, k: nat, raw: seq<Byte>)
      requires Consistent() && root in open && root.sector == ROOT_DIR_SECTOR
      ensures found <==> Found(RootEntries(dev.sectors), name, limit)
      ensures found ==>
                |raw| == ENTRY && FirstUse(RootEntries(dev.sectors), name, limit, k)
                && raw == RootEntries(dev.sectors)[k]
                && InUse(raw) && SectorOf(raw) in exist && SectorOf(raw) > ROOT_DIR_SECTOR
                && Names(RootEntries(dev.sectors), SectorOf(raw))
    {
      hide OwnInv, OpenInv, Flat, Entries, Found, NameOf;
      OpenFacts(dev.sectors, root);
      var dir := new Directory.Dir(root);
      found, k, raw := dir.Lookup(dev, name, limit);
      assert dir.All(dev) == RootEntries(dev.sectors);
    }

    /** inode_open of an existing inode, in a consistent state. */
    method OpenInode(sector: nat, mem: bool) returns (r: INode?)
      requires Consistent() && sector in exist
      modifies this`open, open
      ensures Consistent() && SameOpenBut(r) && (r == null <==> !old(IsOpen(sector)) && !mem)
      ensures r != null ==> r in open && r.sector == sector && Opened(r)
      ensures r != null && r !in old(open) ==> forall n :: n in old(open) ==> n.sector != sector
    {
      hide OwnInv, OpenInv, EntriesOk, Names, RootEntries, RootOn;
      r := Open(sector, mem);
    }

    /** The name has an entry that lookup sees, and its inode is open or there is memory to open it. */
    ghost predicate Opens(name: Name, m: Memory)
      requires RootOn(dev.sectors)
      reads this, dev
    {
      OpensIn(RootEntries(dev.sectors), name, m, OpenSectors())
    }

    /** The sectors of the open inodes. */
    ghost function OpenSectors(): (s: set<nat>)
      reads this
      ensures forall t :: t in s <==> IsOpen(t)
    {
      set n | n in open :: n.sector
    }

    /** filesys_open: the named file's inode, with one opener more. */
    method OpenFile(name: Name, m: Memory) returns (r: INode?)
      requires Consistent()
      modifies this`open, this`exist, open, dev, freeMap.bits
      ensures Consistent() && exist == old(exist) && dev.sectors == old(dev.sectors) && Used() == old(Used())
      ensures SameOpenBut(r)
      ensures r != null ==> r in open && Opened(r) && Leads(name, m.lookup, r)
      ensures r != null <==> old(RootOpens(m) && Opens(name, m)) && m.file
    {
      hide OwnInv, OpenInv, EntriesOk, Names, RootEntries, RootOn, Found, Leads;
      r := OpenByName(name, m);
      if r != null && !m.file {
        CloseKept(r);
        r := null;
      }
    }

    /** The name's first entry in use, among those that can be read, is this inode's. */
    ghost predicate Leads(name: Name, limit: nat, r: INode)
      requires RootOn(dev.sectors)
      reads dev, r
    {
      && !r.removed && r.sector > ROOT_DIR_SECTOR
      && exists k: nat ::
           FirstUse(RootEntries(dev.sectors), name, limit, k)
           && r.sector == SectorOf(RootEntries(dev.sectors)[k])
    }

    /** dir_open_root, before looking for a name: it does not change whether the name can be opened. */
    method OpenRootFor(name: Name, m: Memory) returns (root: INode?)
      requires Consistent()
      modifies this`open, this`exist, open, dev, freeMap.bits
      ensures Consistent() && exist == old(exist) && dev.sectors == old(dev.sectors) && Used() == old(Used())
      ensures SameOpenBut(root) && (root != null <==> old(RootOpens(m))) && (Opens(name, m) <==> old(Opens(name, m)))
      ensures MapOnDisk() <==> old(MapOnDisk())
      ensures root != null ==>
                root in open && root.sector == ROOT_DIR_SECTOR && Opened(root) && !root.removed
                && root != freeMapFile
    {
      hide OwnInv, OpenInv, EntriesOk, RootEntries, OpensIn, Names, Saved;
      root := OpenRoot(m.root, m.dir);
      SameOpens(RootEntries(dev.sectors), exist, name, m, old(OpenSectors()), OpenSectors());
    }

    method OpenByName(name: Name, m: Memory) returns (r: INode?)
      requires Consistent()
      modifies this`open, this`exist, open, dev, freeMap.bits
      ensures Consistent() && exist == old(exist) && dev.sectors == old(dev.sectors) && Used() == old(Used())
      ensures SameOpenBut(r)
      ensures r != null ==>
                r in open && Opened(r) && Leads(name, m.lookup, r) && r.sector > ROOT_DIR_SECTOR
                && !r.removed
      ensures r != null <==> old(RootOpens(m) && Opens(name, m))
    {
      hide OwnInv, OpenInv, EntriesOk, Names, RootEntries, RootOn, FirstUse, Found, Opens, RootOpens;
      var root := OpenRootFor(name, m);
      if root == null { return null; }
      assert forall i :: 0 <= i < |open| ==> open[i] in old(open) || fresh(open[i]);
      r := OpenIn(root, name, m);
      CloseKept(root);
    }

    /** dir_lookup in the root directory. */
    method OpenIn(root: INode, name: Name, m: Memory) returns (r: INode?)
      requires Consistent() && root in open && root.sector == ROOT_DIR_SECTOR
      modifies this`open, open
      ensures Consistent() && SameOpenBut(r)
      ensures r != null ==> r in open && Opened(r) && Leads(name, m.lookup, r)
      ensures r != null <==> old(Opens(name, m))
    {
      hide OwnInv, OpenInv, EntriesOk, Names, RootEntries, RootOn, FirstUse, Found;
      r := null;
      ghost var es := RootEntries(dev.sectors);
      FoundFirst(es, name, m.lookup);
      var found, k, raw := LookupRoot(root, name, m.lookup);
      if found {
        OnlyFirst(es, name, m.lookup, k);
        r := OpenInode(SectorOf(raw), m.inode);
      }
    }

    lemma WithMemory(name: Name, m: Memory)
      requires Consistent()
      ensures m.inode ==> (Opens(name, m) <==> Found(RootEntries(dev.sectors), name, m.lookup))
    {
      hide Valid, RootEntries, Found, FirstUse;
      FoundFirst(RootEntries(dev.sectors), name, m.lookup);
    }

    /** dir_remove's two effects: the entry is erased, and the inode marked removed. */
    method EraseName(root: INode, n: INode, k: nat, raw: Raw, mem: bool) returns (ok: bool)
      requires Consistent() && root in open && root.sector == ROOT_DIR_SECTOR && n in open
      requires k < |RootEntries(dev.sectors)| && raw == RootEntries(dev.sectors)[k] && InUse(raw)
               && n.sector == SectorOf(raw) > ROOT_DIR_SECTOR
      modifies dev, n`removed
      ensures Consistent() && SameInodes(old(dev.sectors), dev.sectors, exist)
      ensures ok <==> mem
      ensures ok ==> n.removed && RootEntries(dev.sectors) == old(RootEntries(dev.sectors))[k := Erased(raw)]
      ensures !ok ==> n.removed == old(n.removed) && RootEntries(dev.sectors) == old(RootEntries(dev.sectors))
      ensures old(MapOnDisk()) ==> MapOnDisk()
      ensures FilesKept(old(dev.sectors), dev.sectors, exist)
    {
      hide OwnInv, OpenInv, EntriesOk, Names, Flat, OnlyWithin, Entries, Saved, FilesKept;
      ghost var d, es := dev.sectors, RootEntries(dev.sectors);
      OpenFacts(d, root);
      var dir := new Directory.Dir(root);
      ok := dir.WriteEntry(dev, Erased(raw), k, mem);
      WroteFile(d, root);
      MapNotWritten(d, ROOT_DIR_SECTOR);
      RootSpares(d);
      OpenFacts(dev.sectors, root);
      assert dir.All(dev) == RootEntries(dev.sectors);
      if ok {
        EntryErased(es, exist, k);
        Remove(n);
      }
    }

    /** dir_remove from the opened inode on. */
    method EraseAndClose(root: INode, n: INode, k: nat, raw: Raw, m: Memory) returns (ok: bool)
      requires Consistent() && root in open && root.sector == ROOT_DIR_SECTOR && n in open && !n.removed
      requires k < |RootEntries(dev.sectors)| && raw == RootEntries(dev.sectors)[k] && InUse(raw)
               && n.sector == SectorOf(raw) > ROOT_DIR_SECTOR
      modifies this`open, this`exist, n, dev, freeMap.bits
      ensures Consistent() && n.openCnt == old(n.openCnt) - 1 && n.denyWriteCnt == old(n.denyWriteCnt)
              && n.removed == ok == m.write
      ensures RootEntries(dev.sectors) == if ok then old(RootEntries(dev.sectors))[k := Erased(raw)]
              else old(RootEntries(dev.sectors))
      ensures old(n.openCnt) > 1 ==> open == old(open)
      ensures old(n.openCnt) == 1 ==> forall i :: i in open <==> i in old(open) && i != n
      ensures !ok || old(n.openCnt) > 1 ==> exist == old(exist) && Used() == old(Used())
      ensures ok && old(n.openCnt) == 1 ==>
                Sound(old(dev.sectors), n.sector) && exist == old(exist) - {n.sector}
                  && Used() == old(Used()) - Owned(old(dev.sectors), n.sector)
      ensures old(MapOnDisk()) && MapSaved(m.map2) ==> MapOnDisk()
      ensures FilesKept(old(dev.sectors), dev.sectors, exist)
    {
      hide OwnInv, OpenInv, EntriesOk, Names, RootEntries, RootOn, Erased, Saved, FilesKept;
      ghost var d := dev.sectors;
      OpenFacts(d, n);
      ok := EraseName(root, n, k, raw, m.write);
      assert dev.sectors[n.sector] == d[n.sector];
      ghost var e := dev.sectors;
      CloseFile(n, m.map1, m.map2);
      KeptLess(d, e, old(exist), exist);
      KeptTrans(d, e, dev.sectors, exist);
    }

    /** dir_remove with the root directory open. */
    method RemoveIn(root: INode, name: Name, m: Memory) returns (ok: bool, ghost k: nat, ghost r: INode?)
      requires Consistent() && root in open && root.sector == ROOT_DIR_SECTOR
      modifies this`open, this`exist, open, dev, freeMap.bits
      ensures Consistent() && RemoveEffect(name, m.lookup, ok, k, r)
      ensures ok <==> m.write && old(Opens(name, m))
      ensures old(MapOnDisk()) && MapSaved(m.map2) ==> MapOnDisk()
      ensures r != root && root in open && root.openCnt == old(root.openCnt) && root.removed == old(root.removed)
    {
      hide OwnInv, OpenInv, EntriesOk, RootEntries, Found, Erased, FirstUse, SectorOf, Names, Owned, Saved, FilesKept;
      NothingRemoved(name, m.lookup);
      ghost var es := RootEntries(dev.sectors);
      FoundFirst(es, name, m.lookup);
      var found, at, raw := LookupRoot(root, name, m.lookup);
      if !found { return false, at, null; }
      OnlyFirst(es, name, m.lookup, at);
      ok, r := RemoveFound(root, name, at, raw, m);
      k := at;
    }

    method RemoveFound(root: INode, name: Name, k: nat, raw: Raw, m: Memory) returns (ok: bool, ghost r: INode?)
      requires Consistent() && root in open && root.sector == ROOT_DIR_SECTOR
      requires FirstUse(RootEntries(dev.sectors), name, m.lookup, k) && raw == RootEntries(dev.sectors)[k] && InUse(raw)
      requires SectorOf(raw) in exist && SectorOf(raw) > ROOT_DIR_SECTOR
               && Names(RootEntries(dev.sectors), SectorOf(raw))
      modifies this`open, this`exist, open, dev, freeMap.bits
      ensures Consistent() && RemoveEffect(name, m.lookup, ok, k, r)
      ensures ok <==> m.write && (m.inode || old(IsOpen(SectorOf(raw))))
      ensures old(MapOnDisk()) && MapSaved(m.map2) ==> MapOnDisk()
      ensures r != root && root in open && root.openCnt == old(root.openCnt) && root.removed == old(root.removed)
    {
      hide OwnInv, OpenInv, EntriesOk, Names, RootEntries, RootOn, Erased, FirstUse, Owned, SectorOf, Saved, FilesKept;
      NothingRemoved(name, m.lookup);
      FirstUseFacts(RootEntries(dev.sectors), name, m.lookup, k);
      var n := OpenInode(SectorOf(raw), m.inode);
      if n == null { return false, null; }
      r := if n in old(open) then n else null;
      ok := EraseAndClose(root, n, k, raw, m);
    }

    /** filesys_remove. With memory it succeeds exactly when the name is there. */
    method RemoveFile(name: Name, m: Memory) returns (ok: bool, ghost k: nat, ghost r: INode?)
      requires Consistent()
      modifies this`open, this`exist, open, dev, freeMap.bits
      ensures Consistent() && RemoveEffect(name, m.lookup, ok, k, r)
      ensures ok <==> old(RootOpens(m) && m.write && Opens(name, m))
      ensures m.root && m.dir && m.inode && m.write ==> (ok <==> Found(old(RootEntries(dev.sectors)), name, m.lookup))
      ensures old(MapOnDisk()) && MapSaved(m.map2) ==> MapOnDisk()
    {
      hide Valid, RootInv, RootEntries, RemoveEffect, Opens, Found, Saved;
      WithMemory(name, m);
      ok, k, r := RemoveByName(name, m);
    }

    method RemoveByName(name: Name, m: Memory) returns (ok: bool, ghost k: nat, ghost r: INode?)
      requires Consistent()
      modifies this`open, this`exist, open, dev, freeMap.bits
      ensures Consistent() && RemoveEffect(name, m.lookup, ok, k, r)
      ensures ok <==> old(RootOpens(m)) && m.write && old(Opens(name, m))
      ensures old(MapOnDisk()) && MapSaved(m.map2) ==> MapOnDisk()
    {
      hide Valid, RootInv, RootEntries, Erased, FirstUse, SectorOf, Owned, Sound, Opens, RootOpens, Used, MapFileOk,
        MapOnDisk, MapSaved, FilesKept, Removal, Owners;
      NothingRemoved(name, m.lookup);
      var root := OpenRootFor(name, m);
      if root == null { return false, 0, null; }
      assert forall i :: 0 <= i < |open| ==> open[i] in old(open) || fresh(open[i]);
      ok, k, r := RemoveIn(root, name, m);
      CloseKept(root);
    }

    /** What removing a name does: nothing; or the entry is erased, and the file it named is removed: marked so
        if it was open, and gone with all its sectors if it was not. No file that still exists loses or changes a byte,
        removed or not. */
    twostate predicate RemoveEffect(name: Name, limit: nat, ok: bool, k: nat, new r: INode?)
      reads this, dev, freeMap.bits, open, freeMapFile, r
      requires old(Consistent()) && Consistent()
    {
      var es := old(RootEntries(dev.sectors));
      && FilesKept(old(dev.sectors), dev.sectors, exist) && (ok ==> k < |es|)
      && Removal(es, RootEntries(dev.sectors), name, limit, ok, k)
      && Owners(old(dev.sectors), old(exist), exist, old(Used()), Used(),
                if ok && r == null then Some(SectorOf(es[k])) else None)
      && (ok ==> RemovedInode(SectorOf(es[k]), r))
      && SameOpenBut(if ok then r else null)
    }

    /** The file at `s` is marked removed, by the inode that is open, or nobody has it open. */
    twostate predicate RemovedInode(s: nat, new r: INode?)
      reads this, open, r
    {
      if r == null then forall n :: n in old(open) ==> n.sector != s
      else
        && r in old(open) && r in open && r.sector == s && r.removed
        && r.openCnt == old(r.openCnt) && r.denyWriteCnt == old(r.denyWriteCnt)
    }

    /** inode_write_at by a client: no other file's bytes change, nor the directory, nor who owns what. */
    method WriteFile(n: INode, buffer: seq<Byte>, size: int, offset: nat, mem: bool) returns (w: nat)
      requires Consistent() && n in open && n.sector > ROOT_DIR_SECTOR && size <= |buffer|
      modifies dev
      ensures Consistent() && RootEntries(dev.sectors) == old(RootEntries(dev.sectors))
      ensures w <= |buffer| && w == if n.denyWriteCnt > 0 then 0 else Moved(n.length, size, offset, mem)
      ensures OnDisk(old(dev.sectors), n.sector) && OnDisk(dev.sectors, n.sector)
      ensures FileBytes(dev.sectors, n.sector) ==
                if w == 0 then old(FileBytes(dev.sectors, n.sector))
                  else Splice(old(FileBytes(dev.sectors, n.sector)), offset, buffer[..w])
      ensures forall s :: s in exist && s != n.sector ==> SameBytes(old(dev.sectors), dev.sectors, s)
      ensures old(MapOnDisk()) ==> MapOnDisk()
    {
      hide OwnInv, OpenInv, EntriesOk, Names, RootEntries, Flat, Splice, OnlyWithin, Available, Moved, NeedsBounce;
      hide SameInodes, SameBytes, FileBytes, Data, SameBut, WordAt, Saved;
      ghost var d := dev.sectors;
      OpenFacts(d, n);
      FlatLength(d);
      w := n.WriteAt(dev, buffer, size, offset, mem);
      WroteFile(d, n);
      OwnBytes(d, dev.sectors, exist, n.sector, offset, buffer, w);
      OtherFiles(d, dev.sectors, Used(), exist, n.sector);
      MapNotWritten(d, n.sector);
      DataApart(d, Used(), exist, ROOT_DIR_SECTOR, n.sector);
      RootKept(d, dev.sectors, Used(), Data(d, n.sector));
    }

    /** free_map_create: the free map gets its file, in the first place where it fits. */
    method FormatMap(m: Memory) returns (ok: bool)
      requires Valid() && exist == {} && open == [] && freeMapFile == null
               && Used() == {FREE_MAP_SECTOR, ROOT_DIR_SECTOR}
      modifies this, dev, freeMap.bits
      ensures |dev.sectors| == old(|dev.sectors|)
      ensures ok <==>
                m.inode && m.file && HasRoom(old(Used()), |dev.sectors|, BytesToSectors(MapLength()))
                && (m.map2 || MapLength() % SECTOR == 0)
      ensures ok ==>
                Valid() && exist == {FREE_MAP_SECTOR} && freeMapFile != null && open == [freeMapFile]
                && !freeMapFile.removed
                && freeMapFile.sector == FREE_MAP_SECTOR && fresh(freeMapFile) && MapOnDisk()
      ensures ok ==>
                NewMap(old(Used()), Used()) && ROOT_DIR_SECTOR !in MapData()
                && Unowned(dev.sectors, exist, {ROOT_DIR_SECTOR})
    {
      hide OwnInv, OpenInv, SameInodes, BytesToSectors, FirstRoom, HasRoom, Saved;
      ok := Create(FREE_MAP_SECTOR, MapLength(), m.inode, m.map1);
      if !ok { return; }
      ghost var d := dev.sectors;
      var n := Open(FREE_MAP_SECTOR, m.file);
      if n == null { return false; }
      OpenFacts(dev.sectors, n);
      freeMapFile := n;
      ok := WriteMap(m.map2);
      if !ok { return; }
      OpenFacts(dev.sectors, n);
      SameInode(d, dev.sectors, exist, FREE_MAP_SECTOR);
    }

    /** bitmap_file_size. */
    function MapLength(): (n: nat) {
      4 * ElemCnt(freeMap.bitCnt)
    }

    /** The map's file takes the first room on a disk where only the two system sectors are marked. */
    ghost predicate NewMap(was: set<nat>, used: set<nat>)
      reads dev
    {
      && Sound(dev.sectors, FREE_MAP_SECTOR) && used == was + Data(dev.sectors, FREE_MAP_SECTOR)
      && LengthOf(dev.sectors[FREE_MAP_SECTOR]) == MapLength()
      && FirstRoom(was, |dev.sectors|, BytesToSectors(LengthOf(dev.sectors[FREE_MAP_SECTOR])),
         StartOf(dev.sectors[FREE_MAP_SECTOR]))
    }

    /** do_format on a new file system: the two system files and an empty root directory, each in the first place
        where it fits. */
    method Format(m: Memory) returns (ok: bool)
      requires Valid() && exist == {} && open == [] && freeMapFile == null
               && Used() == {FREE_MAP_SECTOR, ROOT_DIR_SECTOR}
      modifies this, dev, freeMap.bits
      ensures ok ==>
                Consistent() && exist == {FREE_MAP_SECTOR, ROOT_DIR_SECTOR}
                && Table(RootEntries(dev.sectors)) == map[]
                && |RootEntries(dev.sectors)| == 16
                && forall k :: 0 <= k < 16 ==> !InUse(RootEntries(dev.sectors)[k])
      ensures |dev.sectors| == old(|dev.sectors|) && (ok <==> Formats(old(Used()), |dev.sectors|, MapLength(), m))
      ensures ok ==> open == [freeMapFile] && fresh(freeMapFile) && MapOnDisk()
      ensures ok ==> exists used :: NewMap(old(Used()), used) && NewRoot(used, Used())
    {
      hide OwnInv, OpenInv, Flat, Entries, SameInodes, BytesToSectors, Unowned, FirstRoom, HasRoom, InUse, Saved,
        EntriesOk;
      var made := FormatMap(m);
      if !made {
        NotFormatted(old(Used()), |dev.sectors|, MapLength(), m);
        return false;
      }
      ghost var used, d := Used(), dev.sectors;
      MapPlaced(old(Used()), used, |d|, MapLength(), StartOf(d[FREE_MAP_SECTOR]), m);
      ok := Create(ROOT_DIR_SECTOR, 16 * ENTRY, m.dir, m.map3);
      if !ok { return; }
      SameInode(d, dev.sectors, {FREE_MAP_SECTOR}, FREE_MAP_SECTOR);
      assert NewMap(old(Used()), used) && NewRoot(used, Used());
      InodeOnDisk(dev.sectors, Used(), exist, ROOT_DIR_SECTOR);
      EmptyRoot(dev.sectors);
      RootCount(dev.sectors);
    }

    ghost predicate NewRoot(was: set<nat>, used: set<nat>)
      reads dev
    {
      && Sound(dev.sectors, ROOT_DIR_SECTOR) && used == was + Data(dev.sectors, ROOT_DIR_SECTOR)
      && LengthOf(dev.sectors[ROOT_DIR_SECTOR]) == 16 * ENTRY
      && FirstRoom(was, |dev.sectors|, BytesToSectors(16 * ENTRY), StartOf(dev.sectors[ROOT_DIR_SECTOR]))
    }
  }

  /** do_format succeeds: there is room for the map's file and then for the root directory, and memory. */
  ghost predicate Formats(used: set<nat>, n: nat, mapLength: nat, m: Memory) {
    && mapLength < MAX_OFF && m.inode && m.file && m.dir && (mapLength % SECTOR == 0 || (m.map2 && m.map3))
    && exists a: nat :: FirstRoom(used, n, BytesToSectors(mapLength), a)
         && HasRoom(used + GroupOf(a, BytesToSectors(mapLength)), n, BytesToSectors(16 * ENTRY))
  }

  lemma MapPlaced(was: set<nat>, used: set<nat>, n: nat, mapLength: nat, a: nat, m: Memory)
    requires mapLength < MAX_OFF && FirstRoom(was, n, BytesToSectors(mapLength), a)
             && used == was + GroupOf(a, BytesToSectors(mapLength))
    requires m.inode && m.file && (m.map2 || mapLength % SECTOR == 0)
    ensures Formats(was, n, mapLength, m) <==>
              m.dir && HasRoom(used, n, BytesToSectors(16 * ENTRY)) && (m.map3 || mapLength % SECTOR == 0)
  {
    hide HasRoom, BytesToSectors;
    var c := BytesToSectors(mapLength);
    if b: nat :| FirstRoom(was, n, c, b) && HasRoom(was + GroupOf(b, c), n, BytesToSectors(16 * ENTRY)) {
      FirstRoomUnique(was, n, c, a, b);
    }
  }

  lemma NotFormatted(was: set<nat>, n: nat, mapLength: nat, m: Memory)
    requires mapLength < MAX_OFF
    requires !(m.inode && m.file && HasRoom(was, n, BytesToSectors(mapLength)) && (m.map2 || mapLength % SECTOR == 0))
    ensures !Formats(was, n, mapLength, m)
  {
    hide BytesToSectors;
    NoFirst(was, n, BytesToSectors(mapLength));
  }

  lemma SameInode(d: seq<Sector>, e: seq<Sector>, exist: set<nat>, s: nat)
    requires SameInodes(d, e, exist) && s in exist
    ensures |d| == |e| && s < |d| && d[s] == e[s]
  {
  }

  lemma RootCount(d: seq<Sector>)
    requires RootOn(d)
    ensures |RootEntries(d)| == LengthOf(d[ROOT_DIR_SECTOR]) / ENTRY
  {
  }

  /** The file of the inode in sector `s` lies on the disk. */
  ghost predicate OnDisk(d: seq<Sector>, s: nat) {
    Sound(d, s) && SECTOR * StartOf(d[s]) + LengthOf(d[s]) <= SECTOR * |d|
  }

  ghost function FileBytes(d: seq<Sector>, s: nat): (b: seq<Byte>)
    requires OnDisk(d, s)
    ensures |b| == LengthOf(d[s])
  {
    Flat(d)[SECTOR * StartOf(d[s])..SECTOR * StartOf(d[s]) + LengthOf(d[s])]
  }

  /** The free map's file says that these sectors are in use. */
  ghost predicate Saved(d: seq<Sector>, n: nat, used: set<nat>) {
    && OnDisk(d, FREE_MAP_SECTOR) && LengthOf(d[FREE_MAP_SECTOR]) == 4 * ElemCnt(n)
    && Marked(Unpack(MapWords(FileBytes(d, FREE_MAP_SECTOR)), n), 0) == used
  }

  lemma SavedWords(d: seq<Sector>, n: nat, image: seq<bv32>)
    requires OnDisk(d, FREE_MAP_SECTOR) && |image| == ElemCnt(n) && LengthOf(d[FREE_MAP_SECTOR]) == 4 * ElemCnt(n)
    requires FileBytes(d, FREE_MAP_SECTOR) == MapBytes(image)
    ensures Saved(d, n, Marked(Unpack(image, n), 0))
  {
    hide FileBytes, MapWords;
    MapBack(image);
  }

  lemma SavedSame(d: seq<Sector>, e: seq<Sector>, n: nat, used: set<nat>)
    requires SameBytes(d, e, FREE_MAP_SECTOR) && d[FREE_MAP_SECTOR] == e[FREE_MAP_SECTOR] && Saved(d, n, used)
    ensures Saved(e, n, used)
  {
    hide FileBytes, MapWords, Unpack;
  }

  /** Writing sectors that are not the map's does not change the map's file. */
  lemma SavedKept(d: seq<Sector>, e: seq<Sector>, n: nat, used: set<nat>, g: set<nat>)
    requires Saved(d, n, used) && SameBut(d, e, g) && Owned(d, FREE_MAP_SECTOR) !! g
    ensures Saved(e, n, used)
  {
    hide Flat, MapWords, Unpack, StartOf, LengthOf, Data;
    assert FREE_MAP_SECTOR in Owned(d, FREE_MAP_SECTOR);
    SameFileOf(d, e, FREE_MAP_SECTOR, g);
    SavedSame(d, e, n, used);
  }

  /** The bytes of the file that was written. */
  lemma OwnBytes(d: seq<Sector>, e: seq<Sector>, exist: set<nat>, s: nat, offset: nat, buffer: seq<Byte>, w: nat)
    requires OnDisk(d, s) && s in exist && SameInodes(d, e, exist) && w <= |buffer|
             && (w > 0 ==> offset + w <= LengthOf(d[s]))
    requires w == 0 ==> e == d
    requires |Flat(d)| == SECTOR * |d|
             && (w > 0 ==> Flat(e) == Splice(Flat(d), SECTOR * StartOf(d[s]) + offset, buffer[..w]))
    ensures OnDisk(e, s)
    ensures FileBytes(e, s) == if w == 0 then FileBytes(d, s) else Splice(FileBytes(d, s), offset, buffer[..w])
  {
    hide Flat, Splice;
    var lo := SECTOR * StartOf(d[s]);
    if w > 0 { SpliceInside(Flat(d), lo, lo + LengthOf(d[s]), offset, buffer[..w]); }
  }

  lemma DataApart(d: seq<Sector>, marked: set<nat>, exist: set<nat>, s: nat, t: nat)
    requires OwnInv(d, marked, exist) && s in exist && t in exist && s != t
    ensures Sound(d, s) && Sound(d, t) && Owned(d, s) !! Data(d, t)
  {
    assert InodeOk(d, marked, s) && InodeOk(d, marked, t);
    assert Owned(d, s) !! Owned(d, t);
  }

  /** A write to file `t` does not change the bytes of file `s`. */
  lemma OtherFile(d: seq<Sector>, e: seq<Sector>, marked: set<nat>, exist: set<nat>, t: nat, s: nat)
    requires OwnInv(d, marked, exist) && s in exist && t in exist && s != t && SameInodes(d, e, exist)
    requires Sound(d, t) && SameBut(d, e, Data(d, t))
    ensures OnDisk(d, s) && OnDisk(e, s) && FileBytes(e, s) == FileBytes(d, s)
  {
    hide OwnInv, Flat, Data, SameBut, BytesToSectors;
    InodeOnDisk(d, marked, exist, s);
    DataApart(d, marked, exist, s, t);
    assert Data(d, s) <= Owned(d, s);
    SameFileOf(d, e, s, Data(d, t));
  }

  /** The file of sector `s` is on both disks, with the same bytes. */
  ghost predicate SameBytes(d: seq<Sector>, e: seq<Sector>, s: nat) {
    OnDisk(d, s) && OnDisk(e, s) && FileBytes(e, s) == FileBytes(d, s)
  }

  lemma OtherFiles(d: seq<Sector>, e: seq<Sector>, marked: set<nat>, exist: set<nat>, t: nat)
    requires OwnInv(d, marked, exist) && t in exist && SameInodes(d, e, exist) && Sound(d, t)
             && SameBut(d, e, Data(d, t))
    ensures forall s :: s in exist && s != t ==> SameBytes(d, e, s)
  {
    hide OwnInv, SameInodes, SameBut, Data, OnDisk, FileBytes;
    forall s | s in exist && s != t ensures SameBytes(d, e, s) { OtherFile(d, e, marked, exist, t, s); }
  }

  /** Every file of these, but the two system files, has the same bytes on both disks. */
  ghost predicate FilesKept(d: seq<Sector>, e: seq<Sector>, exist: set<nat>) {
    forall s :: s in exist && s > ROOT_DIR_SECTOR ==> SameBytes(d, e, s)
  }

  /** The file of sector `s` is all zeros. */
  ghost predicate ZeroFile(d: seq<Sector>, s: nat) {
    OnDisk(d, s) && FileBytes(d, s) == Zeros(LengthOf(d[s]))
  }

  lemma ZeroData(d: seq<Sector>, marked: set<nat>, exist: set<nat>, s: nat)
    requires OwnInv(d, marked, exist) && s in exist && Sound(d, s)
    requires forall i: nat :: i in Data(d, s) ==> i < |d| && d[i] == Zeros(SECTOR)
    ensures ZeroFile(d, s)
  {
    hide OwnInv;
    InodeOnDisk(d, marked, exist, s);
    var start, length := StartOf(d[s]), LengthOf(d[s]);
    var f := FileBytes(d, s);
    forall a | 0 <= a < length ensures f[a] == 0 {
      ByteSector(start, length, a);
      assert f[a] == Flat(d)[SECTOR * start + a];
    }
  }

  lemma StillZero(d: seq<Sector>, e: seq<Sector>, exist: set<nat>, s: nat)
    requires ZeroFile(d, s) && FilesKept(d, e, exist) && SameInodes(d, e, exist) && s in exist && s > ROOT_DIR_SECTOR
    ensures ZeroFile(e, s)
  {
    hide FileBytes, OnDisk;
    assert SameBytes(d, e, s);
  }

  /** The sectors of `g` are no file's but, perhaps, a system file's. */
  ghost predicate Spares(d: seq<Sector>, exist: set<nat>, g: set<nat>) {
    forall s :: s in exist && s > ROOT_DIR_SECTOR ==> Sound(d, s) && Owned(d, s) !! g
  }

  lemma KeptBut(d: seq<Sector>, e: seq<Sector>, marked: set<nat>, exist: set<nat>, g: set<nat>)
    requires OwnInv(d, marked, exist) && SameBut(d, e, g) && Spares(d, exist, g)
    ensures FilesKept(d, e, exist)
  {
    hide OwnInv, Flat, SameBut, BytesToSectors, FileBytes, OnDisk;
    forall s | s in exist && s > ROOT_DIR_SECTOR ensures SameBytes(d, e, s) { KeptFile(d, e, marked, exist, g, s); }
  }

  lemma KeptFile(d: seq<Sector>, e: seq<Sector>, marked: set<nat>, exist: set<nat>, g: set<nat>, s: nat)
    requires OwnInv(d, marked, exist) && SameBut(d, e, g) && s in exist && Sound(d, s) && Owned(d, s) !! g
    ensures SameBytes(d, e, s)
  {
    hide OwnInv, Flat, BytesToSectors, Data;
    InodeOnDisk(d, marked, exist, s);
    assert s in Owned(d, s) && Data(d, s) <= Owned(d, s);
    SameFileOf(d, e, s, g);
  }

  lemma KeptSame(d: seq<Sector>, marked: set<nat>, exist: set<nat>)
    requires OwnInv(d, marked, exist)
    ensures FilesKept(d, d, exist)
  {
    hide OwnInv, FileBytes;
    forall s | s in exist && s > ROOT_DIR_SECTOR ensures SameBytes(d, d, s) { InodeOnDisk(d, marked, exist, s); }
  }

  lemma KeptTrans(d: seq<Sector>, e: seq<Sector>, f: seq<Sector>, exist: set<nat>)
    requires FilesKept(d, e, exist) && FilesKept(e, f, exist)
    ensures FilesKept(d, f, exist)
  {
    hide FileBytes, OnDisk;
    forall s | s in exist && s > ROOT_DIR_SECTOR ensures SameBytes(d, f, s) {
      assert SameBytes(d, e, s) && SameBytes(e, f, s);
    }
  }

  lemma KeptLess(d: seq<Sector>, e: seq<Sector>, exist: set<nat>, some: set<nat>)
    requires FilesKept(d, e, exist) && some <= exist
    ensures FilesKept(d, e, some)
  {
    hide SameBytes;
  }

  lemma SparesData(d: seq<Sector>, marked: set<nat>, exist: set<nat>, t: nat)
    requires OwnInv(d, marked, exist) && t in exist && t <= ROOT_DIR_SECTOR
    ensures Sound(d, t) && Spares(d, exist, Data(d, t))
  {
    hide OwnInv, Data;
    InodeOnDisk(d, marked, exist, t);
    forall s | s in exist && s > ROOT_DIR_SECTOR ensures Sound(d, s) && Owned(d, s) !! Data(d, t) {
      DataApart(d, marked, exist, s, t);
    }
  }

  lemma NewSpares(d: seq<Sector>, marked: set<nat>, exist: set<nat>, s: nat, h: set<nat>, g: set<nat>)
    requires OwnInv(d, marked, exist) && Spares(d, exist, g) && Unowned(d, exist, {s}) && h !! marked
    ensures Spares(d, exist, g + ({s} + h))
  {
    hide OwnInv;
    FreeIsUnowned(d, marked, exist, h);
  }

  /** A root directory whose data is all zeros has no entry in use. */
  lemma EmptyRoot(d: seq<Sector>)
    requires RootOn(d) && forall i: nat :: i in Data(d, ROOT_DIR_SECTOR) ==> i < |d| && d[i] == Zeros(SECTOR)
    ensures forall k :: 0 <= k < |RootEntries(d)| ==> !InUse(RootEntries(d)[k])
    ensures (forall exist :: EntriesOk(RootEntries(d), exist)) && Table(RootEntries(d)) == map[]
            && forall s :: !Names(RootEntries(d), s)
  {
    var start, length := StartOf(d[ROOT_DIR_SECTOR]), LengthOf(d[ROOT_DIR_SECTOR]);
    var es := RootEntries(d);
    forall k | 0 <= k < |es| ensures !InUse(es[k]) {
      var a := ENTRY * k + 19;
      ByteSector(start, length, a);
      assert es[k][19] == Flat(d)[SECTOR * start + a];
    }
    NoneUsed(es);
  }

  lemma {:induction false} NoneUsed(es: seq<Raw>)
    requires forall k :: 0 <= k < |es| ==> !InUse(es[k])
    ensures Table(es) == map[]
  {
    if es != [] { NoneUsed(es[1..]); }
  }

  /** The first entry of the name is erased, or nothing happens. */
  ghost predicate Removal(es: seq<Raw>, now: seq<Raw>, name: Name, limit: nat, ok: bool, k: nat) {
    if ok then FirstUse(es, name, limit, k) && now == es[k := Erased(es[k])] else now == es
  }

  /** The inode of sector `gone` is no more, and exactly its sectors are free; or nothing happens. */
  ghost predicate Owners(
    d: seq<Sector>, was: set<nat>, exist: set<nat>, before: set<nat>, used: set<nat>, gone: Option<nat>)
  {
    match gone
    case None => exist == was && used == before
    case Some(s) => Sound(d, s) && exist == was - {s} && used == before - Owned(d, s)
  }

  /** The first entry of the name has an inode among the open ones, or there is memory to open it. */
  ghost predicate OpensIn(es: seq<Raw>, name: Name, m: Memory, open: set<nat>) {
    exists k: nat :: FirstUse(es, name, m.lookup, k) && (m.inode || SectorOf(es[k]) in open)
  }

  /** Opening or closing the root directory does not matter to the files in it. */
  lemma SameOpens(es: seq<Raw>, exist: set<nat>, name: Name, m: Memory, a: set<nat>, b: set<nat>)
    requires EntriesOk(es, exist) && forall s :: s != ROOT_DIR_SECTOR ==> (s in a <==> s in b)
    ensures OpensIn(es, name, m, a) <==> OpensIn(es, name, m, b)
  {
    forall k: nat | FirstUse(es, name, m.lookup, k) ensures SectorOf(es[k]) > ROOT_DIR_SECTOR { }
  }

  /** A name that is found has a first entry, and only one. */
  lemma FoundFirst(es: seq<Raw>, name: Name, limit: nat)
    ensures Found(es, name, limit) <==> exists k: nat :: FirstUse(es, name, limit, k)
  {
    if Found(es, name, limit) {
      var k :| 0 <= k < Reach(es, limit) && UsedBy(es[k], name);
      var j := FirstBefore(es, name, k);
      assert FirstUse(es, name, limit, j);
    }
    if k: nat :| FirstUse(es, name, limit, k) { assert UsedBy(es[k], name); }
  }

  lemma FirstBefore(es: seq<Raw>, name: Name, k: nat) returns (j: nat)
    requires k < |es| && UsedBy(es[k], name)
    ensures j <= k && UsedBy(es[j], name) && forall i :: 0 <= i < j ==> !UsedBy(es[i], name)
  {
    j := k;
    if i: nat :| i < k && UsedBy(es[i], name) { j := FirstBefore(es, name, i); }
  }

  lemma OnlyFirst(es: seq<Raw>, name: Name, limit: nat, k: nat)
    requires FirstUse(es, name, limit, k)
    ensures forall j: nat :: FirstUse(es, name, limit, j) ==> j == k
  {
  }

  lemma FirstUseFacts(es: seq<Raw>, name: Name, limit: nat, k: nat)
    requires FirstUse(es, name, limit, k)
    ensures k < |es| && InUse(es[k])
  {
  }

  /** Which of an operation's memory allocations succeed: for the root inode, its directory structure, an inode
      and a file structure; how many reads of the two directory searches find a bounce buffer; and the
      bounce buffers for the writes of the entry and of the free map. */
  datatype Memory = Memory(root: bool, dir: bool, inode: bool, file: bool, lookup: nat, slot: nat, write: bool,
                           map1: bool, map2: bool, map3: bool)

  /** Sectors that stay marked although no inode owns them: none, or one abandoned extent, the first that fitted
      beside the abandoned inode's sector. */
  ghost predicate Leaked(was: set<nat>, now: set<nat>, n: nat, cnt: nat) {
    now == was || exists s: nat, start: nat :: Abandoned(was, now, n, cnt, s, start)
  }

  ghost predicate Abandoned(was: set<nat>, now: set<nat>, n: nat, cnt: nat, s: nat, start: nat) {
    && FirstRoom(was, n, 1, s) && FirstRoom(was + {s}, n, cnt, start)
    && GroupOf(start, cnt) !! was && now == was + GroupOf(start, cnt)
  }

  lemma NoLeak(was: set<nat>, n: nat, cnt: nat)
    ensures Leaked(was, was, n, cnt)
  {
  }

  lemma LeftMarked(was: set<nat>, now: set<nat>, n: nat, s: nat, start: nat, cnt: nat)
    requires FirstRoom(was, n, 1, s) && FirstRoom(was + {s}, n, cnt, start)
    requires now == was + ({s} + GroupOf(start, cnt)) - {s}
    ensures Leaked(was, now, n, cnt) && (now != was <==> cnt > 0)
  {
    assert s in GroupOf(s, 1);
    assert now == was + GroupOf(start, cnt);
    assert Abandoned(was, now, n, cnt, s, start);
    if cnt > 0 { GroupEnds(start, cnt); }
  }

  lemma TakenSector(used: set<nat>, n: nat, s: nat)
    requires FirstRoom(used, n, 1, s)
    ensures GroupOf(s, 1) == {s} && s !in used
  {
    OneSector(s);
  }

  lemma NoFirst(used: set<nat>, n: nat, cnt: nat)
    ensures !HasRoom(used, n, cnt) ==> forall s: nat :: !FirstRoom(used, n, cnt, s)
  {
  }

  /** The sector taken for the inode is the only first free one. */
  lemma FirstChoice(used: set<nat>, n: nat, s: nat, cnt: nat)
    requires FirstRoom(used, n, 1, s)
    ensures (exists t: nat :: FirstRoom(used, n, 1, t) && HasRoom(used + {t}, n, cnt)) <==> HasRoom(used + {s}, n, cnt)
  {
    hide HasRoom;
    if t: nat :| FirstRoom(used, n, 1, t) && HasRoom(used + {t}, n, cnt) { FirstRoomUnique(used, n, 1, s, t); }
  }

  /** dir_add succeeds: a valid name that lookup does not see, a slot inside the directory, and memory to write it. */
  ghost predicate Addable(es: seq<Raw>, name: Name, limit: nat, limit': nat, mem: bool) {
    ValidName(name) && !Found(es, name, limit) && mem && exists slot :: 0 <= slot < |es| && IsSlot(es, limit', slot)
  }

  /** dir_add put the name into the directory. */
  ghost predicate Named(es: seq<Raw>, r: seq<Raw>, name: Name, s: nat, limit: nat, limit': nat) {
    && ValidName(name) && !Found(es, name, limit) && |r| == |es|
    && (exists slot :: 0 <= slot < |es| && Directory.Filled(es, r, limit', slot, name, s))
    && (Unique(es) && limit >= |es| && limit' >= |es| ==>
          Unique(r) && name !in Table(es) && Table(r) == Table(es)[name := s])
  }

  lemma GroupIsRoom(s: seq<bool>, cnt: nat, i: nat)
    ensures Group(s, i, cnt, false) <==> Room(Marked(s, 0), |s|, cnt, i)
  {
    if i + cnt <= |s| { GroupMarked(s, 0, i, cnt); }
  }

  lemma FirstGroupIsRoom(s: seq<bool>, cnt: nat, i: nat)
    requires FirstGroup(s, 0, cnt, false, i)
    ensures FirstRoom(Marked(s, 0), |s|, cnt, i) && HasRoom(Marked(s, 0), |s|, cnt)
  {
    GroupIsRoom(s, cnt, i);
    forall j: nat | j < i ensures !Room(Marked(s, 0), |s|, cnt, j) { GroupIsRoom(s, cnt, j); }
  }

  lemma NoFreeGroup(s: seq<bool>, cnt: nat)
    requires forall i: nat :: !Group(s, i, cnt, false)
    ensures !HasRoom(Marked(s, 0), |s|, cnt)
  {
    forall i: nat ensures !Room(Marked(s, 0), |s|, cnt, i) { GroupIsRoom(s, cnt, i); }
  }

  /** A write of a whole file is what the file then holds. */
  lemma WholeFile(d: seq<Sector>, e: seq<Sector>, n: INode, bytes: seq<Byte>, w: nat)
    requires SECTOR * n.start + n.length <= SECTOR * |d| && |d| == |e| && n.length == |bytes| == w
    requires w == 0 ==> d == e
    requires |Flat(d)| == SECTOR * |d|
    requires w > 0 ==> Flat(e) == Splice(Flat(d), SECTOR * n.start + 0, bytes[..w])
    ensures |Flat(e)| == SECTOR * |e| && Flat(e)[SECTOR * n.start..SECTOR * n.start + n.length] == bytes
  {
    hide Flat;
    FlatLength(e);
    assert bytes[..w] == bytes;
  }
}
