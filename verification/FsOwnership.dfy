/** Who owns which sector: inode sectors and data extents against the free map (filesys/inode.c). */
module FsOwnership {
  import opened Basics
  import opened Disk
  import opened Palloc

  const MAX_OFF: nat := 0x8000_0000      // off_t is a signed 32-bit integer

  /** bytes_to_sectors: the sum is a 32-bit signed one, and the division truncates. */
  function BytesToSectors(n: nat): (c: nat)
    requires n < MAX_OFF
    ensures SECTOR * c >= n && c < WORD && (n + SECTOR - 1 < MAX_OFF ==> SECTOR * c < n + SECTOR)
  {
    if n + SECTOR - 1 < MAX_OFF then (n + SECTOR - 1) / SECTOR
    else WORD - (WORD - (n + SECTOR - 1)) / SECTOR
  }

  function StartOf(s: Sector): (n: nat)
    ensures n < WORD
  {
    WordAt(s, 0)
  }

  function LengthOf(s: Sector): (n: nat) {
    WordAt(s, 4)
  }

  /** The sectors that hold a file's data, for the inode in sector `s`. */
  ghost function Data(d: seq<Sector>, s: nat): (g: set<nat>)
    requires s < |d| && LengthOf(d[s]) < MAX_OFF
  {
    GroupOf(StartOf(d[s]), BytesToSectors(LengthOf(d[s])))
  }

  ghost predicate InodeOk(d: seq<Sector>, marked: set<nat>, s: nat) {
    && s < |d| && LengthOf(d[s]) < MAX_OFF
    && StartOf(d[s]) + BytesToSectors(LengthOf(d[s])) <= |d|
    && s !in Data(d, s) && s in marked && Data(d, s) <= marked
  }

  ghost predicate Sound(d: seq<Sector>, s: nat) {
    s < |d| && LengthOf(d[s]) < MAX_OFF
  }

  /** Everything the inode in sector `s` owns. */
  ghost function Owned(d: seq<Sector>, s: nat): (g: set<nat>)
    requires Sound(d, s)
  {
    {s} + Data(d, s)
  }

  /** Existing inodes own marked sectors, no sector twice. */
  ghost predicate OwnInv(d: seq<Sector>, marked: set<nat>, exist: set<nat>) {
    && (forall s :: s in exist ==> InodeOk(d, marked, s))
    && (forall s, t :: s in exist && t in exist && s != t ==> Owned(d, s) !! Owned(d, t))
  }

  /** Sectors that no existing inode owns. */
  ghost predicate Unowned(d: seq<Sector>, exist: set<nat>, g: set<nat>) {
    forall s :: s in exist ==> Sound(d, s) && Owned(d, s) !! g
  }

  /** The two disks differ at most in the sectors of `g`. */
  ghost predicate SameBut(d: seq<Sector>, e: seq<Sector>, g: set<nat>) {
    |d| == |e| && forall s: nat :: s < |d| && s !in g ==> d[s] == e[s]
  }

  lemma FreeIsUnowned(d: seq<Sector>, marked: set<nat>, exist: set<nat>, g: set<nat>)
    requires OwnInv(d, marked, exist) && g !! marked
    ensures Unowned(d, exist, g)
  {
    forall s | s in exist ensures Sound(d, s) && Owned(d, s) !! g { assert InodeOk(d, marked, s); }
  }

  /** Marking more sectors. */
  lemma MarkKeeps(d: seq<Sector>, marked: set<nat>, exist: set<nat>, g: set<nat>)
    requires OwnInv(d, marked, exist)
    ensures OwnInv(d, marked + g, exist)
  {
    forall s | s in exist ensures InodeOk(d, marked + g, s) { assert InodeOk(d, marked, s); }
  }

  /** Unmarking sectors that nobody owns. */
  lemma UnmarkKeeps(d: seq<Sector>, marked: set<nat>, exist: set<nat>, g: set<nat>)
    requires OwnInv(d, marked, exist) && Unowned(d, exist, g)
    ensures OwnInv(d, marked - g, exist)
  {
    forall s | s in exist ensures InodeOk(d, marked - g, s) { assert InodeOk(d, marked, s) && Owned(d, s) !! g; }
  }

  /** Writing sectors that hold no existing inode: data, or sectors nobody owns. */
  lemma WriteKeeps(d: seq<Sector>, e: seq<Sector>, marked: set<nat>, exist: set<nat>, g: set<nat>)
    requires OwnInv(d, marked, exist) && SameBut(d, e, g) && g !! exist
    ensures OwnInv(e, marked, exist) && forall s :: s in exist ==> s < |d| && d[s] == e[s]
  {
    forall s | s in exist ensures InodeOk(e, marked, s) && d[s] == e[s] { assert InodeOk(d, marked, s); }
    forall s, t | s in exist && t in exist && s != t ensures Owned(e, s) !! Owned(e, t) {
      assert InodeOk(d, marked, s) && InodeOk(d, marked, t);
      assert Owned(d, s) == Owned(e, s) && Owned(d, t) == Owned(e, t);
    }
  }

  /** A file's data holds no inode. */
  lemma DataHoldsNoInode(d: seq<Sector>, marked: set<nat>, exist: set<nat>, s: nat)
    requires OwnInv(d, marked, exist) && s in exist
    ensures Sound(d, s) && Data(d, s) !! exist
  {
    assert InodeOk(d, marked, s);
    forall t | t in exist ensures t !in Data(d, s) {
      assert InodeOk(d, marked, t);
      if t != s { assert Owned(d, s) !! Owned(d, t); assert t in Owned(d, t); }
    }
  }

  /** A new inode in a sector that nobody owns, with data that nobody owns. */
  lemma CreateKeeps(d: seq<Sector>, marked: set<nat>, exist: set<nat>, s: nat)
    requires OwnInv(d, marked, exist) && InodeOk(d, marked, s) && Unowned(d, exist, Owned(d, s))
    ensures OwnInv(d, marked, exist + {s})
  {
    forall t, u | t in exist + {s} && u in exist + {s} && t != u ensures Sound(d, t) && Sound(d, u)
      && Owned(d, t) !! Owned(d, u) {
      assert t != s ==> InodeOk(d, marked, t);
      assert u != s ==> InodeOk(d, marked, u);
    }
  }

  /** An inode goes, and its sectors with it. */
  lemma ReleaseKeeps(d: seq<Sector>, marked: set<nat>, exist: set<nat>, s: nat)
    requires OwnInv(d, marked, exist) && s in exist
    ensures Sound(d, s) && Owned(d, s) <= marked
    ensures Unowned(d, exist - {s}, Owned(d, s)) && OwnInv(d, marked - Owned(d, s), exist - {s})
    ensures OwnInv(d, marked - {s}, exist - {s})
  {
    assert InodeOk(d, marked, s);
    var rest := exist - {s};
    forall t | t in rest ensures Sound(d, t) && Owned(d, t) !! Owned(d, s) { assert InodeOk(d, marked, t); }
    assert OwnInv(d, marked, rest);
    UnmarkKeeps(d, marked, rest, Owned(d, s));
    UnmarkKeeps(d, marked, rest, {s});
  }

  // ---- Bytes and sectors --------------------------------------------------------------------------------------------

  /** A change inside a file's bytes is a change inside its data sectors. */
  lemma BytesToData(d: seq<Sector>, e: seq<Sector>, start: nat, length: nat)
    requires length < MAX_OFF
    requires OnlyWithin(Flat(d), Flat(e), SECTOR * start, SECTOR * start + length)
    ensures SameBut(d, e, GroupOf(start, BytesToSectors(length)))
  {
    hide Flat;
    FlatLength(d);
    FlatLength(e);
    forall s: nat | s < |d| && s !in GroupOf(start, BytesToSectors(length)) ensures d[s] == e[s] {
      OutsideSector(d, e, start, length, s);
    }
  }

  lemma OutsideSector(d: seq<Sector>, e: seq<Sector>, start: nat, length: nat, s: nat)
    requires length < MAX_OFF && |d| == |e| && s < |d| && (s < start || s >= start + BytesToSectors(length))
    requires OnlyWithin(Flat(d), Flat(e), SECTOR * start, SECTOR * start + length)
    ensures d[s] == e[s]
  {
    hide Flat, BytesToSectors;
    FlatSector(d, s);
    FlatSector(e, s);
    FlatLength(d);
    FlatLength(e);
    RoomForBytes(length);
    var lo := SECTOR * s;
    assert lo + SECTOR <= SECTOR * start || SECTOR * start + length <= lo;
    forall a | 0 <= a < SECTOR ensures d[s][a] == e[s][a] {
      assert Flat(d)[lo..lo + SECTOR][a] == Flat(d)[lo + a];
      assert Flat(e)[lo..lo + SECTOR][a] == Flat(e)[lo + a];
    }
  }

  lemma RoomForBytes(n: nat)
    requires n < MAX_OFF
    ensures SECTOR * BytesToSectors(n) >= n
  {
  }

  lemma InodeOnDisk(d: seq<Sector>, marked: set<nat>, exist: set<nat>, s: nat)
    requires OwnInv(d, marked, exist) && s in exist
    ensures Sound(d, s) && SECTOR * StartOf(d[s]) + LengthOf(d[s]) <= SECTOR * |d|
  {
    assert InodeOk(d, marked, s);
    RoomForBytes(LengthOf(d[s]));
  }

  /** A write to an existing file leaves every inode, and so who owns what, as it was. */
  lemma FileWritten(d: seq<Sector>, e: seq<Sector>, marked: set<nat>, exist: set<nat>, s: nat)
    requires OwnInv(d, marked, exist) && s in exist && Sound(d, s)
    requires OnlyWithin(Flat(d), Flat(e), SECTOR * StartOf(d[s]), SECTOR * StartOf(d[s]) + LengthOf(d[s]))
    ensures SameBut(d, e, Data(d, s)) && OwnInv(e, marked, exist) && SameInodes(d, e, exist)
  {
    hide OnlyWithin;
    BytesToData(d, e, StartOf(d[s]), LengthOf(d[s]));
    DataHoldsNoInode(d, marked, exist, s);
    WriteKeeps(d, e, marked, exist, Data(d, s));
  }

  ghost predicate SameInodes(d: seq<Sector>, e: seq<Sector>, exist: set<nat>) {
    |d| == |e| && forall s :: s in exist ==> s < |d| && d[s] == e[s]
  }

  /** Ownership depends on the inodes alone. */
  lemma SameInodesOwn(d: seq<Sector>, e: seq<Sector>, marked: set<nat>, exist: set<nat>)
    requires OwnInv(d, marked, exist) && SameInodes(d, e, exist)
    ensures OwnInv(e, marked, exist)
  {
    forall s | s in exist ensures InodeOk(e, marked, s) && Sound(d, s) && Owned(e, s) == Owned(d, s) {
      assert InodeOk(d, marked, s);
    }
  }

  /** The bytes of a file whose data sectors did not change. */
  lemma SameFile(d: seq<Sector>, e: seq<Sector>, start: nat, length: nat, g: set<nat>)
    requires length < MAX_OFF && SECTOR * start + length <= SECTOR * |d|
    requires SameBut(d, e, g) && g !! GroupOf(start, BytesToSectors(length))
    ensures |Flat(d)| == |Flat(e)| == SECTOR * |d|
    ensures Flat(d)[SECTOR * start..SECTOR * start + length] == Flat(e)[SECTOR * start..SECTOR * start + length]
  {
    var x, y := Flat(d)[SECTOR * start..SECTOR * start + length], Flat(e)[SECTOR * start..SECTOR * start + length];
    forall a | 0 <= a < length ensures x[a] == y[a] {
      ByteSector(start, length, a);
    }
  }

  /** The same for the file of the inode in sector `s`. */
  lemma SameFileOf(d: seq<Sector>, e: seq<Sector>, s: nat, g: set<nat>)
    requires Sound(d, s) && SECTOR * StartOf(d[s]) + LengthOf(d[s]) <= SECTOR * |d| && SameBut(d, e, g)
             && g !! Data(d, s)
    ensures |Flat(d)| == |Flat(e)| == SECTOR * |d|
    ensures var lo, hi := SECTOR * StartOf(d[s]),
            SECTOR * StartOf(d[s]) + LengthOf(d[s]); Flat(d)[lo..hi] == Flat(e)[lo..hi]
  {
    hide Flat;
    SameFile(d, e, StartOf(d[s]), LengthOf(d[s]), g);
  }

  lemma ByteSector(start: nat, length: nat, a: nat)
    requires length < MAX_OFF && a < length
    ensures (SECTOR * start + a) / SECTOR in GroupOf(start, BytesToSectors(length))
  {
    RoomForBytes(length);
    assert (SECTOR * start + a) / SECTOR == start + a / SECTOR;
  }

  lemma SameInodesUnowned(d: seq<Sector>, e: seq<Sector>, exist: set<nat>, g: set<nat>)
    requires Unowned(d, exist, g) && SameInodes(d, e, exist)
    ensures Unowned(e, exist, g)
  {
    forall s | s in exist ensures Sound(e, s) && Owned(e, s) !! g { assert Sound(d, s) && Owned(d, s) == Owned(e, s); }
  }

  /** inode_create's writes: the inode's sector, and a data extent that was free. */
  lemma Created(d: seq<Sector>, e: seq<Sector>, marked: set<nat>, exist: set<nat>, s: nat, g: set<nat>)
    requires OwnInv(d, marked, exist) && s in marked && g <= marked && s !in exist && s < |d| == |e|
    requires Unowned(d, exist, {s}) && Unowned(d, exist, g) && s !in g
    requires SameBut(d, e, {s} + g) && Sound(e, s) && Data(e, s) == g
    requires StartOf(e[s]) + BytesToSectors(LengthOf(e[s])) <= |e|
    ensures OwnInv(e, marked, exist + {s}) && SameInodes(d, e, exist)
  {
    hide OwnInv;
    forall t | t in exist ensures t !in {s} + g { assert Owned(d, t) !! g && t in Owned(d, t); }
    WriteKeeps(d, e, marked, exist, {s} + g);
    assert InodeOk(e, marked, s);
    SameInodesUnowned(d, e, exist, {s});
    SameInodesUnowned(d, e, exist, g);
    CreateKeeps(e, marked, exist, s);
  }

  /** What a removed inode's last close releases lies on the disk, is marked, and is nobody else's. */
  lemma ReleaseFacts(d: seq<Sector>, marked: set<nat>, exist: set<nat>, s: nat)
    requires OwnInv(d, marked, exist) && s in exist
    ensures InodeOk(d, marked, s) && GroupOf(s, 1) == {s}
    ensures Unowned(d, exist - {s}, {s}) && Unowned(d, exist - {s}, Data(d, s))
  {
    hide Data;
    assert InodeOk(d, marked, s);
    OneSector(s);
    forall t | t in exist - {s} ensures Sound(d, t) && Owned(d, t) !! {s} && Owned(d, t) !! Data(d, s) {
      assert InodeOk(d, marked, t);
      assert Owned(d, s) !! Owned(d, t);
    }
  }

  lemma OneSector(s: nat)
    ensures GroupOf(s, 1) == {s}
  {
  }

  /** An inode may be forgotten; its sector is then nobody's. */
  lemma DropKeeps(d: seq<Sector>, marked: set<nat>, exist: set<nat>, s: nat)
    requires OwnInv(d, marked, exist) && (s !in exist ==> Unowned(d, exist, {s}))
    ensures OwnInv(d, marked, exist - {s}) && Unowned(d, exist - {s}, {s}) && GroupOf(s, 1) == {s}
  {
    if s in exist { ReleaseFacts(d, marked, exist, s); } else { assert exist - {s} == exist; }
  }

  // ---- Room on the disk ---------------------------------------------------------------------------------------------

  /** `cnt` free sectors start at `i`, on a disk of `n` sectors. */
  ghost predicate Room(used: set<nat>, n: nat, cnt: nat, i: nat) {
    i + cnt <= n && GroupOf(i, cnt) !! used
  }

  /** The first such place. */
  ghost predicate FirstRoom(used: set<nat>, n: nat, cnt: nat, i: nat) {
    Room(used, n, cnt, i) && forall j: nat :: j < i ==> !Room(used, n, cnt, j)
  }

  ghost predicate HasRoom(used: set<nat>, n: nat, cnt: nat) {
    exists i: nat :: Room(used, n, cnt, i)
  }

  lemma FirstRoomUnique(used: set<nat>, n: nat, cnt: nat, i: nat, j: nat)
    requires FirstRoom(used, n, cnt, i) && FirstRoom(used, n, cnt, j)
    ensures i == j
  {
  }
}
