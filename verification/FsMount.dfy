/** Starting from a disk that holds a file system (filesys/filesys.c, filesys/free-map.c). */
module FsMount {
  import opened Bitmap
  import opened Disk
  import opened FileSys
  import opened FsMap
  import opened FsOwnership
  import opened Inode

  /** bitmap_read from the map's file: the words there become the map. */
  method ReadMap(n: INode, dev: Device, free: BitmapObject, mem: bool) returns (ok: bool)
    requires n.On(dev) && free.Valid() && n.length == 4 * ElemCnt(free.bitCnt)
    modifies free.bits
    ensures ok <==> mem || n.length % SECTOR == 0
    ensures ok ==> free.Contents() == Unpack(MapWords(n.Bytes(dev)), free.bitCnt)
  {
    hide Flat, MapWords, Unpack;
    var buffer := new Byte[4 * ElemCnt(free.bitCnt)];
    var cnt := n.ReadAt(dev, buffer, buffer.Length, 0, mem);
    if cnt != buffer.Length { return false; }
    assert buffer[..] == n.Bytes(dev);
    WordCount(buffer[..]);
    free.Read(MapWords(buffer[..]));
    ok := true;
  }

  lemma WordCount(bytes: seq<Byte>)
    ensures |MapWords(bytes)| == |bytes| / 4
  {
  }

  /** filesys_init without formatting, on the disk of a file system whose map was saved: the new free map, the existing
      inodes and the names are those of before, and only the map's file is open. Null stands for a panic. */
  method Mount(ghost was: FileSystem, dev: Device, m: Memory) returns (fs: FileSystem?)
    requires was.Consistent() && was.MapOnDisk() && was.dev == dev && 2 <= |dev.sectors| < BITMAP_ERROR
    ensures fs != null <==> m.inode && m.file && was.MapSaved(m.write)
    ensures fs != null ==>
              fresh(fs) && fs.dev == dev && fs.Consistent() && fs.exist == was.exist
              && fs.Used() == was.Used()
    ensures fs != null ==> fs.open == [fs.freeMapFile] && fresh(fs.freeMapFile) && fs.MapOnDisk()
  {
    hide OwnInv, Flat, RootEntries, EntriesOk, RootOn, MapWords, Unpack, StartOf, LengthOf, Names, Data;
    was.OpenFacts(dev.sectors, was.freeMapFile);
    if !m.inode || !m.file { return null; }
    fs := new FileSystem(dev);
    var data := dev.Read(FREE_MAP_SECTOR);
    var n := new INode(FREE_MAP_SECTOR, StartOf(data), LengthOf(data));
    var ok := ReadMap(n, dev, fs.freeMap, m.write);
    if !ok { return null; }
    fs.open, fs.freeMapFile := [n], n;
    fs.exist := was.exist;
    Mounted(was, fs, n);
  }

  /** A file system with the same disk, free map and inodes, and only the map's file open. */
  lemma Mounted(was: FileSystem, fs: FileSystem, n: INode)
    requires was.Consistent() && fs.dev == was.dev && fs.exist == was.exist && fs.open == [n] && fs.freeMapFile == n
    requires fs.freeMap.Valid() && fs.freeMap.bitCnt == was.freeMap.bitCnt && fs.Used() == was.Used()
    requires Mirrors(n, fs.dev.sectors, fs.exist) && n.sector == FREE_MAP_SECTOR && !n.removed && n.denyWriteCnt == 0
    requires n.length == 4 * ElemCnt(fs.freeMap.bitCnt)
    ensures fs.Consistent()
  {
    hide OwnInv, RootEntries, EntriesOk, RootOn, Names, Mirrors, Unpack;
  }
}
