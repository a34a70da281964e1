/** Reading and writing a file's bytes through whole sectors (filesys/inode.c). */
module Inode {
  import opened Disk

  /** Bytes that a transfer of `size` at `offset` of a file of `length` bytes can cover. */
  function Available(length: nat, size: int, offset: nat): (n: nat) {
    var left := length - offset;
    var most := if size < left then size else left;
    if most < 0 then 0 else most
  }

  /** Bytes that a transfer moves: all that are available, or, without memory for a bounce buffer, only whole
      sectors. */
  function Moved(length: nat, size: int, offset: nat, mem: bool): (n: nat) {
    var all := Available(length, size, offset);
    if mem then all else if offset % SECTOR != 0 then 0 else all - all % SECTOR
  }

  /** The part of a transfer that lies in one sector. */
  function Chunk(length: nat, size: int, offset: nat): (n: int) {
    var sectorLeft := SECTOR - offset % SECTOR;
    var inodeLeft := length - offset;
    var minLeft := if inodeLeft < sectorLeft then inodeLeft else sectorLeft;
    if size < minLeft then size else minLeft
  }

  /** A chunk that is not a whole sector goes through the bounce buffer. */
  predicate NeedsBounce(length: nat, size: int, offset: nat) {
    offset % SECTOR != 0 || Chunk(length, size, offset) != SECTOR
  }

  lemma ChunkFacts(length: nat, size: int, offset: nat)
    ensures var c := Chunk(length, size, offset);
            && (size <= 0 ==> Available(length, size, offset) == 0)
            && (size > 0 && c > 0 ==> offset + c <= length)
            && (size > 0 ==> (c <= 0 <==> Available(length, size, offset) == 0))
            && (size > 0 && c > 0 ==> c <= Available(length, size, offset) && c <= size && offset % SECTOR + c <= SECTOR
                                      && Available(length, size - c, offset + c) == Available(length, size, offset) - c)
  {
  }

  /** Without memory a transfer stops where less than a whole sector is left. */
  lemma StopsShort(length: nat, size: int, offset: nat, n: nat)
    requires n <= Available(length, size, offset) && (n > 0 ==> offset % SECTOR == 0 && n % SECTOR == 0)
    requires Available(length, size - n, offset + n) == Available(length, size, offset) - n
    requires Available(length, size - n, offset + n) > 0 ==> NeedsBounce(length, size - n, offset + n)
    ensures n == Moved(length, size, offset, false)
  {
    var all := Available(length, size, offset);
    if offset % SECTOR == 0 {
      assert (offset + n) % SECTOR == 0;
      assert all - n < SECTOR;
    }
  }

  /** A chunk without a bounce buffer is a whole sector at a sector boundary. */
  lemma WholeChunk(length: nat, size: int, offset: nat, n: nat)
    requires !NeedsBounce(length, size - n, offset + n) && (n > 0 ==> n % SECTOR == 0)
    ensures offset % SECTOR == 0 && (n + Chunk(length, size - n, offset + n)) % SECTOR == 0
  {
  }

  lemma Whole(length: nat, size: int, offset: nat, n: nat, mem: bool)
    requires n <= Available(length, size, offset)
             && Available(length, size - n, offset + n) == Available(length, size, offset) - n
    requires mem ==> Available(length, size - n, offset + n) == 0
    requires !mem && n > 0 ==> offset % SECTOR == 0 && n % SECTOR == 0
    requires Available(length, size - n, offset + n) > 0 ==> NeedsBounce(length, size - n, offset + n)
    ensures n == Moved(length, size, offset, mem)
  {
    if !mem { StopsShort(length, size, offset, n); }
  }

  /** Sectors and bytes: the byte at `offset` of a file that starts at sector `start`. */
  lemma Position(start: nat, offset: nat)
    ensures SECTOR * (start + offset / SECTOR) + offset % SECTOR == SECTOR * start + offset
  {
  }

  lemma SectorInside(start: nat, length: nat, offset: nat, c: nat, sectors: nat)
    requires SECTOR * start + length <= SECTOR * sectors && 0 < c && offset + c <= length
    ensures start + offset / SECTOR < sectors
  {
    Position(start, offset);
  }

  class INode {
    const sector: nat
    const start: nat
    const length: nat
    var openCnt: nat
    var removed: bool
    var denyWriteCnt: nat

    /** inode_open's initialization, for data read from the inode's sector. */
    constructor (sector: nat, start: nat, length: nat)
      ensures this.sector == sector && this.start == start && this.length == length
      ensures openCnt == 1 && !removed && denyWriteCnt == 0
    {
      this.sector, this.start, this.length := sector, start, length;
      openCnt, removed, denyWriteCnt := 1, false, 0;
    }

    /** The data lies on the device. */
    ghost predicate On(dev: Device)
      reads dev
    {
      SECTOR * start + length <= SECTOR * |dev.sectors|
    }

    /** The bytes of the file. */
    ghost function Bytes(dev: Device): (s: seq<Byte>)
      requires On(dev)
      reads dev
      ensures |s| == length
    {
      Flat(dev.sectors)[SECTOR * start..SECTOR * start + length]
    }

    /** byte_to_sector for a byte inside the file. */
    function ByteToSector(pos: nat): (i: nat)
      requires pos < length
    {
      start + pos / SECTOR
    }

    /** inode_read_at. `mem` says whether a bounce buffer can be had. The bytes delivered are the file's, from
        `offset` on; they are all there are unless a bounce buffer was needed and could not be had; and the rest
        of the buffer is untouched. */
    method ReadAt(dev: Device, buffer: array<Byte>, size: int, offset: nat, mem: bool) returns (n: nat)
      requires On(dev) && size <= buffer.Length
      modifies buffer
      ensures n <= Available(length, size, offset) && (n > 0 ==> offset + n <= length)
      ensures n == Moved(length, size, offset, mem)
      ensures n < Available(length, size, offset) ==> NeedsBounce(length, size - n, offset + n)
      ensures n > 0 ==> buffer[..n] == Bytes(dev)[offset..offset + n]
      ensures buffer[n..] == old(buffer[n..])
    {
      hide Flat, Available, Chunk, Moved, NeedsBounce;
      FlatLength(dev.sectors);
      ghost var total := Available(length, size, offset);
      n := 0;
      while size - n > 0
        invariant n <= buffer.Length && (n > 0 ==> offset + n <= length)
        invariant Available(length, size - n, offset + n) == total - n
        invariant !mem && n > 0 ==> offset % SECTOR == 0 && n % SECTOR == 0
        invariant n > 0 ==> buffer[..n] == Bytes(dev)[offset..offset + n]
        invariant buffer[n..] == old(buffer[n..])
        decreases size - n
      {
        var ofs := offset + n;
        ChunkFacts(length, size - n, ofs);
        var chunk := Chunk(length, size - n, ofs);
        if chunk <= 0 { break; }
        if NeedsBounce(length, size - n, ofs) && !mem { break; }
        if !mem { WholeChunk(length, size, offset, n); }
        Position(start, ofs);
        SectorInside(start, length, ofs, chunk, |dev.sectors|);
        CopyOut(dev, buffer, n, ofs, chunk);
        n := n + chunk;
      }
      ChunkFacts(length, size - n, offset + n);
      Whole(length, size, offset, n, mem);
    }

    /** One chunk of a read: a whole sector, or part of one through the bounce buffer. */
    method CopyOut(dev: Device, buffer: array<Byte>, at: nat, ofs: nat, chunk: nat)
      requires On(dev) && ofs + chunk <= length && at + chunk <= buffer.Length
      requires 0 < chunk && ofs % SECTOR + chunk <= SECTOR && ByteToSector(ofs) < |dev.sectors|
      modifies buffer
      ensures buffer[..] == Splice(old(buffer[..]), at, Bytes(dev)[ofs..ofs + chunk])
    {
      hide Flat;
      var i, o := ByteToSector(ofs), ofs % SECTOR;
      FlatLength(dev.sectors);
      Position(start, ofs);
      FlatSector(dev.sectors, i);
      SliceOf(Flat(dev.sectors), SECTOR * i, dev.sectors[i], o, chunk);
      assert Bytes(dev)[ofs..ofs + chunk] == Flat(dev.sectors)[SECTOR * i + o..SECTOR * i + o + chunk];
      if o == 0 && chunk == SECTOR {
        var whole := dev.Read(i);
        forall k | 0 <= k < SECTOR { buffer[at + k] := whole[k]; }
        assert buffer[..] == Splice(old(buffer[..]), at, whole[0..SECTOR]);
      } else {
        var bounce := dev.Read(i);
        forall k | 0 <= k < chunk { buffer[at + k] := bounce[o + k]; }
        assert buffer[..] == Splice(old(buffer[..]), at, bounce[o..o + chunk]);
      }
    }

    /** inode_write_at. Denied writes do nothing. Otherwise the device's bytes change in exactly one place: from
        the file's byte `offset` on, `n` bytes are those of the buffer; and `n` is all that fits unless a bounce
        buffer was needed and could not be had. */
    method WriteAt(dev: Device, buffer: seq<Byte>, size: int, offset: nat, mem: bool) returns (n: nat)
      requires On(dev) && size <= |buffer|
      modifies dev
      ensures |dev.sectors| == old(|dev.sectors|)
      ensures n <= Available(length, size, offset) && (n > 0 ==> offset + n <= length) && n <= |buffer|
      ensures n == if denyWriteCnt > 0 then 0 else Moved(length, size, offset, mem)
      ensures denyWriteCnt == 0 && n < Available(length, size, offset) ==> NeedsBounce(length, size - n, offset + n)
      ensures n == 0 ==> dev.sectors == old(dev.sectors)
      ensures n > 0 ==> Flat(dev.sectors) == Splice(old(Flat(dev.sectors)), SECTOR * start + offset, buffer[..n])
      ensures OnlyWithin(old(Flat(dev.sectors)), Flat(dev.sectors), SECTOR * start, SECTOR * start + length)
    {
      hide Flat, Available, Chunk, Moved, NeedsBounce, Splice, OnlyWithin;
      FlatLength(dev.sectors);
      ghost var total, flat, at := Available(length, size, offset), Flat(dev.sectors), SECTOR * start + offset;
      n := 0;
      SameRow(flat, SECTOR * start, SECTOR * start + length);
      if denyWriteCnt > 0 { return; }
      while size - n > 0
        invariant n <= |buffer| && (n > 0 ==> offset + n <= length) && |dev.sectors| == old(|dev.sectors|)
        invariant Available(length, size - n, offset + n) == total - n
        invariant !mem && n > 0 ==> offset % SECTOR == 0 && n % SECTOR == 0
        invariant n == 0 ==> dev.sectors == old(dev.sectors)
        invariant n > 0 ==> Flat(dev.sectors) == Splice(flat, at, buffer[..n])
        decreases size - n
      {
        var ofs := offset + n;
        ChunkFacts(length, size - n, ofs);
        var chunk := Chunk(length, size - n, ofs);
        if chunk <= 0 { break; }
        if NeedsBounce(length, size - n, ofs) && !mem { break; }
        if !mem { WholeChunk(length, size, offset, n); }
        Position(start, ofs);
        SectorInside(start, length, ofs, chunk, |dev.sectors|);
        CopyIn(dev, buffer[n..n + chunk], ofs);
        SpliceMore(flat, at, buffer, n, chunk);
        n := n + chunk;
      }
      ChunkFacts(length, size - n, offset + n);
      Whole(length, size, offset, n, mem);
      if n > 0 { SpliceOnly(flat, at, buffer[..n], SECTOR * start, SECTOR * start + length); }
    }

    /** One chunk of a write: a whole sector, or a sector read, patched and written back. */
    method CopyIn(dev: Device, data: seq<Byte>, ofs: nat)
      requires On(dev) && |data| > 0 && ofs + |data| <= length
      requires ofs % SECTOR + |data| <= SECTOR && ByteToSector(ofs) < |dev.sectors|
      modifies dev
      ensures |dev.sectors| == old(|dev.sectors|)
      ensures |old(Flat(dev.sectors))| == SECTOR * |dev.sectors|
      ensures Flat(dev.sectors) == Splice(old(Flat(dev.sectors)), SECTOR * start + ofs, data)
    {
      hide Flat;
      var i, o := ByteToSector(ofs), ofs % SECTOR;
      FlatLength(dev.sectors);
      Position(start, ofs);
      FlatPatch(dev.sectors, i, o, data);
      if o == 0 && |data| == SECTOR {
        assert Splice(dev.sectors[i], o, data) == data;
        dev.Write(i, data);
      } else if o > 0 || |data| < SECTOR - o {
        var bounce := dev.Read(i);
        dev.Write(i, Splice(bounce, o, data));
      } else {
        assert false;
      }
    }
  }

  lemma SliceOf<T>(f: seq<T>, at: nat, s: seq<T>, o: nat, c: nat)
    requires at + |s| <= |f| && f[at..at + |s|] == s && o + c <= |s|
    ensures f[at + o..at + o + c] == s[o..o + c]
  {
    var x, y := f[at + o..at + o + c], s[o..o + c];
    forall k | 0 <= k < c ensures x[k] == y[k] { assert f[at..at + |s|][o + k] == s[o + k]; }
  }

  lemma SpliceMore<T>(f: seq<T>, at: nat, b: seq<T>, n: nat, c: nat)
    requires n + c <= |b| && at + n + c <= |f|
    ensures Splice(Splice(f, at, b[..n]), at + n, b[n..n + c]) == Splice(f, at, b[..n + c])
    ensures n == 0 ==> Splice(f, at, b[..n]) == f
  {
    SpliceNext(f, at, b[..n], b[n..n + c]);
    assert b[..n] + b[n..n + c] == b[..n + c];
  }
}
