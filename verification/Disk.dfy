/** A block device of 512-byte sectors, and its bytes in one row. */
module Disk {
  const SECTOR: nat := 512

  type Byte = b: nat | b < 256

  type Sector = s: seq<Byte> | |s| == 512 witness seq(512, _ => 0)

  /** Byte `a` of the device. */
  function ByteAt(d: seq<Sector>, a: nat): (b: Byte)
    requires a < SECTOR * |d|
  {
    d[a / SECTOR][a % SECTOR]
  }

  /** The device's bytes in one row. */
  function Flat(d: seq<Sector>): (s: seq<Byte>)
    ensures |s| == SECTOR * |d|
  {
    seq(SECTOR * |d|, a requires 0 <= a < SECTOR * |d| => ByteAt(d, a))
  }

  /** A 32-bit word, low byte first. */
  function Word(a: nat, b: nat, c: nat, d: nat): (w: nat) {
    a + 0x100 * b + 0x1_0000 * c + 0x100_0000 * d
  }

  function WordAt(s: seq<Byte>, at: nat): (w: nat)
    requires at + 4 <= |s|
    ensures w < 0x1_0000_0000
  {
    Word(s[at], s[at + 1], s[at + 2], s[at + 3])
  }

  function WordBytes(w: nat): (b: seq<Byte>)
    requires w < 0x1_0000_0000
    ensures |b| == 4
  {
    [w % 0x100, w / 0x100 % 0x100, w / 0x1_0000 % 0x100, w / 0x100_0000]
  }

  lemma WordBack(w: nat, before: seq<Byte>, after: seq<Byte>)
    requires w < 0x1_0000_0000
    ensures WordAt(before + WordBytes(w) + after, |before|) == w
  {
    WordSum(w);
  }

  lemma WordSum(w: nat)
    requires w < 0x1_0000_0000
    ensures Word(w % 0x100, w / 0x100 % 0x100, w / 0x1_0000 % 0x100, w / 0x100_0000) == w
  {
  }

  /** `s` with the bytes at `at` replaced by those of `t`. */
  function Splice<T>(s: seq<T>, at: nat, t: seq<T>): (r: seq<T>)
    requires at + |t| <= |s|
    ensures |r| == |s|
  {
    s[..at] + t + s[at + |t|..]
  }

  lemma FlatAt(d: seq<Sector>, i: nat, o: nat)
    requires i < |d| && o < SECTOR
    ensures SECTOR * i + o < SECTOR * |d| && Flat(d)[SECTOR * i + o] == d[i][o]
  {
    assert (SECTOR * i + o) / SECTOR == i && (SECTOR * i + o) % SECTOR == o;
  }

  /** A sector is the slice of the row that starts at its first byte. */
  lemma FlatSector(d: seq<Sector>, i: nat)
    requires i < |d|
    ensures SECTOR * i + SECTOR <= SECTOR * |d| && Flat(d)[SECTOR * i..SECTOR * i + SECTOR] == d[i]
  {
    var s := Flat(d)[SECTOR * i..SECTOR * i + SECTOR];
    forall o | 0 <= o < SECTOR ensures s[o] == d[i][o] { FlatAt(d, i, o); }
  }

  /** Writing a sector replaces its slice of the row. */
  lemma FlatWrite(d: seq<Sector>, i: nat, s: Sector)
    requires i < |d|
    ensures SECTOR * i + SECTOR <= SECTOR * |d| && Flat(d[i := s]) == Splice(Flat(d), SECTOR * i, s)
  {
    var x, y := Flat(d[i := s]), Splice(Flat(d), SECTOR * i, s);
    forall a | 0 <= a < |x| ensures x[a] == y[a] { WrittenByte(d, i, s, a); }
  }

  lemma WrittenByte(d: seq<Sector>, i: nat, s: Sector, a: nat)
    requires i < |d| && a < SECTOR * |d|
    ensures Flat(d[i := s])[a] == if SECTOR * i <= a < SECTOR * i + SECTOR then s[a - SECTOR * i] else Flat(d)[a]
  {
    assert a == SECTOR * (a / SECTOR) + a % SECTOR;
  }

  /** Replacing part of a sector replaces those bytes of the row. */
  lemma FlatPatch(d: seq<Sector>, i: nat, o: nat, t: seq<Byte>)
    requires i < |d| && o + |t| <= SECTOR
    ensures SECTOR * i + o + |t| <= SECTOR * |d|
    ensures |Splice(d[i], o, t)| == SECTOR && Flat(d[i := Splice(d[i], o, t)]) == Splice(Flat(d), SECTOR * i + o, t)
  {
    hide Flat;
    FlatLength(d);
    FlatWrite(d, i, Splice(d[i], o, t));
    FlatSector(d, i);
    SpliceWithin(Flat(d), SECTOR * i, d[i], o, t);
  }

  lemma FlatLength(d: seq<Sector>)
    ensures |Flat(d)| == SECTOR * |d|
  {
  }

  lemma SpliceWithin<T>(f: seq<T>, at: nat, s: seq<T>, o: nat, t: seq<T>)
    requires at + |s| <= |f| && f[at..at + |s|] == s && o + |t| <= |s|
    ensures Splice(f, at, Splice(s, o, t)) == Splice(f, at + o, t)
  {
    var x, y := Splice(f, at, Splice(s, o, t)), Splice(f, at + o, t);
    forall a | 0 <= a < |f| ensures x[a] == y[a] {
      if at <= a < at + |s| { assert f[a] == s[a - at]; }
    }
  }

  /** A splice that continues where the last one ended. */
  lemma SpliceNext<T>(f: seq<T>, at: nat, s: seq<T>, t: seq<T>)
    requires at + |s| + |t| <= |f|
    ensures Splice(Splice(f, at, s), at + |s|, t) == Splice(f, at, s + t)
  {
  }

  /** The bytes of a stretch after a write inside it. */
  lemma SpliceInside<T>(f: seq<T>, lo: nat, hi: nat, o: nat, t: seq<T>)
    requires lo <= hi <= |f| && lo + o + |t| <= hi
    ensures Splice(f, lo + o, t)[lo..hi] == Splice(f[lo..hi], o, t)
  {
  }

  /** The bytes of a stretch after a write elsewhere. */
  lemma SpliceOutside<T>(f: seq<T>, at: nat, t: seq<T>, lo: nat, hi: nat)
    requires at + |t| <= |f| && lo <= hi <= |f| && (hi <= at || at + |t| <= lo)
    ensures Splice(f, at, t)[lo..hi] == f[lo..hi]
  {
  }

  /** The two rows differ at most between `lo` and `hi`. */
  ghost predicate OnlyWithin<T(!new)>(f: seq<T>, g: seq<T>, lo: nat, hi: nat) {
    |f| == |g| && forall a :: 0 <= a < |f| && !(lo <= a < hi) ==> f[a] == g[a]
  }

  lemma SpliceOnly<T(!new)>(f: seq<T>, at: nat, t: seq<T>, lo: nat, hi: nat)
    requires at + |t| <= |f| && lo <= at && at + |t| <= hi
    ensures OnlyWithin(f, Splice(f, at, t), lo, hi)
  {
  }

  lemma SameRow<T(!new)>(f: seq<T>, lo: nat, hi: nat)
    ensures OnlyWithin(f, f, lo, hi)
  {
  }

  class Device {
    var sectors: seq<Sector>

    /** block_read. */
    method Read(i: nat) returns (s: Sector)
      requires i < |sectors|
      ensures s == sectors[i]
    {
      s := sectors[i];
    }

    /** block_write. */
    method Write(i: nat, s: Sector)
      requires i < |sectors|
      modifies this
      ensures sectors == old(sectors)[i := s]
    {
      sectors := sectors[i := s];
    }
  }
}
