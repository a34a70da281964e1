/** A bitmap's words as the bytes of a file (lib/kernel/bitmap.c). */
module FsMap {
  import opened Disk

  /** The bytes of the bitmap's words. */
  function MapBytes(image: seq<bv32>): (s: seq<Byte>)
    ensures |s| == 4 * |image|
  {
    if image == [] then [] else WordBytes(image[0] as nat) + MapBytes(image[1..])
  }

  /** The words of a bitmap's file. */
  function MapWords(bytes: seq<Byte>): (words: seq<bv32>)
    ensures |words| == |bytes| / 4
  {
    seq(|bytes| / 4, i requires 0 <= i < |bytes| / 4 => WordAt(bytes, 4 * i) as bv32)
  }

  lemma WordKept(w: bv32)
    ensures (w as nat) as bv32 == w
  {
  }

  lemma FirstWord(w: nat, rest: seq<Byte>)
    requires w < 0x1_0000_0000
    ensures WordAt(WordBytes(w) + rest, 0) == w
  {
    hide WordAt;
    WordBack(w, [], rest);
    assert [] + WordBytes(w) + rest == WordBytes(w) + rest;
  }

  lemma MapSplit(image: seq<bv32>) returns (a: seq<Byte>, b: seq<Byte>)
    requires image != []
    ensures MapBytes(image) == a + b && |a| == 4 && b == MapBytes(image[1..]) && |b| == 4 * |image| - 4
    ensures WordAt(a + b, 0) == image[0] as nat
  {
    hide WordAt;
    a, b := WordBytes(image[0] as nat), MapBytes(image[1..]);
    FirstWord(image[0] as nat, b);
  }

  lemma {:induction false} MapWordAt(image: seq<bv32>, i: nat)
    requires i < |image|
    ensures WordAt(MapBytes(image), 4 * i) == image[i] as nat
  {
    hide WordAt, MapBytes;
    var a, b := MapSplit(image);
    if i > 0 {
      MapLength(image[1..]);
      MapWordAt(image[1..], i - 1);
      assert 4 * i == 4 + 4 * (i - 1);
      WordShift(a, b, 4 * (i - 1));
    }
  }

  lemma MapLength(image: seq<bv32>)
    ensures |MapBytes(image)| == 4 * |image|
  {
  }

  lemma WordShift(a: seq<Byte>, b: seq<Byte>, i: nat)
    requires |a| == 4 && i + 4 <= |b|
    ensures WordAt(a + b, 4 + i) == WordAt(b, i)
  {
  }

  /** A bitmap read back from what was written is the bitmap. */
  lemma MapBack(image: seq<bv32>)
    ensures MapWords(MapBytes(image)) == image
  {
    var words := MapWords(MapBytes(image));
    forall i | 0 <= i < |image| ensures words[i] == image[i] {
      MapWordAt(image, i);
      WordKept(image[i]);
    }
  }
}
