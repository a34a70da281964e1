/** Bitmaps (lib/kernel/bitmap.c): words of 32 bits that stand for a sequence of booleans. */

/** Single-bit operations on 32-bit words, as lib/kernel/bitmap.c uses them. */
module Bits {

  function And(a: bv32, b: bv32): (r: bv32) { a & b }

  function Or(a: bv32, b: bv32): (r: bv32) { a | b }

  function Xor(a: bv32, b: bv32): (r: bv32) { a ^ b }

  function Clear(a: bv32, b: bv32): (r: bv32) { a & !b }

  function Double(a: bv32): (r: bv32) { a << 1 }

  function Half(a: bv32): (r: bv32) { a >> 1 }

  /** `1 << k` in a 32-bit word. */
  function Bit(k: nat): (m: bv32) {
    if k == 0 then 1 else Double(Bit(k - 1))
  }

  predicate Test(w: bv32, k: nat) {
    And(w, Bit(k)) != 0
  }

  // ---- Laws of one, two or three arbitrary words ------------------------------------------------------

  lemma OrAnd(w: bv32, m: bv32, n: bv32)
    ensures And(Or(w, m), n) == Or(And(w, n), And(m, n))
  {
  }

  lemma XorAnd(w: bv32, m: bv32, n: bv32)
    ensures And(Xor(w, m), n) == Xor(And(w, n), And(m, n))
  {
  }

  lemma ClearAnd(w: bv32, m: bv32, n: bv32)
    ensures And(Clear(w, m), n) == Clear(And(w, n), And(m, n))
  {
  }

  lemma AndSelf(m: bv32)
    ensures And(m, m) == m
  {
  }

  lemma OrZero(x: bv32)
    ensures Or(x, 0) == x && Or(0, x) == x
  {
  }

  lemma OrSelf(x: bv32)
    ensures Or(x, x) == x
  {
  }

  lemma XorZero(x: bv32)
    ensures Xor(x, 0) == x && Xor(0, x) == x && Xor(x, x) == 0
  {
  }

  lemma ClearZero(x: bv32)
    ensures Clear(x, 0) == x && Clear(0, x) == 0 && Clear(x, x) == 0
  {
  }

  lemma AndCommutes(a: bv32, b: bv32)
    ensures And(a, b) == And(b, a)
  {
  }

  lemma DoubleAnd(w: bv32, m: bv32)
    ensures And(w, Double(m)) == Double(And(Half(w), m))
  {
  }

  lemma DoubleBoth(a: bv32, b: bv32)
    ensures And(Double(a), Double(b)) == Double(And(a, b))
  {
  }

  lemma DoubleIsEven(b: bv32)
    ensures And(1, Double(b)) == 0
  {
  }

  lemma DoubleZero()
    ensures Double(0) == 0
  {
  }

  lemma LowBit(w: bv32)
    ensures And(w, 1) == 0 || And(w, 1) == 1
  {
  }

  // ---- Single bits ---------------------------------------------------------------------------------

  lemma {:induction false} ZeroStays(k: nat, n: nat)
    requires k <= n && Bit(k) == 0
    ensures Bit(n) == 0
  {
    hide Double;
    if k < n {
      ZeroStays(k, n - 1);
      DoubleZero();
    }
  }

  lemma Bit31()
    ensures Bit(31) == 0x8000_0000
  {
    assert Bit(7) == 0x80;
    assert Bit(8) == 0x100;
    assert Bit(15) == 0x8000;
    assert Bit(16) == 0x1_0000;
    assert Bit(23) == 0x80_0000;
    assert Bit(31) == 0x8000_0000;
  }

  lemma BitNonzero(k: nat)
    requires k < 32
    ensures Bit(k) != 0
  {
    hide Bit;
    if Bit(k) == 0 { ZeroStays(k, 31); }
    Bit31();
  }

  lemma {:induction false} BitsApart(j: nat, k: nat)
    requires j < k
    ensures And(Bit(j), Bit(k)) == 0
  {
    hide Double, And;
    if j == 0 {
      DoubleIsEven(Bit(k - 1));
    } else {
      BitsApart(j - 1, k - 1);
      DoubleBoth(Bit(j - 1), Bit(k - 1));
      DoubleZero();
    }
  }

  lemma Apart(j: nat, k: nat)
    requires j != k
    ensures And(Bit(k), Bit(j)) == 0
  {
    hide Bit, And;
    if j < k {
      BitsApart(j, k);
      AndCommutes(Bit(j), Bit(k));
    } else {
      BitsApart(k, j);
    }
  }

  /** Masking with a single bit leaves that bit or nothing. */
  lemma {:induction false} MaskCases(w: bv32, k: nat)
    ensures And(w, Bit(k)) == 0 || And(w, Bit(k)) == Bit(k)
    decreases k
  {
    hide And, Double, Half;
    if k > 0 {
      MaskCases(Half(w), k - 1);
      DoubleAnd(w, Bit(k - 1));
      DoubleZero();
    } else {
      LowBit(w);
    }
  }

  /** What or, and-not and exclusive-or with a single bit do to any bit of a word. */
  lemma MaskOps(w: bv32, k: nat, j: nat)
    requires j < 32 && k < 32
    ensures Test(Or(w, Bit(k)), j) == (j == k || Test(w, j))
    ensures Test(Clear(w, Bit(k)), j) == (j != k && Test(w, j))
    ensures Test(Xor(w, Bit(k)), j) == (Test(w, j) != (j == k))
  {
    hide Bit, And, Or, Xor, Clear;
    OrAnd(w, Bit(k), Bit(j));
    XorAnd(w, Bit(k), Bit(j));
    ClearAnd(w, Bit(k), Bit(j));
    if j != k {
      Apart(j, k);
      OrZero(And(w, Bit(j)));
      XorZero(And(w, Bit(j)));
      ClearZero(And(w, Bit(j)));
    } else {
      BitNonzero(k);
      AndSelf(Bit(k));
      MaskCases(w, k);
      OrZero(Bit(k));
      OrSelf(Bit(k));
      XorZero(Bit(k));
      ClearZero(Bit(k));
    }
  }
}

/** Masks of all bits below a position. */
module LowMasks {
  import opened Bits

  function Minus1(x: bv32): (r: bv32) { x - 1 }

  lemma MinusDouble(x: bv32)
    ensures Minus1(Double(x)) == Or(Double(Minus1(x)), 1)
  {
  }

  lemma AndZero(x: bv32)
    ensures And(0, x) == 0
  {
  }

  lemma DoubleNonzero(y: bv32, j: nat)
    requires j < 31
    ensures Double(And(y, Bit(j))) != 0 <==> And(y, Bit(j)) != 0
  {
    hide Double, And;
    MaskCases(y, j);
    DoubleZero();
    BitNonzero(j + 1);
    BitNonzero(j);
  }

  /** `(1 << k) - 1` has exactly the bits below `k`. */
  lemma {:induction false} LowMaskBits(k: nat, j: nat)
    requires j < 32
    ensures Test(Minus1(Bit(k)), j) == (j < k)
    decreases k
  {
    hide Double, And, Or, Minus1;
    if k == 0 {
      assert Minus1(1) == 0 by { OneMinusOne(); }
      AndZero(Bit(j));
    } else {
      var y := Minus1(Bit(k - 1));
      MinusDouble(Bit(k - 1));
      OrAnd(Double(y), 1, Bit(j));
      if j == 0 {
        AndCommutes(Double(y), 1);
        DoubleIsEven(y);
        AndSelf(1);
        OrZero(1);
      } else {
        LowMaskBits(k - 1, j - 1);
        DoubleBoth(y, Bit(j - 1));
        DoubleIsEven(Bit(j - 1));
        OrZero(Double(And(y, Bit(j - 1))));
        DoubleNonzero(y, j - 1);
      }
    }
  }

  lemma OneMinusOne()
    ensures Minus1(1) == 0
  {
  }

  lemma AllOnes(j: nat)
    requires j < 32
    ensures Test(0xFFFF_FFFF, j)
  {
    hide Bit;
    BitNonzero(j);
    AndOnes(Bit(j));
  }

  lemma AndOnes(x: bv32)
    ensures And(0xFFFF_FFFF, x) == x
  {
  }

  lemma AndAssoc(a: bv32, b: bv32, c: bv32)
    ensures And(And(a, b), c) == And(a, And(b, c))
  {
  }

  /** Masking keeps the bits of the mask. */
  lemma TestAnd(w: bv32, m: bv32, j: nat)
    requires j < 32
    ensures Test(And(w, m), j) == (Test(w, j) && Test(m, j))
  {
    hide Bit, And;
    AndAssoc(w, m, Bit(j));
    MaskCases(m, j);
    AndCommutes(w, 0);
    AndZero(w);
  }
}

module Bitmap {
  import opened Bits
  import opened LowMasks

  const ELEM_BITS: nat := 32
  const BITMAP_ERROR: nat := 0xFFFF_FFFF

  function ElemCnt(bitCnt: nat): (n: nat)
    ensures bitCnt <= ELEM_BITS * n < bitCnt + ELEM_BITS
  {
    (bitCnt + ELEM_BITS - 1) / ELEM_BITS
  }

  /** The booleans that `words` packs. */
  function Unpack(words: seq<bv32>, n: nat): (s: seq<bool>)
    requires n <= ELEM_BITS * |words|
  {
    seq(n, i requires 0 <= i < n => Test(words[i / ELEM_BITS], i % ELEM_BITS))
  }

  // ---- Meanings on sequences ---------------------------------------------------------------------------

  /** `cnt` positions from `start` on all hold `v`. */
  predicate Group(s: seq<bool>, start: nat, cnt: nat, v: bool) {
    start + cnt <= |s| && forall i :: start <= i < start + cnt ==> s[i] == v
  }

  function Fill(s: seq<bool>, start: nat, cnt: nat, v: bool): (r: seq<bool>)
    requires start + cnt <= |s|
  {
    s[..start] + seq(cnt, i => v) + s[start + cnt..]
  }

  lemma FillAt(s: seq<bool>, start: nat, cnt: nat, v: bool)
    requires start + cnt <= |s|
    ensures |Fill(s, start, cnt, v)| == |s|
    ensures forall i :: 0 <= i < |s| ==> Fill(s, start, cnt, v)[i] == if start <= i < start + cnt then v else s[i]
  {
  }

  /** The first fitting group at or after `start`. */
  ghost predicate FirstGroup(s: seq<bool>, start: nat, cnt: nat, v: bool, r: nat) {
    start <= r && Group(s, r, cnt, v) && forall i :: start <= i < r ==> !Group(s, i, cnt, v)
  }

  // ---- Changing one word -----------------------------------------------------------------------------

  /** Position `idx` alone changes when its bit of its word does and no other bit does. */
  lemma UnpackUpdate(words: seq<bv32>, n: nat, idx: nat, w: bv32, v: bool)
    requires n <= ELEM_BITS * |words| && idx < n
    requires forall j :: 0 <= j < 32 ==>
             Test(w, j) == if j == idx % ELEM_BITS then v else Test(words[idx / ELEM_BITS], j)
    ensures Unpack(words[idx / ELEM_BITS := w], n) == Unpack(words, n)[idx := v]
  {
    hide Test;
    var a, b := Unpack(words[idx / ELEM_BITS := w], n), Unpack(words, n)[idx := v];
    forall i | 0 <= i < n ensures a[i] == b[i] {
      assert 0 <= i % ELEM_BITS < 32;
    }
  }

  /** The first group of no bits is at the start index, so it is at 0 exactly when the search starts there. */
  lemma EmptyGroup(s: seq<bool>, start: nat, v: bool, r: nat)
    requires start <= |s|
    ensures FirstGroup(s, start, 0, v, r) <==> r == start
    ensures FirstGroup(s, start, 0, v, 0) <==> start == 0
  {
    assert Group(s, start, 0, v);
  }

  /** An input for which the answer is not 0. */
  lemma EmptyGroupNotZero()
    ensures FirstGroup([false], 1, 0, false, 1) && !FirstGroup([false], 1, 0, false, 0)
  {
    EmptyGroup([false], 1, false, 1);
  }

  class BitmapObject {
    const bitCnt: nat
    const bits: array<bv32>

    ghost predicate Valid() {
      bitCnt < BITMAP_ERROR && bits.Length == ElemCnt(bitCnt)
    }

    ghost function Contents(): (s: seq<bool>)
      requires Valid()
      reads bits
    {
      Unpack(bits[..], bitCnt)
    }

    /** bitmap_create, when its allocations succeed. */
    constructor (n: nat)
      requires n < BITMAP_ERROR
      ensures Valid() && fresh(bits) && bitCnt == n && Group(Contents(), 0, n, false)
    {
      bitCnt := n;
      bits := new bv32[ElemCnt(n)];
      new;
      FillAt(Contents(), 0, n, false);
      SetMultiple(0, n, false);
    }

    method Mark(idx: nat)
      requires Valid() && idx < bitCnt
      modifies bits
      ensures Contents() == old(Contents())[idx := true]
    {
      hide Test, Bit, Or, Clear, Xor, Unpack;
      ghost var words := bits[..];
      var w := bits[idx / ELEM_BITS];
      MarkFacts(w, idx % ELEM_BITS);
      bits[idx / ELEM_BITS] := Or(w, Bit(idx % ELEM_BITS));
      assert bits[..] == words[idx / ELEM_BITS := bits[idx / ELEM_BITS]];
      UnpackUpdate(words, bitCnt, idx, bits[idx / ELEM_BITS], true);
    }

    method Reset(idx: nat)
      requires Valid() && idx < bitCnt
      modifies bits
      ensures Contents() == old(Contents())[idx := false]
    {
      hide Test, Bit, Or, Clear, Xor, Unpack;
      ghost var words := bits[..];
      var w := bits[idx / ELEM_BITS];
      MarkFacts(w, idx % ELEM_BITS);
      bits[idx / ELEM_BITS] := Clear(w, Bit(idx % ELEM_BITS));
      assert bits[..] == words[idx / ELEM_BITS := bits[idx / ELEM_BITS]];
      UnpackUpdate(words, bitCnt, idx, bits[idx / ELEM_BITS], false);
    }

    method FlipBit(idx: nat)
      requires Valid() && idx < bitCnt
      modifies bits
      ensures Contents() == old(Contents())[idx := !old(Contents())[idx]]
    {
      hide Test, Bit, Or, Clear, Xor;
      ghost var words := bits[..];
      var w := bits[idx / ELEM_BITS];
      MarkFacts(w, idx % ELEM_BITS);
      bits[idx / ELEM_BITS] := Xor(w, Bit(idx % ELEM_BITS));
      assert bits[..] == words[idx / ELEM_BITS := bits[idx / ELEM_BITS]];
      UnpackUpdate(words, bitCnt, idx, bits[idx / ELEM_BITS], !Test(w, idx % ELEM_BITS));
    }

    method TestBit(idx: nat) returns (v: bool)
      requires Valid() && idx < bitCnt
      ensures v == Contents()[idx]
    {
      v := And(bits[idx / ELEM_BITS], Bit(idx % ELEM_BITS)) != 0;
    }

    method Set(idx: nat, value: bool)
      requires Valid() && idx < bitCnt
      modifies bits
      ensures Contents() == old(Contents())[idx := value]
    {
      if value {
        Mark(idx);
      } else {
        Reset(idx);
      }
    }

    method SetMultiple(start: nat, cnt: nat, value: bool)
      requires Valid() && start + cnt <= bitCnt
      modifies bits
      ensures Contents() == Fill(old(Contents()), start, cnt, value)
    {
      ghost var s := Contents();
      FillAt(s, start, cnt, value);
      for i := 0 to cnt
        invariant Contents() == Fill(s, start, i, value)
      {
        Set(start + i, value);
        FillStep(s, start, i, value);
      }
    }

    /** bitmap_contains. */
    method Contains(start: nat, cnt: nat, value: bool) returns (found: bool)
      requires Valid() && start + cnt <= bitCnt
      ensures found == !Group(Contents(), start, cnt, !value)
    {
      for i := 0 to cnt
        invariant forall j :: start <= j < start + i ==> Contents()[j] == !value
      {
        var v := TestBit(start + i);
        if v == value {
          return true;
        }
      }
      return false;
    }

    /** bitmap_scan: the least fitting index, or the error value when there is none. */
    method Scan(start: nat, cnt: nat, value: bool) returns (idx: nat)
      requires Valid() && start <= bitCnt
      ensures idx != BITMAP_ERROR ==> FirstGroup(Contents(), start, cnt, value, idx)
      ensures idx == BITMAP_ERROR ==> forall i :: start <= i ==> !Group(Contents(), i, cnt, value)
      ensures cnt == 0 ==> idx == start
    {
      assert cnt == 0 ==> Group(Contents(), start, cnt, value);
      if cnt <= bitCnt {
        var last := bitCnt - cnt;
        var i := start;
        while i <= last
          invariant start <= i
          invariant forall j :: start <= j < i ==> !Group(Contents(), j, cnt, value)
          decreases last + 1 - i
        {
          var c := Contains(i, cnt, !value);
          if !c {
            return i;
          }
          i := i + 1;
        }
      }
      return BITMAP_ERROR;
    }

    /** bitmap_write, as words. */
    method Write() returns (image: seq<bv32>)
      requires Valid()
      ensures |image| == ElemCnt(bitCnt) && Unpack(image, bitCnt) == Contents() && image == bits[..]
    {
      image := bits[..];
    }

    /** bitmap_read of a file of the right size: the contents are the file's, and the bits of the last
        word that stand for nothing come out zero. */
    method Read(image: seq<bv32>)
      requires Valid() && |image| == ElemCnt(bitCnt)
      modifies bits
      ensures Contents() == Unpack(image, bitCnt)
      ensures bitCnt % ELEM_BITS > 0 ==> NoneFrom(bits[bits.Length - 1], bitCnt % ELEM_BITS)
    {
      forall i | 0 <= i < bits.Length { bits[i] := image[i]; }
      assert bits[..] == image;
      if bitCnt > 0 {
        var l := bits.Length - 1;
        UnpackMasked(image, bitCnt);
        forall j | 0 <= j < 32
          ensures Test(And(image[l], LastMask(bitCnt)), j) ==> bitCnt % ELEM_BITS == 0 || j < bitCnt % ELEM_BITS
        {
          TestAnd(image[l], LastMask(bitCnt), j);
          LastMaskBits(bitCnt, j);
        }
        bits[l] := And(bits[l], LastMask(bitCnt));
        assert bits[..] == image[l := And(image[l], LastMask(bitCnt))];
      }
    }

    method ScanAndFlip(start: nat, cnt: nat, value: bool) returns (idx: nat)
      requires Valid() && start <= bitCnt
      modifies bits
      ensures idx != BITMAP_ERROR ==> FirstGroup(old(Contents()), start, cnt, value, idx)
                                      && Contents() == Fill(old(Contents()), idx, cnt, !value)
      ensures idx == BITMAP_ERROR ==>
                Contents() == old(Contents())
                && forall i :: start <= i ==> !Group(Contents(), i, cnt, value)
      ensures cnt == 0 ==> idx == start && Contents() == old(Contents())
    {
      idx := Scan(start, cnt, value);
      if idx != BITMAP_ERROR {
        FillAt(Contents(), idx, cnt, !value);
        SetMultiple(idx, cnt, !value);
      }
    }
  }

  /** No bit from `k` on is set. */
  predicate NoneFrom(w: bv32, k: nat) {
    forall j :: k <= j < 32 ==> !Test(w, j)
  }

  /** last_mask. */
  function LastMask(bitCnt: nat): (m: bv32) {
    if bitCnt % ELEM_BITS != 0 then Minus1(Bit(bitCnt % ELEM_BITS)) else 0xFFFF_FFFF
  }

  lemma LastMaskBits(n: nat, j: nat)
    requires j < 32
    ensures Test(LastMask(n), j) <==> n % ELEM_BITS == 0 || j < n % ELEM_BITS
  {
    hide Bit, Test, Minus1;
    if n % ELEM_BITS != 0 { LowMaskBits(n % ELEM_BITS, j); } else { AllOnes(j); }
  }

  /** Masking the last word changes nothing that counts. */
  lemma UnpackMasked(words: seq<bv32>, n: nat)
    requires n > 0 && |words| == ElemCnt(n)
    ensures Unpack(words[|words| - 1 := And(words[|words| - 1], LastMask(n))], n) == Unpack(words, n)
  {
    hide Test, And, LastMask;
    var l := |words| - 1;
    var a, b := Unpack(words[l := And(words[l], LastMask(n))], n), Unpack(words, n);
    forall i | 0 <= i < n ensures a[i] == b[i] {
      if i / ELEM_BITS == l {
        TestAnd(words[l], LastMask(n), i % ELEM_BITS);
        LastMaskBits(n, i % ELEM_BITS);
      }
    }
  }

  lemma MarkFacts(w: bv32, k: nat)
    requires k < 32
    ensures forall j :: 0 <= j < 32 ==> Test(Or(w, Bit(k)), j) == if j == k then true else Test(w, j)
    ensures forall j :: 0 <= j < 32 ==> Test(Clear(w, Bit(k)), j) == if j == k then false else Test(w, j)
    ensures forall j :: 0 <= j < 32 ==> Test(Xor(w, Bit(k)), j) == if j == k then !Test(w, k) else Test(w, j)
  {
    hide Test, Bit, Or, Clear, Xor;
    forall j | 0 <= j < 32
      ensures Test(Or(w, Bit(k)), j) == if j == k then true else Test(w, j)
      ensures Test(Clear(w, Bit(k)), j) == if j == k then false else Test(w, j)
      ensures Test(Xor(w, Bit(k)), j) == if j == k then !Test(w, k) else Test(w, j)
    {
      MaskOps(w, k, j);
    }
  }

  lemma FillStep(s: seq<bool>, start: nat, i: nat, v: bool)
    requires start + i < |s|
    ensures |Fill(s, start, i, v)| == |s| && Fill(s, start, i, v)[start + i := v] == Fill(s, start, i + 1, v)
  {
    FillAt(s, start, i, v);
    FillAt(s, start, i + 1, v);
  }
}
