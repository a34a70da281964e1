/** ustar archive headers (lib/ustar.c), after the ustar Interchange Format of the pax utility in SUSv3. */
module Ustar {
  import opened Basics
  import opened DirEntries
  import opened Disk
  import opened Format

  const HEADER: nat := 512
  const CH_SLASH: Byte := 47
  const CH_DOT: Byte := 46
  const REGULAR: Byte := 48
  const DIRECTORY: Byte := 53
  const INT_MAX: nat := 0x7FFF_FFFF
  const CHKSUM: nat := 148       // offset of the checksum field, 8 bytes

  type Int32 = x: int | -0x8000_0000 <= x < 0x8000_0000

  // ---- Prefixes -----------------------------------------------------------------------------------------------------

  predicate Antisocial(n: Name) {
    (|n| >= 1 && n[0] == CH_SLASH) || (|n| >= 2 && n[..2] == [CH_DOT, CH_SLASH])
      || (|n| >= 3 && n[..3] == [CH_DOT, CH_DOT, CH_SLASH])
  }

  /** What follows the first slash. */
  function AfterSlash(n: Name): (r: Name)
    requires CH_SLASH in n
    ensures |r| < |n|
  {
    if n[0] == CH_SLASH then n[1..] else AfterSlash(n[1..])
  }

  /** strip_antisocial_prefixes. */
  function Strip(n: Name): (r: Name)
    decreases |n|
  {
    if Antisocial(n) then
      HasSlash(n); Strip(AfterSlash(n))
    else if n == [] || n == [CH_DOT, CH_DOT] then [CH_DOT]
    else n
  }

  lemma HasSlash(n: Name)
    requires Antisocial(n)
    ensures CH_SLASH in n
  {
    if |n| >= 3 && n[..3] == [CH_DOT, CH_DOT, CH_SLASH] { assert n[..3][2] == n[2]; }
    if |n| >= 2 && n[..2] == [CH_DOT, CH_SLASH] { assert n[..2][1] == n[1]; }
  }

  /** A stripped name is safe, not empty, and a fixed point. */
  lemma {:induction false} StripFacts(n: Name)
    ensures !Antisocial(Strip(n)) && Strip(n) != [] && Strip(n) != [CH_DOT, CH_DOT] && Strip(Strip(n)) == Strip(n)
    ensures 0 !in n ==> 0 !in Strip(n)
    ensures Strip(n) == [CH_DOT] || exists k :: 0 <= k <= |n| && Strip(n) == n[k..]
    decreases |n|
  {
    if Antisocial(n) {
      HasSlash(n);
      var t := AfterSlash(n);
      SuffixAfterSlash(n);
      StripFacts(t);
      if Strip(n) != [CH_DOT] {
        var k :| 0 <= k <= |t| && Strip(t) == t[k..];
        assert Strip(n) == n[|n| - |t| + k..];
      }
    } else if n != [] && n != [CH_DOT, CH_DOT] {
      assert n[0..] == n;
    }
  }

  lemma {:induction false} SuffixAfterSlash(n: Name)
    requires CH_SLASH in n
    ensures AfterSlash(n) == n[|n| - |AfterSlash(n)|..]
  {
    if n[0] != CH_SLASH { SuffixAfterSlash(n[1..]); }
  }

  // What is stripped, without following the loop.

  predicate Starts(n: Name, p: Name) {
    |p| <= |n| && n[..|p|] == p
  }

  /** "/", "./" and "../". */
  const PREFIXES: set<Name> := {[CH_SLASH], [CH_DOT, CH_SLASH], [CH_DOT, CH_DOT, CH_SLASH]}

  /** One of these after the other. */
  ghost predicate AllPrefixes(n: Name)
    decreases |n|
  {
    n == [] || exists p :: p in PREFIXES && Starts(n, p) && AllPrefixes(n[|p|..])
  }

  /** The longest such part of a name ends at `k`. */
  ghost predicate StopsAt(n: Name, k: nat) {
    k <= |n| && AllPrefixes(n[..k]) && forall p :: p in PREFIXES ==> !Starts(n[k..], p)
  }

  /** A name that has nothing left, or only "..", is shown as ".". */
  function Shown(n: Name): (r: Name) {
    if n == [] || n == [CH_DOT, CH_DOT] then [CH_DOT] else n
  }

  lemma AntisocialMeans(n: Name)
    ensures Antisocial(n) <==> exists p :: p in PREFIXES && Starts(n, p)
    ensures Antisocial(n) ==> CH_SLASH in n && forall p :: p in PREFIXES && Starts(n, p) ==> AfterSlash(n) == n[|p|..]
  {
    if Antisocial(n) { HasSlash(n); }
    forall p | p in PREFIXES && Starts(n, p) ensures Antisocial(n) && AfterSlash(n) == n[|p|..] { PrefixSlash(n, p); }
    if Antisocial(n) {
      assert Starts(n, [CH_SLASH]) || Starts(n, [CH_DOT, CH_SLASH]) || Starts(n, [CH_DOT, CH_DOT, CH_SLASH]);
    }
  }

  lemma PrefixSlash(n: Name, p: Name)
    requires p in PREFIXES && Starts(n, p)
    ensures Antisocial(n) && CH_SLASH in n && AfterSlash(n) == n[|p|..]
  {
    forall i | 0 <= i < |p| ensures n[i] == p[i] { assert n[..|p|][i] == n[i]; }
    assert n[|p| - 1] == CH_SLASH;
    SlashAt(n, |p| - 1);
  }

  lemma {:induction false} SlashAt(n: Name, k: nat)
    requires k < |n| && n[k] == CH_SLASH && forall i :: 0 <= i < k ==> n[i] != CH_SLASH
    ensures AfterSlash(n) == n[k + 1..]
  {
    if k > 0 {
      SlashAt(n[1..], k - 1);
      assert n[1..][k..] == n[k + 1..];
    }
  }

  /** Exactly the prefixes go, all of them, and nothing else. */
  lemma {:induction false} StripStops(n: Name) returns (k: nat)
    ensures StopsAt(n, k) && Strip(n) == Shown(n[k..])
    decreases |n|
  {
    hide AfterSlash, StopsAt;
    AntisocialMeans(n);
    if Antisocial(n) {
      var p :| p in PREFIXES && Starts(n, p);
      var j := StripStops(AfterSlash(n));
      k := |p| + j;
      OnePrefixMore(n, p, j);
    } else {
      k := 0;
      NoPrefix(n);
    }
  }

  lemma OnePrefixMore(n: Name, p: Name, j: nat)
    requires p in PREFIXES && Starts(n, p) && StopsAt(n[|p|..], j)
    ensures StopsAt(n, |p| + j) && n[|p|..][j..] == n[|p| + j..]
  {
    hide AllPrefixes;
    var t, k := n[|p|..], |p| + j;
    assert n[k..] == t[j..] && n[..k][|p|..] == t[..j] && Starts(n[..k], p);
    PrefixFirst(n[..k], p);
  }

  lemma PrefixFirst(n: Name, p: Name)
    requires p in PREFIXES && Starts(n, p) && AllPrefixes(n[|p|..])
    ensures AllPrefixes(n)
  {
  }

  lemma NoPrefix(n: Name)
    requires forall p :: p in PREFIXES ==> !Starts(n, p)
    ensures StopsAt(n, 0) && n[0..] == n
  {
    assert n[..0] == [] && n[0..] == n;
  }

  /** There is only one place to stop. */
  lemma {:induction false} StopsOnce(n: Name, j: nat, k: nat)
    requires StopsAt(n, j) && StopsAt(n, k)
    ensures j == k
    decreases |n|
  {
    hide StopsAt;
    if j == 0 || k == 0 {
      FirstPrefix(n, j, k);
    } else {
      var p := TakesFirst(n, j);
      var q := TakesFirst(n, k);
      OnePrefix(n, p, q);
      StopsOnce(n[|p|..], j - |p|, k - |p|);
    }
  }

  lemma TakesFirst(n: Name, k: nat) returns (p: Name)
    requires StopsAt(n, k) && k > 0
    ensures p in PREFIXES && Starts(n, p) && |p| <= k && StopsAt(n[|p|..], k - |p|)
  {
    p :| p in PREFIXES && Starts(n[..k], p) && AllPrefixes(n[..k][|p|..]);
    assert n[..k][..|p|] == n[..|p|];
    assert n[|p|..][..k - |p|] == n[..k][|p|..] && n[|p|..][k - |p|..] == n[k..];
  }

  lemma OnePrefix(n: Name, p: Name, q: Name)
    requires p in PREFIXES && q in PREFIXES && Starts(n, p) && Starts(n, q)
    ensures p == q
  {
    PrefixSlash(n, p);
    PrefixSlash(n, q);
    assert |n[|p|..]| == |n| - |p| && |n[|q|..]| == |n| - |q|;
    assert n[..|p|] == n[..|q|];
  }

  lemma FirstPrefix(n: Name, j: nat, k: nat)
    requires StopsAt(n, j) && StopsAt(n, k) && (j == 0 || k == 0)
    ensures j == k
  {
    assert n[0..] == n;
    if j > 0 { var p := TakesFirst(n, j); }
    if k > 0 { var p := TakesFirst(n, k); }
  }

  /** A name without such a prefix, that is not empty and not "..", stays as it is. */
  lemma SocialStays(n: Name)
    requires n != [] && n != [CH_DOT, CH_DOT] && forall p :: p in PREFIXES ==> !Starts(n, p)
    ensures Strip(n) == n
  {
    AntisocialMeans(n);
  }

  /** strip_antisocial_prefixes' loop: exactly the prefixes go. */
  method StripAntisocialPrefixes(name: Name) returns (r: Name)
    ensures r == Strip(name) && exists k: nat :: StopsAt(name, k) && r == Shown(name[k..])
  {
    ghost var k := StripStops(name);
    r := name;
    while Antisocial(r)
      invariant Strip(r) == Strip(name)
      decreases |r|
    {
      HasSlash(r);
      r := AfterSlash(r);
    }
    if r == [] || r == [CH_DOT, CH_DOT] { r := [CH_DOT]; }
  }

  // ---- The checksum -------------------------------------------------------------------------------------------------

  /** The byte at `i` as the checksum sees it. */
  function Counted(h: seq<Byte>, i: nat): (b: Byte)
    requires i < |h|
  {
    if CHKSUM <= i < CHKSUM + 8 then CH_SPACE else h[i]
  }

  function SumTo(h: seq<Byte>, n: nat): (s: nat)
    requires n <= |h|
    ensures s <= 255 * n
  {
    if n == 0 then 0 else SumTo(h, n - 1) + Counted(h, n - 1)
  }

  lemma {:induction false} SumSame(h: seq<Byte>, g: seq<Byte>, n: nat)
    requires n <= |h| == |g| && forall i :: 0 <= i < |h| && !(CHKSUM <= i < CHKSUM + 8) ==> h[i] == g[i]
    ensures SumTo(h, n) == SumTo(g, n)
  {
    if n > 0 { SumSame(h, g, n - 1); }
  }

  function Total(s: seq<Byte>): (n: nat) {
    if s == [] then 0 else Total(s[..|s| - 1]) + s[|s| - 1]
  }

  /** The checksum is the sum of the bytes outside its field, and of eight spaces. */
  lemma SumIsTotal(h: seq<Byte>)
    requires |h| == HEADER
    ensures SumTo(h, HEADER) == Total(h[..CHKSUM]) + 8 * 32 + Total(h[CHKSUM + 8..])
  {
    hide SumTo, Total;
    SumBefore(h, CHKSUM);
    SumField(h, 8);
    SumBehind(h, HEADER);
    assert h[CHKSUM + 8..HEADER] == h[CHKSUM + 8..];
  }

  lemma {:induction false} SumBefore(h: seq<Byte>, n: nat)
    requires |h| == HEADER && n <= CHKSUM
    ensures SumTo(h, n) == Total(h[..n])
  {
    if n > 0 {
      SumBefore(h, n - 1);
      assert h[..n][..n - 1] == h[..n - 1];
    }
  }

  lemma {:induction false} SumField(h: seq<Byte>, n: nat)
    requires |h| == HEADER && n <= 8
    ensures SumTo(h, CHKSUM + n) == SumTo(h, CHKSUM) + n * 32
  {
    if n > 0 { SumField(h, n - 1); }
  }

  lemma {:induction false} SumBehind(h: seq<Byte>, n: nat)
    requires |h| == HEADER && CHKSUM + 8 <= n <= HEADER
    ensures SumTo(h, n) == SumTo(h, CHKSUM + 8) + Total(h[CHKSUM + 8..n])
  {
    if n > CHKSUM + 8 {
      SumBehind(h, n - 1);
      assert h[CHKSUM + 8..n][..n - 1 - (CHKSUM + 8)] == h[CHKSUM + 8..n - 1];
    }
  }

  /** calculate_chksum. */
  method CalculateChksum(h: seq<Byte>) returns (chksum: nat)
    requires |h| == HEADER
    ensures chksum == SumTo(h, HEADER) == Total(h[..CHKSUM]) + 8 * 32 + Total(h[CHKSUM + 8..])
  {
    SumIsTotal(h);
    chksum := 0;
    for i := 0 to HEADER
      invariant chksum == SumTo(h, i)
    {
      chksum := chksum + (if CHKSUM <= i < CHKSUM + 8 then CH_SPACE else h[i]);
    }
  }

  // ---- Octal fields -------------------------------------------------------------------------------------------------

  predicate IsOctal(c: Byte) {
    CH_0 <= c <= CH_0 + 7
  }

  /** The leading octal digits. */
  function Digits(s: seq<Byte>): (n: nat)
    ensures n <= |s| && (n < |s| ==> !IsOctal(s[n])) && forall i :: 0 <= i < n ==> IsOctal(s[i])
  {
    if s == [] || !IsOctal(s[0]) then 0 else 1 + Digits(s[1..])
  }

  /** What a field means: digits, then a space or a null, with a value that fits 32 bits. */
  function FieldValue(s: seq<Byte>): (v: Option<int>) {
    var n := Digits(s);
    if 0 < n < |s| && (s[n] == CH_SPACE || s[n] == 0) && OctalValue(s[..n]) < WORD then Some(OctalValue(s[..n]))
      else None
  }

  lemma {:induction false} PrefixValue(s: seq<Byte>, k: nat, n: nat)
    requires k <= n <= |s| && forall i :: 0 <= i < n ==> IsOctal(s[i])
    ensures 0 <= OctalValue(s[..k]) <= OctalValue(s[..n])
    decreases n
  {
    if n > 0 {
      assert s[..n][..n - 1] == s[..n - 1];
      if k < n { PrefixValue(s, k, n - 1); } else { PrefixValue(s, n - 1, n - 1); }
    }
  }

  lemma NextValue(s: seq<Byte>, k: nat)
    requires k < |s|
    ensures OctalValue(s[..k + 1]) == 8 * OctalValue(s[..k]) + (s[k] - CH_0)
  {
    assert s[..k + 1][..k] == s[..k];
  }

  /** parse_octal_field: what the loop with its overflow test accepts is exactly the fields that mean a value. */
  method ParseOctalField(s: seq<Byte>) returns (r: Option<int>)
    ensures r == FieldValue(s)
  {
    hide OctalValue;
    var value := 0;
    var ofs := 0;
    EmptyValue();
    while ofs < |s|
      invariant ofs <= Digits(s) && value == OctalValue(s[..ofs]) && 0 <= value < WORD
    {
      var c := s[ofs];
      if IsOctal(c) {
        DigitsPast(s, ofs);
        NextValue(s, ofs);
        PrefixValue(s, ofs + 1, Digits(s));
        if value > 0xFFFF_FFFF / 8 { return None; }
        value := c - CH_0 + value * 8;
      } else if c == CH_SPACE || c == 0 {
        return if ofs > 0 then Some(value) else None;
      } else {
        return None;
      }
      ofs := ofs + 1;
    }
    r := None;
  }

  lemma EmptyValue()
    ensures forall s: seq<Byte> :: OctalValue(s[..0]) == 0
  {
  }

  lemma {:induction false} DigitsPast(s: seq<Byte>, k: nat)
    requires k < |s| && k <= Digits(s) && IsOctal(s[k])
    ensures k < Digits(s)
  {
  }

  /** A printed field reads back. */
  lemma OctalField(v: nat, n: nat)
    requires n > 0 && v < Pow8(n) && v < WORD
    ensures FieldValue(Octal(v, n) + [0]) == Some(v)
  {
    var s := Octal(v, n) + [0];
    OctalDigits(v, n);
    OctalBack(v, n);
    assert forall i :: 0 <= i < n ==> IsOctal(s[i]);
    assert s[n] == 0 && !IsOctal(s[n]);
    assert Digits(s) == n;
    assert s[..n] == Octal(v, n);
  }

  // ---- Filling in a header ------------------------------------------------------------------------------------------

  datatype Write = Write(at: nat, bytes: seq<Byte>)

  predicate Fits(w: Write, n: nat) {
    w.at + |w.bytes| <= n
  }

  predicate Avoids(w: Write, lo: nat, hi: nat) {
    w.at + |w.bytes| <= lo || hi <= w.at
  }

  /** One write after the other. */
  function Apply(h: seq<Byte>, ws: seq<Write>): (r: seq<Byte>)
    requires forall k :: 0 <= k < |ws| ==> Fits(ws[k], |h|)
    ensures |r| == |h|
  {
    if ws == [] then h
    else
      var l := |ws| - 1;
      assert Fits(ws[l], |h|);
      Splice(Apply(h, ws[..l]), ws[l].at, ws[l].bytes)
  }

  lemma {:induction false} Untouched(h: seq<Byte>, ws: seq<Write>, lo: nat, hi: nat)
    requires (forall k :: 0 <= k < |ws| ==> Fits(ws[k], |h|)) && lo <= hi <= |h| && forall k :: 0 <= k < |ws| ==>
             Avoids(ws[k], lo, hi)
    ensures Apply(h, ws)[lo..hi] == h[lo..hi]
  {
    hide Splice;
    if ws != [] {
      var l := |ws| - 1;
      Untouched(h, ws[..l], lo, hi);
      SpliceOutside(Apply(h, ws[..l]), ws[l].at, ws[l].bytes, lo, hi);
    }
  }

  lemma {:induction false} Written(h: seq<Byte>, ws: seq<Write>, k: nat)
    requires (forall j :: 0 <= j < |ws| ==> Fits(ws[j], |h|)) && k < |ws|
    requires forall j :: k < j < |ws| ==> Avoids(ws[j], ws[k].at, ws[k].at + |ws[k].bytes|)
    ensures Apply(h, ws)[ws[k].at..ws[k].at + |ws[k].bytes|] == ws[k].bytes
  {
    var l := |ws| - 1;
    var was := Apply(h, ws[..l]);
    if k < l {
      Written(h, ws[..l], k);
      SpliceOutside(was, ws[l].at, ws[l].bytes, ws[k].at, ws[k].at + |ws[k].bytes|);
    }
  }

  /** A string of the source, with its null. */
  function Str(s: seq<Byte>): (r: seq<Byte>) {
    s + [0]
  }

  /** The int as the unsigned conversion sees it. */
  function Unsigned(size: Int32): (v: nat)
    ensures v < WORD
  {
    if size < 0 then size + WORD else size
  }

  /** The writes of ustar_make_header for a stripped name, in order, but for the checksum. */
  function FieldWrite(n: Name, t: Byte, size: Int32, k: nat): (w: Write)
    requires k < 11
  {
    match k
    case 0 => Write(0, Str(n))
    case 1 => Write(100, Str(Octal(if t == REGULAR then 420 else 493, 7)))     // 0644 or 0755
    case 2 => Write(108, Str(Octal(0, 7)))
    case 3 => Write(116, Str(Octal(0, 7)))
    case 4 => Write(124, Str(Octal(Unsigned(size), 11)))
    case 5 => Write(136, Str(Octal(1136102400, 11)))
    case 6 => Write(156, [t])
    case 7 => Write(257, Str(USTAR))
    case 8 => Write(263, [CH_0, CH_0])
    case 9 => Write(297, Str(ROOT))
    case _ => Write(265, Str(ROOT))
  }

  const USTAR: seq<Byte> := [117, 115, 116, 97, 114]
  const ROOT: seq<Byte> := [114, 111, 111, 116]

  function FieldWrites(n: Name, t: Byte, size: Int32): (ws: seq<Write>)
    ensures |ws| == 11
  {
    seq(11, k requires 0 <= k < 11 => FieldWrite(n, t, size, k))
  }

  lemma FieldsFit(n: Name, t: Byte, size: Int32)
    requires |n| <= 99
    ensures forall k :: 0 <= k < 11 ==> Fits(FieldWrites(n, t, size)[k], HEADER)
  {
  }

  function Blank(): (h: seq<Byte>)
    ensures |h| == HEADER
  {
    seq(HEADER, _ => 0)
  }

  /** The header before its checksum is filled in. */
  function Draft(n: Name, t: Byte, size: Int32): (h: seq<Byte>)
    requires |n| <= 99
    ensures |h| == HEADER
  {
    FieldsFit(n, t, size);
    Apply(Blank(), FieldWrites(n, t, size))
  }

  /** The finished header. */
  function Header(n: Name, t: Byte, size: Int32): (h: seq<Byte>)
    requires |n| <= 99
    ensures |h| == HEADER
  {
    Splice(Draft(n, t, size), CHKSUM, Str(Octal(SumTo(Draft(n, t, size), HEADER), 7)))
  }

  /** The bytes of field `k` in the finished header. */
  lemma FieldBytes(n: Name, t: Byte, size: Int32, k: nat)
    requires |n| <= 99 && k < 11
    ensures var w := FieldWrite(n, t, size, k); Fits(w, HEADER) && Header(n, t, size)[w.at..w.at + |w.bytes|] == w.bytes
  {
    hide Octal, SumTo, Apply;
    FieldsFit(n, t, size);
    OctalLengths();
    var w, ws := FieldWrite(n, t, size, k), FieldWrites(n, t, size);
    assert ws[k] == w;
    LaterFields(n, t, size, k);
    Written(Blank(), ws, k);
    SpliceOutside(Draft(n, t, size), CHKSUM, Str(Octal(SumTo(Draft(n, t, size), HEADER), 7)), w.at, w.at + |w.bytes|);
  }

  lemma OctalLengths()
    ensures forall v: nat, n: nat :: |Octal(v, n)| == n
  {
  }

  /** No field overlaps a later one, nor the checksum. */
  lemma LaterFields(n: Name, t: Byte, size: Int32, k: nat)
    requires |n| <= 99 && k < 11
    ensures var w := FieldWrite(n, t, size, k);
            && Avoids(w, CHKSUM, CHKSUM + 8)
            && forall j: nat :: k < j < 11 ==> Avoids(FieldWrite(n, t, size, j), w.at, w.at + |w.bytes|)
  {
    hide Octal;
    OctalLengths();
  }

  /** Bytes that no field writes are zero. */
  lemma ZeroBytes(n: Name, t: Byte, size: Int32, lo: nat, hi: nat)
    requires |n| <= 99 && lo <= hi <= HEADER && (hi <= CHKSUM || CHKSUM + 8 <= lo)
    requires forall k: nat :: k < 11 ==> Avoids(FieldWrite(n, t, size, k), lo, hi)
    ensures forall i :: lo <= i < hi ==> Header(n, t, size)[i] == 0
  {
    hide Octal, SumTo, Apply;
    FieldsFit(n, t, size);
    OctalLengths();
    Untouched(Blank(), FieldWrites(n, t, size), lo, hi);
    SpliceOutside(Draft(n, t, size), CHKSUM, Str(Octal(SumTo(Draft(n, t, size), HEADER), 7)), lo, hi);
    forall i | lo <= i < hi ensures Header(n, t, size)[i] == 0 {
      assert Header(n, t, size)[lo..hi][i - lo] == Blank()[lo..hi][i - lo];
    }
  }

  lemma Powers()
    ensures Pow8(7) == 2097152 && Pow8(11) == 8589934592
  {
    assert Pow8(2) == 64 && Pow8(4) == 8 * Pow8(3) && Pow8(3) == 512;
    assert Pow8(7) == 8 * Pow8(6) && Pow8(6) == 8 * Pow8(5) && Pow8(5) == 8 * Pow8(4);
    assert Pow8(11) == 8 * Pow8(10) && Pow8(10) == 8 * Pow8(9) && Pow8(9) == 8 * Pow8(8) && Pow8(8) == 8 * Pow8(7);
  }

  /** snprintf: at most `size` - 1 characters of the output, and a null. */
  function Snprintf(out: seq<Byte>, size: nat): (r: seq<Byte>)
    requires size > 0
  {
    (if |out| < size then out else out[..size - 1]) + [0]
  }

  /** snprintf of "%0No" into a field of N + 1 bytes. */
  method PrintOctal(v: nat, n: nat) returns (bytes: seq<Byte>)
    requires 0 < n <= 11 && v < Pow8(n) && v < WORD
    ensures bytes == Str(Octal(v, n))
  {
    var out := FormatInteger(v, false, false, Oct, ZeroPadded(n));
    ZeroPaddedOctal(v, n);
    bytes := Snprintf(out, n + 1);
  }

  /** Stores bytes into the header. */
  method Put(header: array<Byte>, ghost ws: seq<Write>, at: nat, bytes: seq<Byte>) returns (ghost ws': seq<Write>)
    requires header.Length == HEADER && at + |bytes| <= HEADER && (forall k :: 0 <= k < |ws| ==> Fits(ws[k], HEADER))
             && header[..] == Apply(Blank(), ws)
    modifies header
    ensures ws' == ws + [Write(at, bytes)] && (forall k :: 0 <= k < |ws'| ==> Fits(ws'[k], HEADER))
            && header[..] == Apply(Blank(), ws')
  {
    ghost var was := header[..];
    forall k | 0 <= k < |bytes| { header[at + k] := bytes[k]; }
    assert header[..] == Splice(was, at, bytes);
    ws' := ws + [Write(at, bytes)];
    assert ws'[..|ws|] == ws;
  }

  /** The first fields of ustar_make_header: name, mode, owner, group, size and time. */
  method FillInNumbers(n: Name, t: Byte, size: Int32, header: array<Byte>) returns (ghost ws: seq<Write>)
    requires header.Length == HEADER && |n| <= 99 && (t == REGULAR || t == DIRECTORY)
    modifies header
    ensures ws == FieldWrites(n, t, size)[..6] && (forall k :: 0 <= k < |ws| ==> Fits(ws[k], HEADER))
            && header[..] == Apply(Blank(), ws)
  {
    hide Apply, Octal, Pow8, Blank;
    Powers();
    OctalLengths();
    ZeroOctal();
    forall i | 0 <= i < header.Length { header[i] := 0; }
    ws := [];
    StartBlank(header[..]);
    ws := Put(header, ws, 0, Str(n));
    var mode := PrintOctal(if t == REGULAR then 420 else 493, 7);
    ws := Put(header, ws, 100, mode);
    ws := Put(header, ws, 108, Str(Copies(CH_0, 7)));
    ws := Put(header, ws, 116, Str(Copies(CH_0, 7)));
    var length := PrintOctal(Unsigned(size), 11);
    ws := Put(header, ws, 124, length);
    var mtime := PrintOctal(1136102400, 11);
    ws := Put(header, ws, 136, mtime);
    assert ws == FieldWrites(n, t, size)[..6];
  }

  /** ustar_make_header, from the checked name on: every field but the checksum. */
  method FillIn(n: Name, t: Byte, size: Int32, header: array<Byte>)
    requires header.Length == HEADER && |n| <= 99 && (t == REGULAR || t == DIRECTORY)
    modifies header
    ensures header[..] == Draft(n, t, size)
  {
    hide Apply, Octal, Pow8, Blank;
    ghost var ws := FillInNumbers(n, t, size, header);
    ws := Put(header, ws, 156, [t]);
    ws := Put(header, ws, 257, Str(USTAR));
    ws := Put(header, ws, 263, [CH_0, CH_0]);
    ws := Put(header, ws, 297, Str(ROOT));
    ws := Put(header, ws, 265, Str(ROOT));
    assert ws == FieldWrites(n, t, size);
  }

  lemma StartBlank(h: seq<Byte>)
    requires |h| == HEADER && forall i :: 0 <= i < HEADER ==> h[i] == 0
    ensures h == Apply(Blank(), [])
  {
  }

  lemma ZeroOctal()
    ensures Octal(0, 7) == Copies(CH_0, 7)
  {
    PaddedDigits(0, 7, 0);
    assert Reversed(0, Oct, false, 0) == [];
    assert Copies(CH_0, 7) + Backwards([]) == Copies(CH_0, 7);
  }

  /** ustar_make_header: fails exactly for a stripped name of more than 99 characters. */
  method MakeHeader(name: Name, t: Byte, size: Int32, header: array<Byte>) returns (ok: bool)
    requires header.Length == HEADER && (t == REGULAR || t == DIRECTORY)
    modifies header
    ensures ok <==> |Strip(name)| <= 99
    ensures ok ==> header[..] == Header(Strip(name), t, size)
    ensures !ok ==> header[..] == old(header[..])
  {
    hide Draft, SumTo, Octal, Pow8;
    var n := StripAntisocialPrefixes(name);
    if |n| > 99 { return false; }
    FillIn(n, t, size, header);
    var chksum := CalculateChksum(header[..]);
    SumBound(header[..]);
    Powers();
    OctalLengths();
    var bytes := PrintOctal(chksum, 7);
    ghost var was := header[..];
    forall k | 0 <= k < 8 { header[CHKSUM + k] := bytes[k]; }
    assert header[..] == Splice(was, CHKSUM, bytes);
    ok := true;
  }

  lemma SumBound(h: seq<Byte>)
    requires |h| == HEADER
    ensures SumTo(h, HEADER) <= 130560
  {
  }

  // ---- Reading a header ---------------------------------------------------------------------------------------------

  datatype Error =
    | NotUstar | BadVersion | CorruptChksum | ChksumMismatch | NameTooLong | BadType | CorruptSize | TooLarge

  datatype Parsed = Eof | Fail(error: Error) | Entry(name: Name, t: Byte, size: int)

  /** ustar_parse_header. */
  function ParseHeader(h: seq<Byte>): (r: Parsed)
    requires |h| == HEADER
  {
    if h == Blank() then Eof
    else if h[257..263] != Str(USTAR) then Fail(NotUstar)
    else if h[263] != CH_0 || h[264] != CH_0 then Fail(BadVersion)
    else if FieldValue(h[CHKSUM..CHKSUM + 8]).None? then Fail(CorruptChksum)
    else if FieldValue(h[CHKSUM..CHKSUM + 8]).value != SumTo(h, HEADER) then Fail(ChksumMismatch)
    else if h[99] != 0 || h[345] != 0 then Fail(NameTooLong)
    else if h[156] != REGULAR && h[156] != DIRECTORY then Fail(BadType)
    else if h[156] == DIRECTORY then Entry(Strip(CStr(h[0..100])), DIRECTORY, 0)
    else if FieldValue(h[124..136]).None? then Fail(CorruptSize)
    else if FieldValue(h[124..136]).value > INT_MAX then Fail(TooLarge)
    else Entry(Strip(CStr(h[0..100])), REGULAR, FieldValue(h[124..136]).value)
  }

  /** A name that fits a header and does not start at the root, at "./" or at "../", and a size that fits an int. */
  predicate Harmless(r: Parsed) {
    r.Entry? ==>
      && r.name != [] && 0 !in r.name && |r.name| <= 99 && r.name != [CH_DOT, CH_DOT]
      && (forall p :: p in PREFIXES ==> !Starts(r.name, p))
      && (r.t == REGULAR || r.t == DIRECTORY) && 0 <= r.size <= INT_MAX && (r.t == DIRECTORY ==> r.size == 0)
  }

  /** Whatever the 512 bytes are, an entry read from them is harmless. */
  lemma EntryIsHarmless(h: seq<Byte>)
    requires |h| == HEADER
    ensures Harmless(ParseHeader(h))
  {
    hide SumTo, Strip, CStr, Blank;
    if ParseHeader(h).Entry? {
      assert h[0..100][99] == h[99];
      CStrFacts(h[0..100], 99);
      StripFacts(CStr(h[0..100]));
      StripShorter(CStr(h[0..100]));
      AntisocialMeans(ParseHeader(h).name);
      PrefixValue(h[124..136], 0, Digits(h[124..136]));
    }
  }

  lemma StripShorter(n: Name)
    ensures |Strip(n)| <= |n| || Strip(n) == [CH_DOT]
  {
    hide Strip;
    StripFacts(n);
  }

  method IsAllZeros(block: seq<Byte>) returns (r: bool)
    ensures r <==> forall i :: 0 <= i < |block| ==> block[i] == 0
  {
    for i := 0 to |block|
      invariant forall j :: 0 <= j < i ==> block[j] == 0
    {
      if block[i] != 0 { return false; }
    }
    return true;
  }

  method ReadHeader(h: seq<Byte>) returns (r: Parsed)
    requires |h| == HEADER
    ensures r == ParseHeader(h) && Harmless(r)
  {
    hide SumTo, FieldValue, Strip, CStr, Harmless;
    EntryIsHarmless(h);
    var empty := IsAllZeros(h);
    assert empty <==> h == Blank();
    if empty { return Eof; }
    if h[257..263] != Str(USTAR) { return Fail(NotUstar); }
    if h[263] != CH_0 || h[264] != CH_0 { return Fail(BadVersion); }
    var chksum := ParseOctalField(h[CHKSUM..CHKSUM + 8]);
    if chksum.None? { return Fail(CorruptChksum); }
    var sum := CalculateChksum(h);
    if chksum.value != sum { return Fail(ChksumMismatch); }
    if h[99] != 0 || h[345] != 0 { return Fail(NameTooLong); }
    if h[156] != REGULAR && h[156] != DIRECTORY { return Fail(BadType); }
    var size := 0;
    if h[156] == REGULAR {
      var field := ParseOctalField(h[124..136]);
      if field.None? { return Fail(CorruptSize); }
      if field.value > INT_MAX { return Fail(TooLarge); }
      size := field.value;
    }
    var name := StripAntisocialPrefixes(CStr(h[0..100]));
    r := Entry(name, h[156], size);
  }

  // ---- The round trip -----------------------------------------------------------------------------------------------

  lemma HeaderChksum(n: Name, t: Byte, size: Int32)
    requires |n| <= 99
    ensures var h := Header(n, t, size); FieldValue(h[CHKSUM..CHKSUM + 8]) == Some(SumTo(h, HEADER))
  {
    hide Draft, SumTo, FieldValue, Octal, Pow8;
    var d, h := Draft(n, t, size), Header(n, t, size);
    var sum := SumTo(d, HEADER);
    SumBound(d);
    Powers();
    OctalLengths();
    OctalField(sum, 7);
    SumSame(h, d, HEADER);
    assert h[CHKSUM..CHKSUM + 8] == Str(Octal(sum, 7));
  }

  lemma HeaderName(n: Name, t: Byte, size: Int32)
    requires |n| <= 99 && 0 !in n && (t == REGULAR || t == DIRECTORY)
    ensures var h := Header(n, t, size); CStr(h[0..100]) == n && h[99] == 0 && h[345] == 0
  {
    hide Header, Octal, CStr;
    var h := Header(n, t, size);
    OctalLengths();
    FieldBytes(n, t, size, 0);
    assert h[0..|n| + 1] == n + [0];
    assert h[0..100] == n + [0] + h[|n| + 1..100];
    CStrOf(n, h[|n| + 1..100]);
    if |n| == 99 { assert h[99] == (n + [0])[99]; } else { ZeroBytes(n, t, size, |n| + 1, 100); }
    ZeroBytes(n, t, size, 345, 346);
  }

  /** Parsing undoes making: the stripped name, the type, and the size (0 for a directory). The one exception is
      a regular file of negative size. */
  lemma RoundTrip(name: Name, t: Byte, size: Int32)
    requires 0 !in name && |Strip(name)| <= 99 && (t == REGULAR || t == DIRECTORY)
    ensures var r := ParseHeader(Header(Strip(name), t, size));
            && (r == Entry(Strip(name), t, if t == REGULAR then size else 0) <==> t == DIRECTORY || size >= 0)
            && (t == REGULAR && size < 0 ==> r == Fail(TooLarge))
  {
    hide Header, SumTo, FieldValue, Octal, Strip, CStr, Pow8;
    var n := Strip(name);
    var h := Header(n, t, size);
    StripFacts(name);
    OctalLengths();
    Powers();
    HeaderChksum(n, t, size);
    HeaderName(n, t, size);
    FieldBytes(n, t, size, 4);
    FieldBytes(n, t, size, 6);
    FieldBytes(n, t, size, 7);
    FieldBytes(n, t, size, 8);
    OctalField(Unsigned(size), 11);
    assert h[257..263] == Str(USTAR) && h[257..263][0] == 117;
    assert h[263] == h[263..265][0] && h[264] == h[263..265][1];
    assert h[156] == h[156..157][0] == t;
  }

  /** Any header that is accepted says the same as the header made for what was read from it. */
  lemma AcceptedIsMade(h: seq<Byte>)
    requires |h| == HEADER && ParseHeader(h).Entry?
    ensures var r := ParseHeader(h);
            |r.name| <= 99 && (r.t == REGULAR || r.t == DIRECTORY) && r.size <= INT_MAX && r.size >= 0
            && ParseHeader(Header(r.name, r.t, r.size)) == r
  {
    hide Header, SumTo, FieldValue, CStr, ParseHeader;
    var r := ParseHeader(h);
    EntryIsHarmless(h);
    assert Strip(r.name) == r.name;
    RoundTrip(r.name, r.t, r.size);
  }

  // ---- Damage -------------------------------------------------------------------------------------------------------

  lemma {:induction false} SumChanged(h: seq<Byte>, i: nat, b: Byte, n: nat)
    requires n <= |h| && i < |h| && !(CHKSUM <= i < CHKSUM + 8)
    ensures SumTo(h[i := b], n) == SumTo(h, n) + if i < n then b - h[i] else 0
  {
    if n > 0 { SumChanged(h, i, b, n - 1); }
  }

  /** A header that is accepted is refused once any one byte outside the checksum is changed. */
  lemma DamageIsSeen(h: seq<Byte>, i: nat, b: Byte)
    requires |h| == HEADER && ParseHeader(h).Entry? && i < HEADER && !(CHKSUM <= i < CHKSUM + 8) && b != h[i]
    ensures ParseHeader(h[i := b]).Fail?
  {
    hide SumTo, Strip, CStr, Blank;
    var g := h[i := b];
    SumChanged(h, i, b, HEADER);
    assert g[CHKSUM..CHKSUM + 8] == h[CHKSUM..CHKSUM + 8];
    NotBlank(g);
  }

  lemma NotBlank(h: seq<Byte>)
    requires |h| == HEADER && FieldValue(h[CHKSUM..CHKSUM + 8]).Some?
    ensures h != Blank()
  {
    var f := h[CHKSUM..CHKSUM + 8];
    assert f[0] == h[CHKSUM];
  }

  // ---- The fields of the struct -------------------------------------------------------------------------------------

  /** The sizes of the members of struct ustar_header. */
  const LAYOUT: seq<nat> := [100, 8, 8, 8, 12, 12, 8, 1, 100, 6, 2, 32, 32, 8, 8, 155, 12]

  function Offset(i: nat): (n: nat)
    requires i <= 17
  {
    if i == 0 then 0 else Offset(i - 1) + LAYOUT[i - 1]
  }

  lemma Offsets()
    ensures Offset(0) == 0 && Offset(1) == 100 && Offset(2) == 108 && Offset(3) == 116 && Offset(4) == 124
    ensures Offset(5) == 136 && Offset(6) == CHKSUM && Offset(7) == 156 && Offset(8) == 157 && Offset(9) == 257
    ensures Offset(10) == 263 && Offset(11) == 265 && Offset(12) == 297 && Offset(13) == 329 && Offset(14) == 337
    ensures Offset(15) == 345 && Offset(16) == 500 && Offset(17) == HEADER
  {
    assert Offset(1) == Offset(0) + 100 && Offset(2) == Offset(1) + 8 && Offset(3) == Offset(2) + 8;
    assert Offset(4) == Offset(3) + 8 && Offset(5) == Offset(4) + 12 && Offset(6) == Offset(5) + 12;
    assert Offset(7) == Offset(6) + 8 && Offset(8) == Offset(7) + 1 && Offset(9) == Offset(8) + 100;
    assert Offset(10) == Offset(9) + 6 && Offset(11) == Offset(10) + 2 && Offset(12) == Offset(11) + 32;
    assert Offset(13) == Offset(12) + 32 && Offset(14) == Offset(13) + 8 && Offset(15) == Offset(14) + 8;
    assert Offset(16) == Offset(15) + 155 && Offset(17) == Offset(16) + 12;
  }

  /** The bytes of a member: 0 name, 1 mode, 2 uid, 3 gid, 4 size, 5 mtime, 6 chksum, 7 typeflag, 8 linkname, 9 magic,
      10 version, 11 uname, 12 gname, 13 devmajor, 14 devminor, 15 prefix, 16 padding. */
  ghost function Member(h: seq<Byte>, i: nat): (f: seq<Byte>)
    requires |h| == HEADER && i < 17
  {
    Offsets();
    h[Offset(i)..Offset(i) + LAYOUT[i]]
  }

  lemma Members(h: seq<Byte>)
    requires |h| == HEADER
    ensures Member(h, 0) == h[0..100] && Member(h, 1) == h[100..108] && Member(h, 2) == h[108..116]
    ensures Member(h, 3) == h[116..124] && Member(h, 4) == h[124..136] && Member(h, 5) == h[136..148]
    ensures Member(h, 6) == h[148..156] && Member(h, 7) == h[156..157] == [h[156]] && Member(h, 8) == h[157..257]
    ensures Member(h, 9) == h[257..263] && Member(h, 10) == h[263..265] == [h[263], h[264]]
    ensures Member(h, 11) == h[265..297] && Member(h, 12) == h[297..329] && Member(h, 13) == h[329..337]
    ensures Member(h, 14) == h[337..345] && Member(h, 15) == h[345..500] && Member(h, 16) == h[500..512]
  {
    hide Offset;
    Offsets();
  }

  /** The numbers in a made header: permissions 0644 or 0755, owner and group 0, size, a fixed time, checksum. */
  lemma HeaderNumbers(n: Name, t: Byte, size: Int32)
    requires |n| <= 99 && (t == REGULAR || t == DIRECTORY)
    ensures var h := Header(n, t, size);
            && FieldValue(Member(h, 1)) == Some(6 * 64 + if t == REGULAR then 4 * 8 + 4 else 1 * 64 + 5 * 8 + 5)
            && FieldValue(Member(h, 2)) == Some(0) && FieldValue(Member(h, 3)) == Some(0)
            && FieldValue(Member(h, 4)) == Some(Unsigned(size)) && FieldValue(Member(h, 5)) == Some(1136102400)
            && FieldValue(Member(h, 6)) == Some(SumTo(h, HEADER))
  {
    hide Header, SumTo, FieldValue, Octal, Pow8, Member;
    Members(Header(n, t, size));
    OctalLengths();
    Powers();
    FieldBytes(n, t, size, 1);
    FieldBytes(n, t, size, 2);
    FieldBytes(n, t, size, 3);
    FieldBytes(n, t, size, 4);
    FieldBytes(n, t, size, 5);
    OctalField(if t == REGULAR then 420 else 493, 7);
    OctalField(0, 7);
    OctalField(Unsigned(size), 11);
    OctalField(1136102400, 11);
    HeaderChksum(n, t, size);
  }

  /** The strings in it: name, type, "ustar", "00", owner and group "root", and nothing in the others. */
  lemma HeaderStrings(n: Name, t: Byte, size: Int32)
    requires |n| <= 99 && 0 !in n && (t == REGULAR || t == DIRECTORY)
    ensures var h := Header(n, t, size);
            && CStr(Member(h, 0)) == n && Member(h, 7) == [t] && Member(h, 9) == [117, 115, 116, 97, 114, 0]
            && Member(h, 10) == [48, 48] && CStr(Member(h, 11)) == CStr(Member(h, 12)) == [114, 111, 111, 116]
            && forall i :: i in {8, 13, 14, 15, 16} ==> forall k :: 0 <= k < LAYOUT[i] ==> Member(h, i)[k] == 0
  {
    hide Header, Octal, CStr, Member;
    var h := Header(n, t, size);
    Members(h);
    OctalLengths();
    HeaderName(n, t, size);
    FieldBytes(n, t, size, 6);
    FieldBytes(n, t, size, 7);
    FieldBytes(n, t, size, 8);
    FieldBytes(n, t, size, 9);
    FieldBytes(n, t, size, 10);
    assert Member(h, 11)[..5] == h[265..270] && Member(h, 12)[..5] == h[297..302];
    RootName(Member(h, 11));
    RootName(Member(h, 12));
    ZeroBytes(n, t, size, 157, 257);
    ZeroBytes(n, t, size, 329, 512);
  }

  lemma RootName(f: seq<Byte>)
    requires |f| == 32 && f[..5] == Str(ROOT)
    ensures CStr(f) == ROOT
  {
    assert f == ROOT + [0] + f[5..];
    CStrOf(ROOT, f[5..]);
  }

  /** What is accepted, by the members of the struct: magic, version, checksum, a name with its null and no prefix, and
      a known type, with a size that fits for a regular file. */
  lemma AcceptedHeaders(h: seq<Byte>)
    requires |h| == HEADER
    ensures ParseHeader(h).Entry? <==>
              && Member(h, 9) == [117, 115, 116, 97, 114, 0] && Member(h, 10) == [48, 48]
              && FieldValue(Member(h, 6)) == Some(SumTo(h, HEADER)) && Member(h, 0)[99] == 0 && Member(h, 15)[0] == 0
              && (Member(h, 7) == [48] || Member(h, 7) == [53])
              && (Member(h, 7) == [48] ==>
                   FieldValue(Member(h, 4)).Some?
                   && FieldValue(Member(h, 4)).value < 0x8000_0000)
    ensures ParseHeader(h).Entry? ==>
              && ParseHeader(h).name == Strip(CStr(Member(h, 0))) && Member(h, 7) == [ParseHeader(h).t]
              && ParseHeader(h).size == if Member(h, 7) == [48] then FieldValue(Member(h, 4)).value else 0
    ensures ParseHeader(h) == Eof <==> forall i :: 0 <= i < HEADER ==> h[i] == 0
  {
    hide SumTo, FieldValue, Strip, CStr, Member;
    Members(h);
    assert Member(h, 9)[0] == h[257];
    assert h == Blank() <==> forall i :: 0 <= i < HEADER ==> h[i] == 0;
  }
}
