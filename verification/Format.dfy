/** Integer conversions of printf (lib/stdio.c). Characters are bytes. */
module Format {
  import opened Disk

  const CH_0: Byte := 48
  const CH_SPACE: Byte := 32
  const CH_COMMA: Byte := 44
  const CH_PLUS: Byte := 43
  const CH_MINUS: Byte := 45
  const MAX64: nat := 0x1_0000_0000_0000_0000

  datatype Base = Dec | Oct | HexLower | HexUpper {
    function Radix(): (n: nat)
      ensures 8 <= n <= 16
    {
      match this
      case Dec => 10
      case Oct => 8
      case HexLower => 16
      case HexUpper => 16
    }

    function Group(): (n: nat)
      ensures n > 0
    {
      if HexLower? || HexUpper? then 4 else 3
    }

    /** The `x' of a hexadecimal prefix; 0 if there is none. */
    function X(): (c: Byte) {
      if HexLower? then 120 else if HexUpper? then 88 else 0
    }

    function Digit(d: nat): (c: Byte)
      requires d < Radix()
    {
      if d < 10 then CH_0 + d else if HexLower? then 97 + d - 10 else 65 + d - 10
    }
  }

  /** A conversion, as parse_conversion leaves it: ZERO is off when MINUS is on or a precision is given, and SPACE
      is off when PLUS is on. A precision of -1 is none. */
  datatype Conversion = Conversion(minus: bool, plus: bool, space: bool, pound: bool, zero: bool, grouped: bool,
                                   width: nat, precision: int)

  /** A character or nothing. */
  function Opt(c: Byte): (s: seq<Byte>) {
    if c == 0 then [] else [c]
  }

  function Copies(c: Byte, n: nat): (s: seq<Byte>)
    ensures |s| == n
  {
    seq(n, _ => c)
  }

  function Sign(c: Conversion, signed: bool, negative: bool): (s: Byte) {
    if !signed then 0
    else if c.plus then (if negative then CH_MINUS else CH_PLUS)
    else if c.space then (if negative then CH_MINUS else CH_SPACE)
    else if negative then CH_MINUS else 0
  }

  /** The digits of a value, the last one first, with a comma before every group after the first; `cnt` digits
      have gone before. */
  function Reversed(v: nat, b: Base, grouped: bool, cnt: nat): (s: seq<Byte>) {
    if v == 0 then []
    else (if grouped && cnt > 0 && cnt % b.Group() == 0 then [CH_COMMA] else []) + [b.Digit(v % b.Radix())]
         + Reversed(v / b.Radix(), b, grouped, cnt + 1)
  }

  /** The rendered number, last character first: digits, zeros up to the precision (within the 64-byte buffer),
      and the extra zero of "%#o". */
  function Rendered(v: nat, b: Base, c: Conversion): (s: seq<Byte>) {
    var digits := Reversed(v, b, c.grouped, 0);
    var precision := if c.precision < 0 then 1 else c.precision;
    var want := if precision < 63 then precision else 63;
    var padded := if |digits| < want then digits + Copies(CH_0, want - |digits|) else digits;
    if c.pound && b.Oct? && (padded == [] || padded[|padded| - 1] != CH_0) then padded + [CH_0] else padded
  }

  function Backwards(s: seq<Byte>): (r: seq<Byte>)
    ensures |r| == |s|
  {
    if s == [] then [] else [s[|s| - 1]] + Backwards(s[..|s| - 1])
  }

  /** The conversion's output. */
  function Output(v: nat, signed: bool, negative: bool, b: Base, c: Conversion): (s: seq<Byte>) {
    var sign := Opt(Sign(c, signed, negative));
    var x := if c.pound && v > 0 && b.X() != 0 then [CH_0, b.X()] else [];
    var number := Backwards(Rendered(v, b, c));
    var room := c.width - |number| - |x| - |sign|;
    Assemble(c, if room < 0 then 0 else room, sign, x, number)
  }

  /** The order of output: padding on one side, sign, prefix, number. */
  function Assemble(c: Conversion, pad: nat, sign: seq<Byte>, x: seq<Byte>, number: seq<Byte>): (s: seq<Byte>) {
    (if !c.minus && !c.zero then Copies(CH_SPACE, pad) else []) + sign + x + (if c.zero then Copies(CH_0, pad) else [])
    + number + (if c.minus then Copies(CH_SPACE, pad) else [])
  }

  function Pow8(n: nat): (r: nat)
    ensures r > 0
  {
    if n == 0 then 1 else 8 * Pow8(n - 1)
  }

  /** The digits of a 64-bit value are at most 22, whatever the base. */
  lemma Quotient(v: nat, b: Base, n: nat)
    requires 0 < v < Pow8(n)
    ensures n > 0 && v / b.Radix() < Pow8(n - 1)
  {
    var r := b.Radix();
    if n > 0 {
      assert v / r <= v / 8 by {
        assert r * (v / r) <= v;
        assert 8 * (v / r) <= r * (v / r);
      }
    }
  }

  lemma Fits64(v: nat)
    requires v < MAX64
    ensures v < Pow8(22)
  {
    assert Pow8(22) == 8 * Pow8(21) && Pow8(21) == 8 * Pow8(20) && Pow8(20) == 8 * Pow8(19) && Pow8(19) == 8 * Pow8(18);
    assert Pow8(18) == 8 * Pow8(17) && Pow8(17) == 8 * Pow8(16) && Pow8(16) == 8 * Pow8(15) && Pow8(15) == 8 * Pow8(14);
    assert Pow8(14) == 8 * Pow8(13) && Pow8(13) == 8 * Pow8(12) && Pow8(12) == 8 * Pow8(11) && Pow8(11) == 8 * Pow8(10);
    assert Pow8(10) == 8 * Pow8(9) && Pow8(9) == 8 * Pow8(8) && Pow8(8) == 8 * Pow8(7) && Pow8(7) == 8 * Pow8(6);
    assert Pow8(6) == 8 * Pow8(5) && Pow8(5) == 8 * Pow8(4) && Pow8(4) == 8 * Pow8(3) && Pow8(3) == 8 * Pow8(2);
    assert Pow8(2) == 8 * Pow8(1) && Pow8(1) == 8 * Pow8(0) && Pow8(0) == 1;
  }

  /** What one turn of the digit loop adds. */
  function Turn(v: nat, b: Base, grouped: bool, cnt: nat): (s: seq<Byte>) {
    (if grouped && cnt > 0 && cnt % b.Group() == 0 then [CH_COMMA] else []) + [b.Digit(v % b.Radix())]
  }

  lemma ReversedStep(v: nat, b: Base, grouped: bool, cnt: nat, before: seq<Byte>)
    requires v > 0
    ensures before + Reversed(v, b, grouped, cnt) ==
            (before + Turn(v, b, grouped, cnt)) + Reversed(v / b.Radix(), b, grouped, cnt + 1)
  {
  }

  lemma ReversedEnd(b: Base, grouped: bool, cnt: nat, before: seq<Byte>)
    ensures before + Reversed(0, b, grouped, cnt) == before
  {
  }

  /** format_integer's first loop: digits and commas go into the buffer, and the buffer is never too short. */
  method PutDigits(buf: array<Byte>, value: nat, b: Base, c: Conversion) returns (cp: nat)
    requires buf.Length == 64 && value < MAX64
    modifies buf
    ensures cp <= 44 && buf[..cp] == Reversed(value, b, c.grouped, 0)
  {
    hide Reversed, Pow8, Turn;
    Fits64(value);
    cp := 0;
    var v: nat, digitCnt := value, 0;
    assert buf[..cp] + Reversed(v, b, c.grouped, digitCnt) == Reversed(v, b, c.grouped, digitCnt);
    while v > 0
      invariant digitCnt <= 22 && v < Pow8(22 - digitCnt) && cp <= 2 * digitCnt
      invariant Reversed(value, b, c.grouped, 0) == buf[..cp] + Reversed(v, b, c.grouped, digitCnt)
      decreases v
    {
      Quotient(v, b, 22 - digitCnt);
      ReversedStep(v, b, c.grouped, digitCnt, buf[..cp]);
      cp := PutTurn(buf, cp, v, b, c, digitCnt);
      v := v / b.Radix();
      digitCnt := digitCnt + 1;
    }
    ReversedEnd(b, c.grouped, digitCnt, buf[..cp]);
  }

  method PutTurn(buf: array<Byte>, at: nat, v: nat, b: Base, c: Conversion, digitCnt: nat) returns (cp: nat)
    requires at + 2 <= buf.Length
    modifies buf
    ensures at < cp <= at + 2 && buf[..cp] == old(buf[..at]) + Turn(v, b, c.grouped, digitCnt)
  {
    cp := at;
    if c.grouped && digitCnt > 0 && digitCnt % b.Group() == 0 {
      buf[cp] := CH_COMMA;
      cp := cp + 1;
    }
    buf[cp] := b.Digit(v % b.Radix());
    cp := cp + 1;
  }

  /** The digits, the zeros of the precision and the zero of "%#o" in the buffer. */
  method PutNumber(buf: array<Byte>, value: nat, b: Base, c: Conversion) returns (cp: nat)
    requires buf.Length == 64 && value < MAX64
    modifies buf
    ensures cp <= 64 && buf[..cp] == Rendered(value, b, c)
  {
    hide Reversed;
    cp := PutDigits(buf, value, b, c);
    ghost var digits := buf[..cp];
    var precision := if c.precision < 0 then 1 else c.precision;
    while cp < precision && cp < 63
      invariant |digits| <= cp <= 63 && (cp > |digits| ==> cp <= precision)
      invariant buf[..cp] == digits + Copies(CH_0, cp - |digits|)
    {
      buf[cp] := CH_0;
      cp := cp + 1;
    }
    ghost var want := if precision < 63 then precision else 63;
    assert buf[..cp] == if |digits| < want then digits + Copies(CH_0, want - |digits|) else digits;
    if c.pound && b.Radix() == 8 && (cp == 0 || buf[cp - 1] != CH_0) {
      buf[cp] := CH_0;
      cp := cp + 1;
    }
  }

  /** The last loop: the buffer's contents, the other way round. */
  method Emit(buf: array<Byte>, cp: nat) returns (out: seq<Byte>)
    requires cp <= buf.Length
    ensures out == Backwards(buf[..cp])
  {
    out := [];
    var left: nat := cp;
    while left > 0
      invariant left <= cp && Backwards(buf[..cp]) == out + Backwards(buf[..left])
    {
      left := left - 1;
      assert buf[..left + 1][..left] == buf[..left];
      out := out + [buf[left]];
    }
  }

  /** format_integer. */
  method FormatInteger(value: nat, signed: bool, negative: bool, b: Base, c: Conversion) returns (out: seq<Byte>)
    requires value < MAX64
    ensures out == Output(value, signed, negative, b, c)
  {
    hide Rendered, Backwards, Sign, Assemble;
    var buf := new Byte[64];
    var sign := Sign(c, signed, negative);
    var x := if c.pound && value != 0 then b.X() else 0;
    var cp := PutNumber(buf, value, b, c);
    var padCnt := c.width - cp - (if x != 0 then 2 else 0) - (if sign != 0 then 1 else 0);
    if padCnt < 0 { padCnt := 0; }
    var number := Emit(buf, cp);
    BackwardsLength(buf[..cp]);
    out := Assemble(c, padCnt, Opt(sign), if x != 0 then [CH_0, x] else [], number);
  }

  lemma BackwardsLength(s: seq<Byte>)
    ensures |Backwards(s)| == |s|
  {
  }

  // ---- What the digits mean -----------------------------------------------------------------------------------------

  lemma {:induction false} BackwardsCons(d: Byte, t: seq<Byte>)
    ensures Backwards([d] + t) == Backwards(t) + [d]
  {
    if t != [] {
      var l := |t| - 1;
      assert ([d] + t)[..l + 1] == [d] + t[..l];
      BackwardsCons(d, t[..l]);
    }
  }

  /** `n` octal digits. */
  function Octal(v: nat, n: nat): (s: seq<Byte>)
    ensures |s| == n
  {
    if n == 0 then [] else Octal(v / 8, n - 1) + [CH_0 + v % 8]
  }

  /** The value that octal digits stand for. */
  function OctalValue(s: seq<Byte>): (v: int) {
    if s == [] then 0 else 8 * OctalValue(s[..|s| - 1]) + (s[|s| - 1] - CH_0)
  }

  /** Octal digits read back as the value. */
  lemma {:induction false} OctalBack(v: nat, n: nat)
    requires v < Pow8(n)
    ensures OctalValue(Octal(v, n)) == v
  {
    if n > 0 {
      OctalBack(v / 8, n - 1);
      assert Octal(v, n)[..n - 1] == Octal(v / 8, n - 1);
    }
  }

  lemma {:induction false} OctalDigits(v: nat, n: nat)
    ensures forall i :: 0 <= i < n ==> CH_0 <= Octal(v, n)[i] <= CH_0 + 7
  {
    if n > 0 { OctalDigits(v / 8, n - 1); }
  }

  lemma {:induction false} PaddedDigits(v: nat, n: nat, cnt: nat)
    requires v < Pow8(n)
    ensures var d := Reversed(v, Oct, false, cnt); |d| <= n && Copies(CH_0, n - |d|) + Backwards(d) == Octal(v, n)
  {
    if n > 0 {
      PaddedDigits(v / 8, n - 1, cnt + 1);
      var d, e := Reversed(v, Oct, false, cnt), Reversed(v / 8, Oct, false, cnt + 1);
      if v == 0 {
        assert Copies(CH_0, n) == Copies(CH_0, n - 1) + [CH_0];
      } else {
        assert d == [CH_0 + v % 8] + e;
        BackwardsCons(CH_0 + v % 8, e);
      }
    }
  }

  /** The conversion "%0No". */
  function ZeroPadded(n: nat): (c: Conversion) {
    Conversion(false, false, false, false, true, false, n, -1)
  }

  /** "%0No" of a value that fits prints exactly N octal digits. */
  lemma ZeroPaddedOctal(v: nat, n: nat)
    requires n > 0 && v < Pow8(n)
    ensures Output(v, false, false, Oct, ZeroPadded(n)) == Octal(v, n)
  {
    hide Reversed, Backwards, Octal;
    PaddedDigits(v, n, 0);
    var r := PlainOctal(v, n);
    assert Output(v, false, false, Oct, ZeroPadded(n)) == Copies(CH_0, n - |r|) + Backwards(r);
  }

  lemma PlainOctal(v: nat, n: nat) returns (r: seq<Byte>)
    requires n > 0 && v < Pow8(n)
    ensures r == Rendered(v, Oct, ZeroPadded(n)) && |r| == |Backwards(r)| <= n
            && Copies(CH_0, n - |r|) + Backwards(r) == Octal(v, n)
  {
    PaddedDigits(v, n, 0);
    var d := Reversed(v, Oct, false, 0);
    r := Rendered(v, Oct, ZeroPadded(n));
    if v == 0 {
      assert d == [] && r == [CH_0];
      assert Backwards(r) == [CH_0] && Backwards(d) == [];
      assert Copies(CH_0, n - 1) + [CH_0] == Copies(CH_0, n) + [];
    } else {
      assert d != [] && r == d;
    }
  }

  // ---- What the whole output means ----------------------------------------------------------------------------------

  predicate IsDigit(c: Byte, b: Base) {
    CH_0 <= c < CH_0 + (if b.Oct? then 8 else 10) || (b.HexLower? && 97 <= c < 103) || (b.HexUpper? && 65 <= c < 71)
  }

  /** Reading a number from left to right, `n` being read already: characters that are no digits are passed over. */
  function Read(n: nat, s: seq<Byte>, b: Base): (v: nat)
    decreases |s|
  {
    if s == [] then n else Read(if IsDigit(s[0], b) then Weight(b) * n + DigitOf(s[0]) else n, s[1..], b)
  }

  /** How much more a digit counts than the one behind it. */
  function Weight(b: Base): (n: nat) {
    match b
    case Dec => 10
    case Oct => 8
    case HexLower => 16
    case HexUpper => 16
  }

  function DigitOf(c: Byte): (d: nat)
    requires c >= CH_0
  {
    if c >= 97 then c - 97 + 10 else if c >= 65 then c - 65 + 10 else c - CH_0
  }

  lemma {:induction false} ReadOn(n: nat, s: seq<Byte>, t: seq<Byte>, b: Base)
    ensures Read(n, s + t, b) == Read(Read(n, s, b), t, b)
    decreases |s|
  {
    if s == [] {
      assert s + t == t;
    } else {
      assert (s + t)[1..] == s[1..] + t;
      ReadOn(if IsDigit(s[0], b) then Weight(b) * n + DigitOf(s[0]) else n, s[1..], t, b);
    }
  }

  lemma {:induction false} ReadZeros(s: seq<Byte>, b: Base)
    requires forall i :: 0 <= i < |s| ==> s[i] == CH_0 || !IsDigit(s[i], b)
    ensures Read(0, s, b) == 0
  {
    if s != [] { ReadZeros(s[1..], b); }
  }

  lemma {:induction false} ReadPast(n: nat, s: seq<Byte>, b: Base)
    requires forall i :: 0 <= i < |s| ==> !IsDigit(s[i], b)
    ensures Read(n, s, b) == n
  {
    if s != [] { ReadPast(n, s[1..], b); }
  }

  lemma DigitReads(d: nat, n: nat, b: Base)
    requires d < b.Radix()
    ensures Read(n, [b.Digit(d)], b) == b.Radix() * n + d && IsDigit(b.Digit(d), b) && b.Digit(d) > CH_MINUS
  {
  }

  /** What one turn printed, the other way round: the digit, and past it a comma at most. */
  lemma TurnReads(v: nat, b: Base, grouped: bool, cnt: nat, t: seq<Byte>, q: nat)
    requires q == v / b.Radix() == Read(0, Backwards(t), b)
    ensures Read(0, Backwards(Turn(v, b, grouped, cnt) + t), b) == v
  {
    hide Read, Backwards;
    var d := b.Digit(v % b.Radix());
    BackwardsCons(d, t);
    ReadOn(0, Backwards(t), [d], b);
    DigitReads(v % b.Radix(), q, b);
    if grouped && cnt > 0 && cnt % b.Group() == 0 {
      BackwardsCons(CH_COMMA, [d] + t);
      ReadOn(0, Backwards(t) + [d], [CH_COMMA], b);
      ReadPast(v, [CH_COMMA], b);
      assert Turn(v, b, grouped, cnt) + t == [CH_COMMA] + ([d] + t);
    } else {
      assert Turn(v, b, grouped, cnt) + t == [d] + t;
    }
  }

  /** The digits, with or without commas, read as the number. */
  lemma {:induction false} DigitsRead(v: nat, b: Base, grouped: bool, cnt: nat)
    ensures Read(0, Backwards(Reversed(v, b, grouped, cnt)), b) == v
  {
    if v > 0 {
      var t := Reversed(v / b.Radix(), b, grouped, cnt + 1);
      DigitsRead(v / b.Radix(), b, grouped, cnt + 1);
      TurnReads(v, b, grouped, cnt, t, v / b.Radix());
      assert Reversed(v, b, grouped, cnt) == Turn(v, b, grouped, cnt) + t;
    }
  }

  lemma {:induction false} BackwardsZeros(s: seq<Byte>, n: nat)
    ensures Backwards(s + Copies(CH_0, n)) == Copies(CH_0, n) + Backwards(s)
  {
    if n == 0 {
      assert s + Copies(CH_0, 0) == s;
    } else {
      assert (s + Copies(CH_0, n))[..|s| + n - 1] == s + Copies(CH_0, n - 1);
      BackwardsZeros(s, n - 1);
      assert Copies(CH_0, n) == [CH_0] + Copies(CH_0, n - 1);
    }
  }

  /** A rendered number is zeros and then the digits. */
  lemma RenderedZeros(v: nat, b: Base, c: Conversion) returns (n: nat)
    ensures Rendered(v, b, c) == Reversed(v, b, c.grouped, 0) + Copies(CH_0, n)
  {
    hide Reversed;
    n := |Rendered(v, b, c)| - |Reversed(v, b, c.grouped, 0)|;
  }

  lemma NumberReads(v: nat, b: Base, c: Conversion)
    ensures Read(0, Backwards(Rendered(v, b, c)), b) == v
  {
    hide Rendered, Reversed, Backwards;
    var n := RenderedZeros(v, b, c);
    BackwardsZeros(Reversed(v, b, c.grouped, 0), n);
    ReadOn(0, Copies(CH_0, n), Backwards(Reversed(v, b, c.grouped, 0)), b);
    ReadZeros(Copies(CH_0, n), b);
    DigitsRead(v, b, c.grouped, 0);
  }

  /** Whatever the flags, the width and the precision: the output is as wide as asked, or as wide as it must be if
      that is more; it reads as the value when padding, sign, prefix and commas are passed over; and it has a minus
      sign exactly for a negative number. */
  lemma OutputMeans(v: nat, signed: bool, negative: bool, b: Base, c: Conversion)
    ensures var s := Output(v, signed, negative, b, c);
            && Read(0, s, b) == v && |s| >= c.width && (CH_MINUS in s <==> signed && negative)
            && (!(c.minus && c.zero) ==> |s| == c.width || |s| == |Output(v, signed, negative, b, c.(width := 0))|)
  {
    hide Rendered, Backwards, Read, Sign, Assemble;
    var sign := Opt(Sign(c, signed, negative));
    var x := if c.pound && v > 0 && b.X() != 0 then [CH_0, b.X()] else [];
    var number := Backwards(Rendered(v, b, c));
    BackwardsLength(Rendered(v, b, c));
    var room := c.width - |number| - |x| - |sign|;
    var pad: nat := if room < 0 then 0 else room;
    SignMeans(c, signed, negative, b);
    NumberReads(v, b, c);
    NoMinus(v, b, c);
    assert forall i :: 0 <= i < |x| ==> x[i] > CH_MINUS && (x[i] == CH_0 || !IsDigit(x[i], b));
    AssembledReads(c, pad, sign, x, number, b);
    AssembledHas(c, pad, sign, x, number);
    SameNumber(v, signed, negative, b, c);
    AssembledHas(c.(width := 0), 0, sign, x, number);
  }

  lemma SameNumber(v: nat, signed: bool, negative: bool, b: Base, c: Conversion)
    ensures Rendered(v, b, c.(width := 0)) == Rendered(v, b, c)
            && Sign(c.(width := 0), signed, negative) == Sign(c, signed, negative)
  {
    hide Reversed;
  }

  /** Of characters that stand from position `at` on, exactly every (g + 1)th is a comma. */
  ghost predicate CommasFrom(s: seq<Byte>, at: nat, g: nat) {
    forall i :: 0 <= i < |s| ==> (s[i] == CH_COMMA <==> (at + i) % (g + 1) == g)
  }

  lemma CommasJoin(s: seq<Byte>, t: seq<Byte>, at: nat, g: nat)
    requires CommasFrom(s, at, g) && CommasFrom(t, at + |s|, g)
    ensures CommasFrom(s + t, at, g)
  {
    forall i | 0 <= i < |s + t| ensures (s + t)[i] == CH_COMMA <==> (at + i) % (g + 1) == g {
      if i >= |s| { assert (s + t)[i] == t[i - |s|] && at + i == at + |s| + (i - |s|); }
    }
  }

  /** The printed digits have a comma between groups, counted from the right, and nowhere else; `at` characters have
      gone before. */
  lemma {:induction false} CommasBetweenGroups(v: nat, b: Base, cnt: nat, at: nat)
    requires at == if cnt == 0 then 0 else cnt + (cnt - 1) / b.Group()
    ensures CommasFrom(Reversed(v, b, true, cnt), at, if b == HexLower || b == HexUpper then 4 else 3)
  {
    hide CommasFrom;
    if v > 0 {
      var turn, t := Turn(v, b, true, cnt), Reversed(v / b.Radix(), b, true, cnt + 1);
      TurnCommas(v, b, cnt, at);
      CommasBetweenGroups(v / b.Radix(), b, cnt + 1, at + |turn|);
      CommasJoin(turn, t, at, b.Group());
      assert Reversed(v, b, true, cnt) == turn + t;
    } else {
      NoCommas(at, b.Group());
    }
  }

  lemma NoCommas(at: nat, g: nat)
    ensures CommasFrom([], at, g)
  {
  }

  lemma TurnCommas(v: nat, b: Base, cnt: nat, at: nat)
    requires at == if cnt == 0 then 0 else cnt + (cnt - 1) / b.Group()
    ensures CommasFrom(Turn(v, b, true, cnt), at, b.Group())
            && at + |Turn(v, b, true, cnt)| == cnt + 1 + cnt / b.Group()
  {
    DigitReads(v % b.Radix(), 0, b);
    Position(cnt, at, b.Group(), |Turn(v, b, true, cnt)|);
  }

  lemma Position(cnt: nat, at: nat, g: nat, n: nat)
    requires (g == 3 || g == 4) && at == (if cnt == 0 then 0 else cnt + (cnt - 1) / g) && n == if cnt > 0
             && cnt % g == 0 then 2 else 1
    ensures at + n == cnt + 1 + cnt / g && (at % (g + 1) == g <==> n == 2) && (at + n - 1) % (g + 1) != g
  {
  }

  lemma SignMeans(c: Conversion, signed: bool, negative: bool, b: Base)
    ensures var s := Opt(Sign(c, signed, negative));
            (forall i :: 0 <= i < |s| ==> !IsDigit(s[i], b)) && (CH_MINUS in s <==> signed && negative)
  {
  }

  lemma AssembledHas(c: Conversion, pad: nat, sign: seq<Byte>, x: seq<Byte>, number: seq<Byte>)
    ensures var s := Assemble(c, pad, sign, x, number);
            && |s| >= pad + |sign| + |x| + |number| && (!(c.minus && c.zero) ==> |s| == pad + |sign| + |x| + |number|)
            && (CH_MINUS in s <==> CH_MINUS in sign || CH_MINUS in x || CH_MINUS in number)
  {
  }

  lemma AssembledReads(c: Conversion, pad: nat, sign: seq<Byte>, x: seq<Byte>, number: seq<Byte>, b: Base)
    requires forall i :: 0 <= i < |sign| ==> !IsDigit(sign[i], b)
    requires forall i :: 0 <= i < |x| ==> x[i] == CH_0 || !IsDigit(x[i], b)
    ensures Read(0, Assemble(c, pad, sign, x, number), b) == Read(0, number, b)
  {
    hide Read;
    var left := (if !c.minus && !c.zero then Copies(CH_SPACE, pad) else []) + sign + x + (if c.zero
      then Copies(CH_0, pad) else []);
    var right := if c.minus then Copies(CH_SPACE, pad) else [];
    ReadZeros(left, b);
    ReadOn(0, left, number, b);
    ReadOn(0, left + number, right, b);
    ReadPast(Read(0, number, b), right, b);
  }

  lemma {:induction false} ReversedNoMinus(v: nat, b: Base, grouped: bool, cnt: nat)
    ensures CH_MINUS !in Reversed(v, b, grouped, cnt)
  {
    if v > 0 {
      ReversedNoMinus(v / b.Radix(), b, grouped, cnt + 1);
      DigitReads(v % b.Radix(), 0, b);
    }
  }

  lemma {:induction false} BackwardsHas(s: seq<Byte>, c: Byte)
    ensures c in Backwards(s) <==> c in s
  {
    if s != [] {
      BackwardsHas(s[..|s| - 1], c);
      assert s == s[..|s| - 1] + [s[|s| - 1]];
    }
  }

  lemma NoMinus(v: nat, b: Base, c: Conversion)
    ensures CH_MINUS !in Backwards(Rendered(v, b, c))
  {
    hide Reversed, Backwards, Rendered;
    var n := RenderedZeros(v, b, c);
    ReversedNoMinus(v, b, c.grouped, 0);
    BackwardsHas(Rendered(v, b, c), CH_MINUS);
  }

  // ---- How the output is put together -------------------------------------------------------------------------------

  /** The sign that the flags ask for. */
  function SignFor(c: Conversion, signed: bool, negative: bool): (s: seq<Byte>) {
    if signed && negative then [45]
    else if signed && c.plus then [43]
    else if signed && c.space then [32]
    else []
  }

  /** "0x" or "0X" before a hexadecimal number that is not 0, on request. */
  function PrefixFor(c: Conversion, v: nat, b: Base): (s: seq<Byte>) {
    if c.pound && v > 0 && b == HexLower then [48, 120] else if c.pound && v > 0 && b == HexUpper then [48, 88] else []
  }

  /** The digits of a number, and nothing else but commas on request: none for 0, and no zero in front. */
  ghost predicate PlainDigits(s: seq<Byte>, v: nat, b: Base, grouped: bool) {
    && (s == [] <==> v == 0) && (v > 0 ==> s[0] != 48 && IsDigit(s[0], b)) && Read(0, s, b) == v
    && forall i :: 0 <= i < |s| ==> IsDigit(s[i], b) || (grouped && s[i] == 44)
  }

  /** The zeros in front of the digits that the precision, or "%#o", asks for; the buffer has room for 63 characters. */
  function ZerosFor(c: Conversion, b: Base, digits: nat): (n: nat) {
    var precision := if c.precision < 0 then 1 else if c.precision < 63 then c.precision else 63;
    if digits < precision then precision - digits else if c.pound && b == Oct then 1 else 0
  }

  lemma {:induction false} DigitsPlain(v: nat, b: Base, grouped: bool, cnt: nat)
    ensures var s := Reversed(v, b, grouped, cnt);
            && (s == [] <==> v == 0) && (v > 0 ==> s[|s| - 1] != 48 && IsDigit(s[|s| - 1], b))
            && forall i :: 0 <= i < |s| ==> IsDigit(s[i], b) || (grouped && s[i] == 44)
  {
    if v > 0 {
      var turn, t := Turn(v, b, grouped, cnt), Reversed(v / b.Radix(), b, grouped, cnt + 1);
      DigitsPlain(v / b.Radix(), b, grouped, cnt + 1);
      DigitReads(v % b.Radix(), 0, b);
      assert Reversed(v, b, grouped, cnt) == turn + t;
      if t == [] { TopDigit(v, b); }
    }
  }

  lemma TopDigit(v: nat, b: Base)
    requires v > 0 && v / b.Radix() == 0
    ensures b.Digit(v % b.Radix()) != 48
  {
    assert v % b.Radix() == v;
  }

  lemma {:induction false} BackwardsFirst(s: seq<Byte>)
    requires s != []
    ensures Backwards(s)[0] == s[|s| - 1]
  {
  }

  lemma PlainNumber(v: nat, b: Base, grouped: bool)
    ensures PlainDigits(Backwards(Reversed(v, b, grouped, 0)), v, b, grouped)
  {
    hide Reversed, Backwards, Read;
    var s := Reversed(v, b, grouped, 0);
    var r := Backwards(s);
    DigitsPlain(v, b, grouped, 0);
    DigitsRead(v, b, grouped, 0);
    BackwardsLength(s);
    if v > 0 { BackwardsFirst(s); }
    forall i | 0 <= i < |r| ensures IsDigit(r[i], b) || (grouped && r[i] == 44) { BackwardsHas(s, r[i]); }
  }

  lemma RenderedExact(v: nat, b: Base, c: Conversion)
    ensures var s := Reversed(v, b, c.grouped, 0); Rendered(v, b, c) == s + Copies(CH_0, ZerosFor(c, b, |s|))
  {
    hide Reversed;
    DigitsPlain(v, b, c.grouped, 0);
    var s := Reversed(v, b, c.grouped, 0);
    var n := RenderedZeros(v, b, c);
    assert n == ZerosFor(c, b, |s|);
  }

  /** From left to right: padding spaces, the sign, the prefix, zeros, the digits and padding spaces. Spaces stand left
      without MINUS and ZERO, and right with MINUS; with ZERO the padding is zeros between prefix and digits. */
  function Shape(c: Conversion, pad: nat, sign: seq<Byte>, x: seq<Byte>, zeros: nat, digits: seq<Byte>): (s: seq<Byte>)
    ensures !(c.minus && c.zero) ==> |s| == pad + |sign| + |x| + zeros + |digits|
  {
    Copies(32, if c.minus || c.zero then 0 else pad) + sign + x + Copies(48, if c.zero then zeros + pad else zeros)
    + digits + Copies(32, if c.minus then pad else 0)
  }

  /** The output of every conversion has that shape, with as much padding as the width asks for. */
  lemma OutputShape(v: nat, signed: bool, negative: bool, b: Base, c: Conversion) returns (digits: seq<Byte>)
    ensures PlainDigits(digits, v, b, c.grouped)
    ensures var sign, x, zeros := SignFor(c, signed, negative), PrefixFor(c, v, b), ZerosFor(c, b, |digits|);
            var need := |sign| + |x| + zeros + |digits|;
            Output(v, signed, negative, b, c) ==
              Shape(c, if need < c.width then c.width - need else 0, sign, x, zeros, digits)
  {
    hide Reversed, Rendered, Backwards, PlainDigits, Assemble, Shape, Sign, ZerosFor;
    var s := Reversed(v, b, c.grouped, 0);
    digits := Backwards(s);
    var sign, x, zeros := SignFor(c, signed, negative), PrefixFor(c, v, b), ZerosFor(c, b, |s|);
    PlainNumber(v, b, c.grouped);
    RenderedExact(v, b, c);
    BackwardsZeros(s, zeros);
    BackwardsLength(s);
    BackwardsLength(Rendered(v, b, c));
    SignIs(c, signed, negative);
    var need := |sign| + |x| + zeros + |digits|;
    Pieces(c, if need < c.width then c.width - need else 0, sign, x, zeros, digits);
  }

  lemma SignIs(c: Conversion, signed: bool, negative: bool)
    ensures Opt(Sign(c, signed, negative)) == SignFor(c, signed, negative)
  {
  }

  lemma Pieces(c: Conversion, pad: nat, sign: seq<Byte>, x: seq<Byte>, zeros: nat, digits: seq<Byte>)
    ensures Assemble(c, pad, sign, x, Copies(CH_0, zeros) + digits) == Shape(c, pad, sign, x, zeros, digits)
  {
    if c.zero { assert Copies(CH_0, pad) + Copies(CH_0, zeros) == Copies(48, zeros + pad); }
  }
}
