/** 64-bit division built from a 64-by-32-bit divide instruction (lib/arithmetic.c).

    Machine integers are subset types of `int`; every operation that can wrap in C is written
    with its reduction, so a missing reduction is a failed subset-type check. */
module Arithmetic {
  import opened Basics

  const B32: int := 0x1_0000_0000
  const B64: int := 0x1_0000_0000_0000_0000
  const B31: int := 0x8000_0000
  const B63: int := 0x8000_0000_0000_0000

  type u32 = x: int | 0 <= x < 0x1_0000_0000
  type u64 = x: int | 0 <= x < 0x1_0000_0000_0000_0000
  type i32 = x: int | -0x8000_0000 <= x < 0x8000_0000
  type i64 = x: int | -0x8000_0000_0000_0000 <= x < 0x8000_0000_0000_0000

  /** Two's complement reading of the low 64 bits. */
  function ToI64(x: int): (r: i64)
    ensures exists k: int :: r == x + k * B64
  {
    var m := x % B64;
    assert m == x + (-(x / B64)) * B64;
    assert m - B64 == x + (-(x / B64) - 1) * B64;
    if m < B63 then m else m - B64
  }

  /** Conversion to an unsigned 64-bit type. */
  function ToU64(x: int): (r: u64) {
    x % B64
  }

  /** Two's complement reading of the low 32 bits. */
  function ToI32(x: int): (r: i32)
  {
    var m := x % B32;
    if m < B31 then m else m - B32
  }

  function Pow2(n: nat): (p: int)
    ensures p >= 1
  {
    if n == 0 then 1 else 2 * Pow2(n - 1)
  }

  lemma {:induction false} Pow2Add(a: nat, b: nat)
    ensures Pow2(a + b) == Pow2(a) * Pow2(b)
  {
    if a > 0 {
      Pow2Add(a - 1, b);
      assert a + b - 1 == (a - 1) + b;
      assert 2 * (Pow2(a - 1) * Pow2(b)) == (2 * Pow2(a - 1)) * Pow2(b);
    }
  }

  lemma Pow2Values()
    ensures Pow2(1) == 2 && Pow2(2) == 4 && Pow2(4) == 16 && Pow2(8) == 256 && Pow2(16) == 0x1_0000
    ensures Pow2(31) == B31 && Pow2(32) == B32 && Pow2(63) == B63 && Pow2(64) == B64
  {
    assert Pow2(4) == 16;
    Pow2Add(4, 4);
    Pow2Add(8, 8);
    Pow2Add(16, 16);
    assert 2 * Pow2(31) == Pow2(32);
    Pow2Add(32, 32);
    assert 2 * Pow2(63) == Pow2(64);
  }

  lemma {:induction false} Pow2Mono(a: nat, b: nat)
    requires a <= b
    ensures Pow2(a) <= Pow2(b)
  {
    if a < b { Pow2Mono(a, b - 1); }
  }

  /** The DIVL instruction: it traps unless the quotient fits in 32 bits, so that is its precondition. */
  method Divl(n: u64, d: u32) returns (q: u32)
    requires d != 0
    requires n / B32 < d
    ensures q * d <= n < q * d + d
  {
    assert n < d * B32;
    QuotientBelow(n, d, B32);
    q := n / d;
    DivDef(n, d);
  }

  lemma DivDef(n: int, d: int)
    requires d > 0
    ensures n / d * d <= n < n / d * d + d
  {
  }

  /** The quotient is the only integer with this property. */
  lemma DivUnique(n: int, d: int, q: int)
    requires d > 0
    requires q * d <= n < q * d + d
    ensures q == n / d
  {
    DivDef(n, d);
    LessFromProducts(q, n / d + 1, d);
    LessFromProducts(n / d, q + 1, d);
  }

  lemma LessFromProducts(a: int, b: int, d: int)
    requires d > 0 && a * d < b * d
    ensures a < b
  {
  }

  lemma QuotientBelow(n: int, d: int, b: int)
    requires d > 0 && 0 <= n < d * b
    ensures 0 <= n / d < b
  {
    DivDef(n, d);
    LessFromProducts(n / d, b, d);
    LessFromProducts(-1, n / d, d);
  }

  lemma MulAssoc(a: int, b: int, c: int)
    ensures (a * b) * c == a * (b * c)
  {
  }

  lemma MulMono(a: int, b: int, d: int)
    requires a <= b && d >= 0
    ensures a * d <= b * d
  {
  }

  /** `x << k` for c = 2^k in a 32-bit register. */
  function ShiftLeft(x: u32, c: nat): (r: u32)
    ensures x * c < B32 ==> r == x * c
  {
    x * c % B32
  }

  /** Number of leading zero bits of a nonzero word, by its meaning: how often it can be
      doubled before bit 31 is set. */
  ghost function LeadingZeros(x: u32): (n: nat)
    requires x != 0
    decreases B32 - x
  {
    if x >= B31 then 0 else 1 + LeadingZeros(2 * x)
  }

  lemma LeadingZerosShift(x: u32)
    requires x != 0
    ensures x <= 0x7FFF_FFFF ==> LeadingZeros(x) == 1 + LeadingZeros(x * 2)
    ensures x <= 0x3FFF_FFFF ==> LeadingZeros(x) == 2 + LeadingZeros(x * 4)
    ensures x <= 0x0FFF_FFFF ==> LeadingZeros(x) == 4 + LeadingZeros(x * 0x10)
  {
    if x <= 0x3FFF_FFFF { assert LeadingZeros(2 * x) == 1 + LeadingZeros(4 * x); }
    if x <= 0x0FFF_FFFF { assert LeadingZeros(4 * x) == 2 + LeadingZeros(0x10 * x); }
  }

  lemma LeadingZerosByteShift(x: u32)
    requires x != 0
    ensures x <= 0x00FF_FFFF ==> LeadingZeros(x) == 8 + LeadingZeros(x * 0x100)
    ensures x <= 0x0000_FFFF ==> LeadingZeros(x) == 16 + LeadingZeros(x * 0x1_0000)
  {
    LeadingZerosShift(x);
    if x <= 0x00FF_FFFF { LeadingZerosShift(0x10 * x); }
    if x <= 0x0000_FFFF {
      LeadingZerosShift(0x100 * x);
      LeadingZerosShift(0x1000 * x);
    }
  }

  /** The shift by the number of leading zeros is exactly the normalising one. */
  lemma {:induction false} LeadingZerosNormalise(x: u32)
    requires x != 0
    ensures B31 <= x * Pow2(LeadingZeros(x)) < B32
    decreases B32 - x
  {
    if x < B31 {
      LeadingZerosNormalise(2 * x);
      var p := Pow2(LeadingZeros(2 * x));
      assert Pow2(LeadingZeros(x)) == 2 * p;
      MulAssoc(x, 2, p);
    }
  }

  lemma LeadingZerosAtMost31(x: u32)
    requires x != 0
    ensures LeadingZeros(x) <= 31
  {
    LeadingZerosNormalise(x);
    Pow2Values();
    var n := LeadingZeros(x);
    if n >= 32 {
      Pow2Mono(32, n);
      MulMono(1, x, Pow2(n));
    }
  }

  method Nlz(x0: u32) returns (n: nat)
    requires x0 != 0
    ensures n == LeadingZeros(x0)
  {
    var x: u32 := x0;
    n := 0;
    if x <= 0x0000_FFFF {
      LeadingZerosByteShift(x);
      n := n + 16;
      x := ShiftLeft(x, 0x1_0000);
    }
    assert n + LeadingZeros(x) == LeadingZeros(x0);
    if x <= 0x00FF_FFFF {
      LeadingZerosByteShift(x);
      n := n + 8;
      x := ShiftLeft(x, 0x100);
    }
    assert n + LeadingZeros(x) == LeadingZeros(x0);
    if x <= 0x0FFF_FFFF {
      LeadingZerosShift(x);
      n := n + 4;
      x := ShiftLeft(x, 0x10);
    }
    assert n + LeadingZeros(x) == LeadingZeros(x0);
    if x <= 0x3FFF_FFFF {
      LeadingZerosShift(x);
      n := n + 2;
      x := ShiftLeft(x, 4);
    }
    assert n + LeadingZeros(x) == LeadingZeros(x0);
    if x <= 0x7FFF_FFFF {
      n := n + 1;
    }
  }

  /** Facts about the normalised divisor: with D = d * p (p = 2^s), v the top word of D and
      w = 2^(32-s), the divisor is v * w plus a remainder below w. */
  lemma Normalised(d: u64, p: int, w: int, v: int)
    requires p >= 1 && w >= 1 && p * w == B32
    requires B31 <= d / B32 * p < B32
    requires v == d * p % B64 / B32
    ensures d * p < B64
    ensures B31 <= v < B32
    ensures v * w <= d < v * w + w
  {
    var hi, lo := d / B32, d % B32;
    TopWordShift(hi, lo, p, w);
    var D := d * p;
    assert d == hi * B32 + lo;
    assert D % B64 == D;
    DivDef(D, B32);
    assert v * B32 <= D < v * B32 + B32;
    assert v * B32 == (v * w) * p;
    assert v * B32 + B32 == (v * w + w) * p;
    LessFromProducts(v * w - 1, d, p);
    LessFromProducts(d, v * w + w, p);
  }

  /** Shifting the high word within 32 bits keeps the whole double word within 64. */
  lemma TopWordShift(hi: int, lo: int, p: int, w: int)
    requires 0 <= lo < B32 && p >= 1 && p * w == B32
    requires B31 <= hi * p < B32
    ensures B63 <= (hi * B32 + lo) * p < B64
  {
    LessFromProducts(hi, w, p);
    assert (hi + 1) * p == hi * p + p;
    MulMono(hi + 1, w, p);
    MulMono(lo, B32 - 1, p);
    MulAssoc(hi, B32, p);
    MulAssoc(hi, p, B32);
    assert (hi * B32 + lo) * p == (hi * p) * B32 + lo * p;
  }

  /** Dividing by v and then by h is dividing by v * h. */
  lemma DivDiv(u: int, v: int, h: int, q1: int, q: int)
    requires u >= 0 && v > 0 && h > 0
    requires q1 * v <= u < q1 * v + v
    requires q == q1 / h
    ensures q * (v * h) <= u < (q + 1) * (v * h)
  {
    DivDef(q1, h);
    MulMono(q * h, q1, v);
    MulMono(q1 + 1, (q + 1) * h, v);
    MulAssoc(q, h, v);
    MulAssoc(q + 1, h, v);
    assert v * h == h * v;
  }

  /** The estimate is never below the true quotient... */
  lemma EstimateLow(n: int, d: int, e: int, q: int, t: int)
    requires n >= 0 && e > 0 && t >= 0
    requires 2 * e <= d
    requires t * d <= n
    requires n / 2 < (q + 1) * e
    ensures t <= q
  {
    MulMono(2 * e, d, t);
    assert t * (2 * e) == 2 * (t * e);
    assert t * e <= n / 2;
    LessFromProducts(t, q + 1, e);
  }

  /** ... and at most one above it, because the bits of the divisor that were dropped weigh
      less than the estimate divisor even when multiplied by the largest possible quotient. */
  lemma EstimateHigh(n: int, d: int, e: int, q: int, t: int)
    requires n >= 0 && e > 0 && t >= 0
    requires 2 * e <= d
    requires n < (t + 1) * d
    requires q * e <= n / 2
    requires (t + 1) * (d - 2 * e) <= 2 * e
    ensures q <= t + 1
  {
    assert (t + 1) * (d - 2 * e) == (t + 1) * d - 2 * ((t + 1) * e);
    assert (t + 2) * e == (t + 1) * e + e;
    assert 2 * (q * e) < 2 * ((t + 2) * e);
    LessFromProducts(q, t + 2, e);
  }

  /** The error bound `EstimateHigh` needs, from the ranges of the normalised divisor. */
  lemma DroppedBitsBound(n: u64, d: int, p: int, v: int, h: int, t: int)
    requires h >= 1 && p >= 1 && h * p == B31
    requires B31 <= v && 2 * (v * h) <= d < 2 * (v * h) + 2 * h
    requires t >= 0 && t * d <= n
    ensures (t + 1) * (d - 2 * (v * h)) <= 2 * (v * h)
  {
    MulMono(B31, v, h);
    // t < 2 * p: otherwise t * d would reach 2^64
    MulMono(2 * (B31 * h), d, t);
    QuotientRange(t, h, p);
    var delta := d - 2 * (v * h);
    MulMono(t + 1, 2 * p, delta);
    MulMono(delta, 2 * h - 1, 2 * p);
    ErrorProduct(h, p);
  }

  lemma QuotientRange(t: int, h: int, p: int)
    requires h >= 1 && p >= 1 && h * p == B31 && t >= 0
    requires t * (2 * (B31 * h)) < B64
    ensures t < 2 * p
  {
    assert t * (2 * (B31 * h)) == (t * h) * (2 * B31);
    assert t * h < 2 * B31;
    assert (2 * p) * h == 2 * (h * p);
    LessFromProducts(t, 2 * p, h);
  }

  lemma ErrorProduct(h: int, p: int)
    requires h >= 1 && p >= 1 && h * p == B31
    ensures (2 * h - 1) * (2 * p) <= 2 * (B31 * h)
  {
    assert (2 * h - 1) * (2 * p) == 4 * (h * p) - 2 * p;
  }

  /** Long division by one word: the high word's quotient and the quotient of what is left. */
  lemma SplitQuotient(n: u64, n1: int, n0: int, d: int, h: int, r: int, low: int)
    requires 0 < d < B32 && n == B32 * n1 + n0 && n1 == h * d + r
    requires low * d <= B32 * r + n0 < low * d + d
    ensures low + B32 * h == n / d
  {
    assert B32 * (h * d) == (B32 * h) * d;
    assert (low + B32 * h) * d == low * d + (B32 * h) * d;
    DivUnique(n, d, low + B32 * h);
  }

  /** The first partial dividend is small enough for `Divl`. */
  lemma PartialDividendFits(r: int, n0: int, d: int)
    requires 0 <= r < d < B32 && 0 <= n0 < B32
    ensures 0 <= B32 * r + n0 < B64
    ensures (B32 * r + n0) / B32 < d
  {
  }

  /** The estimate taken from the normalised divisor is the quotient `t` or one more. */
  lemma Estimate(n: u64, d: u64, p: int, h: int, v: int, q1: int, q: int, t: int)
    requires h >= 1 && p >= 1 && h * p == B31 && B31 <= v
    requires 2 * (v * h) <= d < 2 * (v * h) + 2 * h
    requires q1 * v <= n / 2 < q1 * v + v
    requires q == q1 / h
    requires t >= 0 && t * d <= n < (t + 1) * d
    ensures t <= q <= t + 1
  {
    DivDiv(n / 2, v, h, q1, q);
    MulMono(1, v, h);
    EstimateLow(n, d, v * h, q, t);
    DroppedBitsBound(n, d, p, v, h, t);
    EstimateHigh(n, d, v * h, q, t);
  }

  lemma DivisorTopWord(d: u64, s: nat, v: int)
    requires d / B32 >= 1 && s == LeadingZeros(d / B32) && s <= 31
    requires v == d * Pow2(s) % B64 / B32
    ensures B31 <= v < B32
    ensures Pow2(31 - s) * Pow2(s) == B31
    ensures 2 * (v * Pow2(31 - s)) <= d < 2 * (v * Pow2(31 - s)) + 2 * Pow2(31 - s)
  {
    LeadingZerosNormalise(d / B32);
    Pow2Add(31 - s, s);
    assert Pow2(31) == B31 by { Pow2Values(); }
    Halved(d, Pow2(s), Pow2(31 - s), v);
  }

  lemma Halved(d: u64, p: int, h: int, v: int)
    requires p >= 1 && h >= 1 && h * p == B31
    requires B31 <= d / B32 * p < B32
    requires v == d * p % B64 / B32
    ensures B31 <= v < B32
    ensures 2 * (v * h) <= d < 2 * (v * h) + 2 * h
  {
    assert p * (2 * h) == 2 * (h * p);
    Normalised(d, p, 2 * h, v);
    assert v * (2 * h) == 2 * (v * h);
  }

  /** Testing the remainder of q - 1 settles which of the two it is, without wrapping. */
  lemma CorrectionIsExact(n: u64, d: u64, q: int, t: int)
    requires 0 < d <= n
    requires t * d <= n < (t + 1) * d
    requires t <= q <= t + 1
    ensures 1 <= t
    ensures 0 <= n - (q - 1) * d < B64
    ensures (if n - (q - 1) * d < d then q - 1 else q) == t
  {
    LessFromProducts(1, t + 1, d);
    assert (t + 1) * d == t * d + d;
    assert (t - 1) * d == t * d - d;
    MulMono(0, t - 1, d);
  }

  /** The estimate, as computed: `divl` does not trap and its shifted result is t or t + 1. */
  method EstimateQuotient(n: u64, d: u64, ghost t: int) returns (e: u32)
    requires d / B32 >= 1
    requires t >= 0 && t * d <= n < (t + 1) * d
    ensures t <= e <= t + 1
  {
    var s := Nlz(d / B32);
    LeadingZerosAtMost31(d / B32);
    var v: u32 := d * Pow2(s) % B64 / B32;
    DivisorTopWord(d, s, v);
    var q1 := Divl(n / 2, v);
    QuotientInRange(q1, Pow2(31 - s));
    e := q1 / Pow2(31 - s);
    Estimate(n, d, Pow2(s), Pow2(31 - s), v, q1, e, t);
  }

  /** The branch for divisors of more than one word. */
  method DivideLarge(n: u64, d: u64) returns (q: u64)
    requires d / B32 >= 1 && d <= n
    ensures q * d <= n < (q + 1) * d
  {
    ghost var t := QuotientWitness(n, d);
    var e := EstimateQuotient(n, d, t);
    CorrectionIsExact(n, d, e, t);
    var less: u64 := (e - 1) % B64;
    q := if (n - less * d) % B64 < d then less else e;
  }

  lemma QuotientInRange(q1: u32, h: int)
    requires h >= 1
    ensures 0 <= q1 / h < B32
  {
    MulMono(1, h, B32);
    QuotientBelow(q1, h, B32);
  }

  lemma QuotientWitness(n: int, d: int) returns (t: int)
    requires n >= 0 && d > 0
    ensures t >= 0 && t * d <= n < (t + 1) * d
  {
    t := n / d;
    DivDef(n, d);
    LessFromProducts(0, t + 1, d);
  }

  /** The branch for one-word divisors. */
  method DivideSmall(n: u64, d: u64) returns (q: u64)
    requires 0 < d < B32
    ensures q == n / d
  {
    var n1, n0 := n / B32, n % B32;
    var h, r := DivideWords(n1, d);
    PartialDividendFits(r, n0, d);
    var low := Divl((B32 * r + n0) % B64, d);
    SplitQuotient(n, n1, n0, d, h, r, low);
    BelowB64(n, d);
    q := (low + B32 * h) % B64;
  }

  lemma BelowB64(n: u64, d: int)
    requires d > 0
    ensures 0 <= n / d < B64
  {
    MulMono(1, d, B64);
    QuotientBelow(n, d, B64);
  }

  /** A 32-bit division with its remainder. */
  method DivideWords(n: u32, d: u64) returns (h: u32, r: u32)
    requires 0 < d < B32
    ensures n == h * d + r && r < d
  {
    RemainderDef(n, d);
    MulMono(1, d, B32);
    QuotientBelow(n, d, B32);
    h, r := n / d, n % d;
  }

  /** Unsigned 64-bit quotient. */
  method Udiv64(n: u64, d: u64) returns (q: u64)
    requires d != 0
    ensures q == n / d
  {
    if d / B32 == 0 {
      q := DivideSmall(n, d);
    } else if n < d {
      DivUnique(n, d, 0);
      q := 0;
    } else {
      q := DivideLarge(n, d);
      DivUnique(n, d, q);
    }
  }

  /** Unsigned remainder, which the code returns through a 32-bit type. */
  method Umod64(n: u64, d: u64) returns (r: u32)
    requires d != 0
    ensures r == n % d % B32
  {
    var q := Udiv64(n, d);
    RemainderDef(n, d);
    assert d * q == q * d;
    r := (n - d * q) % B64 % B32;
  }

  lemma RemainderDef(n: int, d: int)
    requires d > 0
    ensures n - n / d * d == n % d && 0 <= n % d < d
  {
  }

  /** A divisor gives the true remainder for every dividend exactly when it is at most 2^32. */
  lemma UmodExactDivisors(d: u64)
    requires d != 0
    ensures (forall n: u64 :: n % d % B32 == n % d) <==> d <= B32
  {
    if d > B32 {
      var n: u64 := B32;
      RemainderUnique(n, d, 0, n);
      assert n % d % B32 != n % d;
    } else {
      forall n: u64 ensures n % d % B32 == n % d { RemainderDef(n, d); }
    }
  }

  function Abs(x: int): (r: nat) {
    if x < 0 then -x else x
  }

  /** The C quotient, truncated toward zero, and the remainder that goes with it. */
  function TruncDiv(n: int, d: int): (q: int)
    requires d != 0
  {
    if (n < 0) == (d < 0) then Abs(n) / Abs(d) else -(Abs(n) / Abs(d))
  }

  function TruncMod(n: int, d: int): (r: int)
    requires d != 0
  {
    n - d * TruncDiv(n, d)
  }

  /** The remainder is below the divisor in size and takes the sign of the dividend. */
  lemma TruncModRange(n: int, d: int)
    requires d != 0
    ensures Abs(TruncMod(n, d)) == Abs(n) % Abs(d) < Abs(d)
    ensures n >= 0 ==> TruncMod(n, d) >= 0
    ensures n <= 0 ==> TruncMod(n, d) <= 0
  {
    RemainderDef(Abs(n), Abs(d));
    var q := Abs(n) / Abs(d);
    SignedProduct(d, q);
    assert d * TruncDiv(n, d) == if n < 0 then -(q * Abs(d)) else q * Abs(d);
  }

  lemma SignedProduct(d: int, q: int)
    ensures d * -q == -(d * q)
    ensures q * Abs(d) == if d < 0 then -(d * q) else d * q
  {
  }

  lemma QuotientMagnitude(n: i64, d: i64)
    requires d != 0
    ensures 0 <= Abs(n) / Abs(d) <= B63
    ensures Abs(n) / Abs(d) == B63 <==> n == -B63 && Abs(d) == 1
  {
    var a, b := Abs(n), Abs(d);
    DivDef(a, b);
    QuotientBelow(a, b, B63 + 1) by { MulMono(1, b, B63 + 1); }
    if a < B63 { QuotientBelow(a, b, B63) by { MulMono(1, b, B63); } }
    if b >= 2 { QuotientBelow(a, b, B63) by { MulMono(2, b, B63); } }
    if a == B63 && b == 1 { DivUnique(a, b, B63); }
  }

  lemma NegationOfReading(a: int)
    requires 0 <= a <= B63
    ensures ToI64(0 - ToI64(a)) == -a == ToI64(-a)
    ensures ToI64(a) == a <==> a != B63
  {
  }

  function SignedReading(n: i64, d: i64, a: int): (q: i64) {
    if (n < 0) == (d < 0) then ToI64(a) else ToI64(0 - ToI64(a))
  }

  /** Negating through the signed reading is right for every quotient, and reading the
      quotient as signed is wrong for 2^63 alone. */
  lemma SignedQuotient(n: i64, d: i64, a: int)
    requires d != 0 && a == Abs(n) / Abs(d)
    ensures SignedReading(n, d, a) == ToI64(TruncDiv(n, d))
    ensures SignedReading(n, d, a) == TruncDiv(n, d) <==> !(n == -B63 && d == -1)
  {
    QuotientMagnitude(n, d);
    NegationOfReading(a);
  }

  /** The absolute value as the code takes it, by negation in an unsigned type. */
  function Magnitude(n: i64): (r: u64)
    ensures r == Abs(n)
  {
    if n >= 0 then n else ToU64(0 - n)
  }

  /** Signed quotient: truncation toward zero, except that -2^63 / -1 wraps. */
  method Sdiv64(n: i64, d: i64) returns (q: i64)
    requires d != 0
    ensures q == ToI64(TruncDiv(n, d))
    ensures q == TruncDiv(n, d) <==> !(n == -B63 && d == -1)
  {
    var qAbs := Udiv64(Magnitude(n), Magnitude(d));
    SignedQuotient(n, d, qAbs);
    q := SignedReading(n, d, qAbs);
  }

  /** The 32-bit reading is not affected by whole multiples of 2^64. */
  lemma ToI32Reduced(x: int, k: int)
    ensures ToI32(x + k * B64) == ToI32(x)
  {
    var c := k * B32;
    assert k * B64 == c * B32;
    RemainderUnique(x + c * B32, B32, x / B32 + c, x % B32);
  }

  /** The 64-bit remainder the code computes before narrowing it. */
  lemma NarrowedRemainder(n: i64, d: i64, q: i64, t: int)
    requires q == ToI64(t)
    ensures ToI32(ToI64(n - ToI64(d * q))) == ToI32(n - d * t)
  {
    var k: int :| q == t + k * B64;
    var p := ToI64(d * q);
    var l: int :| p == d * q + l * B64;
    var m: int :| ToI64(n - p) == n - p + m * B64;
    assert d * q == d * t + (d * k) * B64;
    assert ToI64(n - p) == n - d * t + (m - l - d * k) * B64;
    ToI32Reduced(n - d * t, m - l - d * k);
  }

  /** Signed remainder, which the code also returns through a 32-bit type. */
  method Smod64(n: i64, d: i64) returns (r: i32)
    requires d != 0
    ensures r == ToI32(TruncMod(n, d))
  {
    var q := Sdiv64(n, d);
    NarrowedRemainder(n, d, q, TruncDiv(n, d));
    r := ToI32(ToI64(n - ToI64(d * q)));
  }

  /** A divisor gives the true signed remainder for every dividend exactly when its size is at most 2^31. */
  lemma SmodExactDivisors(d: i64)
    requires d != 0
    ensures (forall n: i64 :: ToI32(TruncMod(n, d)) == TruncMod(n, d)) <==> Abs(d) <= B31
  {
    if Abs(d) > B31 {
      var n: i64 := B31;
      DivUnique(n, Abs(d), 0);
      assert TruncMod(n, d) == n;
      assert ToI32(TruncMod(n, d)) != TruncMod(n, d);
    } else {
      forall n: i64 ensures ToI32(TruncMod(n, d)) == TruncMod(n, d) { TruncModRange(n, d); }
    }
  }
}
