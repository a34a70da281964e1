/** Concepts that several components share. */
module Basics {
  const WORD: nat := 0x1_0000_0000           // values of a 32-bit word
  const PGSIZE: nat := 4096
  const PHYS_BASE: nat := 0xC000_0000

  datatype Option<T> = None | Some(value: T)

  /** No element occurs twice. */
  predicate NoDup<T(==)>(s: seq<T>) {
    forall i, j :: 0 <= i < j < |s| ==> s[i] != s[j]
  }

  /** A list without its first element, which occurs nowhere else. */
  lemma TailOfNoDup<T>(q: seq<T>)
    requires NoDup(q) && q != []
    ensures NoDup(q[1..])
    ensures forall t :: t in q[1..] <==> t in q && t != q[0]
  {
    forall t ensures t in q[1..] <==> t in q && t != q[0] {
      if t in q && t != q[0] {
        var i :| 0 <= i < |q| && q[i] == t;
        assert q[1..][i - 1] == t;
      }
    }
  }

  lemma AppendNoDup<T>(q: seq<T>, x: T)
    requires NoDup(q) && x !in q
    ensures NoDup(q + [x])
    ensures forall t :: t in q + [x] <==> t in q || t == x
  {
  }

  lemma ProductGap(p: int, q: int, d: nat)
    requires p < q
    ensures p * d + d <= q * d
  {
    assert (q - p - 1) * d >= 0;
    assert (q - p - 1) * d == q * d - p * d - d;
  }

  /** Quotient and remainder are the only integers with this property. */
  lemma RemainderUnique(n: int, d: int, q: int, r: int)
    requires d > 0 && n == q * d + r && 0 <= r < d
    ensures n / d == q && n % d == r
  {
    var q', r' := n / d, n % d;
    assert n == q' * d + r';
    if q < q' { ProductGap(q, q', d); }
    if q' < q { ProductGap(q', q, d); }
  }
}
