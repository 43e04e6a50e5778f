/** Vocabulary shared by every module: options, bytes, machine words and splicing. */
module Basics {
  datatype Option<+T> = None | Some(value: T)

  function Max(a: int, b: int): int { if a < b then b else a }
  function Min(a: int, b: int): int { if a < b then a else b }

  type byte = b: int | 0 <= b < 256

  const U16: nat := 0x1_0000
  const U32: nat := 0x1_0000_0000
  const U64: nat := 0x1_0000_0000_0000_0000

  /** `dst` with the elements from `at` on overwritten by `src`; unchanged when `src` does not fit. */
  function Splice<T>(dst: seq<T>, at: nat, src: seq<T>): (r: seq<T>)
    ensures |r| == |dst|
    ensures at + |src| <= |dst| ==> r[at..at + |src|] == src
    ensures forall i :: 0 <= i < |dst| && !(at <= i < at + |src|) ==> r[i] == dst[i]
  {
    if at + |src| <= |dst| then dst[..at] + src + dst[at + |src|..] else dst
  }

  lemma SnocConcat<T>(a: seq<T>, b: seq<T>)
    requires b != []
    ensures a + b == a + b[..|b| - 1] + [b[|b| - 1]]
    ensures b == b[..|b| - 1] + [b[|b| - 1]]
  {
  }

  lemma ConcatNothing<T>(a: seq<T>)
    ensures a + [] == a
  {
  }

  /** Counting on from a wrapped counter is counting on from the count. */
  lemma WrapAdd(n: nat, j: nat)
    ensures (n % U16 + j) % U16 == (n + j) % U16
  {
    var q := n / U16;
    assert n == q * U16 + n % U16;
    var q', r' := (n % U16 + j) / U16, (n % U16 + j) % U16;
    assert n + j == (q + q') * U16 + r';
  }

  const PAGE: nat := 4096

  /** Up to the next page boundary. */
  function PageAlign(n: nat): (r: nat)
    ensures n <= r < n + PAGE && r % PAGE == 0
  {
    (n + (PAGE - 1)) / PAGE * PAGE
  }

  lemma AtMin(x: nat, n: nat)
    requires x >= 1
    ensures x * n >= n
  {
  }

  /** Quotient and remainder are the only ones. */
  lemma QuotientUnique(x: nat, n: nat, q: nat, r: nat)
    requires n > 0 && x == q * n + r && r < n
    ensures x / n == q && x % n == r
  {
    var p, t := x / n, x % n;
    assert x == n * p + t;
    if p < q {
      AtMin(q - p, n);
    } else if p > q {
      AtMin(p - q, n);
    }
  }

  function Pow(b: nat, n: nat): nat { if n == 0 then 1 else b * Pow(b, n - 1) }

  lemma Regroup(a: nat, b: nat, c: nat)
    ensures a * (b * c) == a * b * c
  {
  }

  lemma {:induction false} PowAdd(b: nat, m: nat, n: nat)
    ensures Pow(b, m + n) == Pow(b, m) * Pow(b, n)
  {
    if m > 0 {
      PowAdd(b, m - 1, n);
      assert Pow(b, m + n) == b * Pow(b, m - 1 + n);
      Regroup(b, Pow(b, m - 1), Pow(b, n));
    }
  }

  lemma {:induction false} PowPositive(b: nat, n: nat)
    requires b > 0
    ensures Pow(b, n) > 0
  {
    if n > 0 {
      PowPositive(b, n - 1);
      AtMin(b, Pow(b, n - 1));
    }
  }

  lemma WordSizes()
    ensures Pow(2, 32) == U32 && Pow(2, 64) == U64
  {
    assert Pow(2, 2) == 2 * Pow(2, 1) && Pow(2, 1) == 2 * Pow(2, 0);
    PowAdd(2, 2, 2);
    PowAdd(2, 4, 4);
    PowAdd(2, 8, 8);
    PowAdd(2, 16, 16);
    PowAdd(2, 32, 32);
  }

  lemma Rejoin(v: nat, b: nat)
    requires b > 0
    ensures v / b * b + v % b == v
  {
  }

  lemma Scale(b: nat, p: nat, q: nat)
    requires p <= q
    ensures b * p <= q * b
  {
  }

  lemma QuotientBelow(v: nat, b: nat, p: nat)
    requires b > 0 && v < b * p
    ensures v / b < p
  {
    var q := v / b;
    Rejoin(v, b);
    if q >= p {
      Scale(b, p, q);
    }
  }

  lemma Factors(a: nat, d: nat, q: nat, b: nat, r: nat)
    ensures a * (d * q) + (b * q + r) == (a * d + b) * q + r
  {
    Regroup(a, d, q);
  }

  lemma ModAtMost(v: nat, m: nat)
    requires m > 0
    ensures v % m <= v
  {
    if v < m {
      QuotientUnique(v, m, 0, v);
    }
  }

  /** Wrapping a 16-bit counter first does not change the slot of a ring whose size divides 65536. */
  lemma WrapSlot(n: nat, q: nat)
    requires q > 0 && U16 % q == 0
    ensures n % U16 % q == n % q
  {
    var a, m, d := n / U16, n % U16, U16 / q;
    Rejoin(n, U16);
    Rejoin(U16, q);
    Rejoin(m, q);
    Factors(a, d, q, m / q, m % q);
    QuotientUnique(n, q, a * d + m / q, m % q);
  }
}
