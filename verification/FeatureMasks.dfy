/** The feature bits the drivers turn off, one `features &= ~(1 << b)` at a time. */
module FeatureMasks {
  import opened Basics

  /** A register as the set of the bits that are 1. */
  type Bits = set<nat>

  type FeatureWord = f: Bits | forall b :: b in f ==> b < 64

  function BitWeight(j: nat): (p: nat)
    ensures p > 0
  {
    PowPositive(2, j);
    Pow(2, j)
  }

  predicate Bit(w: nat, j: nat) { w / BitWeight(j) % 2 == 1 }

  function BitsOf(w: nat): Bits { set j: nat | j < 64 && Bit(w, j) }

  /** `~(1 << b)` is an int; the 64-bit word it is combined with makes it unsigned. */
  function MaskInt(b: nat): int { -(Pow(2, b) as int) - 1 }
  function ToU64(v: int): nat { v % U64 }
  function ToU32(v: int): nat { v % U32 }

  lemma EvenPower(n: nat)
    requires n > 0
    ensures Pow(2, n) % 2 == 0
  {
  }

  lemma {:induction false} PowerBelow(b: nat, j: nat)
    requires b < j
    ensures Pow(2, b) < Pow(2, j)
  {
    assert Pow(2, j) == 2 * Pow(2, j - 1);
    if b == j - 1 {
      PowPositive(2, b);
    } else {
      PowerBelow(b, j - 1);
    }
  }

  /** Bit `j` of a power of two. */
  lemma PowerBit(b: nat, j: nat)
    ensures Bit(Pow(2, b), j) <==> j == b
  {
    PowPositive(2, b);
    PowPositive(2, j);
    if j <= b {
      PowAdd(2, b - j, j);
      QuotientUnique(Pow(2, b), Pow(2, j), Pow(2, b - j), 0);
      if j < b {
        EvenPower(b - j);
      }
    } else {
      PowerBelow(b, j);
      QuotientUnique(Pow(2, b), Pow(2, j), 0, Pow(2, b));
    }
  }

  lemma OneBit(b: nat)
    requires b < 64
    ensures BitsOf(Pow(2, b)) == {b}
  {
    forall j: nat | j < 64
      ensures j in BitsOf(Pow(2, b)) <==> j == b
    {
      PowerBit(b, j);
    }
  }

  lemma Flip(h: nat, p: nat, q: nat, r: nat)
    requires q < h && r < p
    ensures h * p - 1 - (q * p + r) == (h - 1 - q) * p + (p - 1 - r)
  {
    assert h * p == (h - 1 - q) * p + p + q * p;
  }

  lemma ComplementQuotient(w: nat, n: nat, h: nat, p: nat)
    requires p > 0 && n < h * p && w == h * p - 1 - n
    ensures n / p < h && w / p == h - 1 - n / p
  {
    var q, r := n / p, n % p;
    Rejoin(n, p);
    QuotientBelow(n, p, h);
    Flip(h, p, q, r);
    QuotientUnique(w, p, h - 1 - q, p - 1 - r);
  }

  lemma OtherParity(h: nat, q: nat)
    requires h % 2 == 0 && q < h
    ensures (h - 1 - q) % 2 == 1 <==> q % 2 != 1
  {
  }

  lemma BitFlips(w: nat, n: nat, j: nat, h: nat)
    requires h % 2 == 0 && n / BitWeight(j) < h && w / BitWeight(j) == h - 1 - n / BitWeight(j)
    ensures Bit(w, j) <==> !Bit(n, j)
  {
    hide BitWeight;
    OtherParity(h, n / BitWeight(j));
  }

  /** The complement within `m` bits flips each of them. */
  lemma ComplementBit(n: nat, m: nat, j: nat)
    requires j < m && n < Pow(2, m)
    ensures Bit(Pow(2, m) - 1 - n, j) <==> !Bit(n, j)
  {
    hide Pow, Bit;
    PowAdd(2, m - j, j);
    EvenPower(m - j);
    ComplementQuotient(Pow(2, m) - 1 - n, n, Pow(2, m - j), BitWeight(j));
    BitFlips(Pow(2, m) - 1 - n, n, j, Pow(2, m - j));
  }

  lemma WrapsOnce(n: nat, m: nat)
    requires n < m
    ensures (-(n as int) - 1) % m == m - 1 - n
  {
    QuotientUnique(m - 1 - n, m, 0, m - 1 - n);
    assert -(n as int) - 1 == (m - 1 - n) - m;
  }

  /** Converted to 64 bits the mask of a bit below 31 has every bit but that one: it is negative, so the
      upper half is filled with ones. */
  lemma MaskBits(b: nat)
    requires b < 31
    ensures forall j :: j in BitsOf(ToU64(MaskInt(b))) <==> 0 <= j < 64 && j != b
  {
    WordSizes();
    PowerBelow(b, 64);
    PowPositive(2, b);
    WrapsOnce(Pow(2, b), U64);
    forall j: nat | j < 64
      ensures Bit(ToU64(MaskInt(b)), j) <==> j != b
    {
      ComplementBit(Pow(2, b), 64, j);
      PowerBit(b, j);
    }
  }

  /** An unsigned mask would be filled with zeros, and turn off bits 32 and up as well. */
  lemma UnsignedMaskBits(b: nat)
    requires b < 31
    ensures forall j :: j in BitsOf(ToU32(MaskInt(b))) <==> 0 <= j < 32 && j != b
  {
    WordSizes();
    PowerBelow(b, 32);
    PowPositive(2, b);
    WrapsOnce(Pow(2, b), U32);
    var w := ToU32(MaskInt(b));
    forall j: nat | j < 64
      ensures Bit(w, j) <==> j < 32 && j != b
    {
      if j < 32 {
        ComplementBit(Pow(2, b), 32, j);
        PowerBit(b, j);
      } else {
        if j > 32 {
          PowerBelow(32, j);
        }
        QuotientUnique(w, Pow(2, j), 0, w);
      }
    }
  }

  /** Turning off the bits one after the other, as both drivers do. */
  method TurnOff(features: FeatureWord, off: seq<nat>) returns (left: FeatureWord)
    requires forall i :: 0 <= i < |off| ==> off[i] < 31
    ensures left == features - set b | b in off
  {
    left := features;
    for i := 0 to |off|
      invariant left == features - set b | b in off[..i]
    {
      MaskBits(off[i]);
      var mask := ToU64(MaskInt(off[i]));
      left := left * BitsOf(mask);
      assert off[..i + 1] == off[..i] + [off[i]];
    }
    assert off[..|off|] == off;
  }
}
