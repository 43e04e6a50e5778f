/** How many requests in a row get descriptors of their own, for any ring size the standard allows. */
module SlotWindows {
  import opened Basics

  /** The powers of two from 4 to 32768. */
  predicate RingSize(q: nat) {
    q in {4, 8, 16, 32, 64, 128, 256, 512, 1024, 2048, 4096, 8192, 16384, 32768}
  }

  /** Descriptor `j` of request `k`, for a counter that starts at `c0` and is kept in 16 bits. */
  function SlotOf(c0: nat, k: nat, j: nat, q: nat): nat
    requires RingSize(q)
  {
    ((c0 + 3 * k) % U16 + j) % U16 % q
  }

  predicate Collide(c0: nat, k: nat, l: nat, q: nat)
    requires RingSize(q)
  {
    exists i, j :: 0 <= i < 3 && 0 <= j < 3 && SlotOf(c0, k, i, q) == SlotOf(c0, l, j, q)
  }

  lemma AddModulus(y: nat, q: nat)
    requires q > 0
    ensures (y + q) % q == y % q
  {
    var a, r := y / q, y % q;
    assert y + q == (a + 1) * q + r;
    QuotientUnique(y + q, q, a + 1, r);
  }

  lemma SlotFormula(c0: nat, k: nat, j: nat, q: nat)
    requires RingSize(q)
    ensures SlotOf(c0, k, j, q) == (c0 + 3 * k + j) % q
  {
    WrapAdd(c0 + 3 * k, j);
    WrapSlot(c0 + 3 * k + j, q);
  }

  lemma ApartMod(x: nat, d: nat, q: nat)
    requires 0 < d < q
    ensures x % q != (x + d) % q
  {
    var a, r := x / q, x % q;
    assert x == a * q + r;
    if r + d < q {
      QuotientUnique(x + d, q, a, r + d);
    } else {
      assert x + d == (a + 1) * q + (r + d - q);
      QuotientUnique(x + d, q, a + 1, r + d - q);
    }
  }

  /** Any floor(q / 3) requests in a row use disjoint descriptors, wherever the counter wraps. */
  lemma WindowDisjoint(c0: nat, k: nat, l: nat, q: nat)
    requires RingSize(q) && k < l < k + q / 3
    ensures !Collide(c0, k, l, q)
  {
    forall i, j | 0 <= i < 3 && 0 <= j < 3
      ensures SlotOf(c0, k, i, q) != SlotOf(c0, l, j, q)
    {
      SlotFormula(c0, k, i, q);
      SlotFormula(c0, l, j, q);
      ApartMod(c0 + 3 * k + i, 3 * (l - k) + j - i, q);
    }
  }

  /** One more always comes back to a descriptor of the first. */
  lemma WindowIsTight(c0: nat, k: nat, q: nat)
    requires RingSize(q)
    ensures Collide(c0, k, k + q / 3, q)
  {
    var l, j := k + q / 3, q % 3;
    SlotFormula(c0, k, 0, q);
    SlotFormula(c0, l, j, q);
    assert c0 + 3 * l + j == c0 + 3 * k + q;
    AddModulus(c0 + 3 * k, q);
    assert SlotOf(c0, k, 0, q) == SlotOf(c0, l, j, q);
  }
}
