/**
 * The split virtqueue's structures (virtio-ring.h) and the way a device reads them.
 * Addresses are symbolic: which driver array, or where in the caller's memory.
 */
module Vring {
  import opened Basics

  const NEXT: nat := 1
  const WRITE: nat := 2

  datatype Ptr = Header(slot: nat) | Data(at: nat) | Status(slot: nat)
  datatype Desc = Desc(addr: Ptr, len: nat, flags: nat, next: nat)
  datatype UsedElem = UsedElem(id: nat, len: nat)

  predicate HasNext(d: Desc) { d.flags % 2 == 1 }
  predicate HasWrite(d: Desc) { d.flags / 2 % 2 == 1 }

  /** The device's walk from `head`: the descriptors of the chain in order, or None when an index
      leaves the table or the chain has more than `fuel` descriptors. */
  function Walk(table: seq<Desc>, head: nat, fuel: nat): (chain: Option<seq<nat>>)
    ensures chain.Some? ==> 1 <= |chain.value| <= fuel && chain.value[0] == head
    ensures chain.Some? ==> forall i :: 0 <= i < |chain.value| ==> chain.value[i] < |table|
    decreases fuel
  {
    if fuel == 0 || head >= |table| then None
    else if !HasNext(table[head]) then Some([head])
    else match Walk(table, table[head].next, fuel - 1)
         case None => None
         case Some(rest) => Some([head] + rest)
  }

  lemma WalkThree(table: seq<Desc>, i0: nat, i1: nat, i2: nat, fuel: nat)
    requires i0 < |table| && i1 < |table| && i2 < |table| && fuel >= 3
    requires HasNext(table[i0]) && table[i0].next == i1
    requires HasNext(table[i1]) && table[i1].next == i2
    requires !HasNext(table[i2])
    ensures Walk(table, i0, fuel) == Some([i0, i1, i2])
  {
    assert Walk(table, i2, fuel - 2) == Some([i2]);
    assert Walk(table, i1, fuel - 1) == Some([i1] + [i2]);
    assert [i0] + ([i1] + [i2]) == [i0, i1, i2];
  }
}
