/**
 * Capability lists as a device lays them out (VirtIO 1.1 section 4.1.4): the bytes of each entry are written
 * here from its fields, and virtio_pci_read_caps is measured against the entries.
 */
module CapLists {
  import opened Basics
  import opened PciCaps

  /** `struct virtio_pci_cap`, and the word that follows it in a notification capability. */
  datatype VirtioCap = VirtioCap(length: byte, typ: byte, bar: byte, id: byte, padding: (byte, byte), offset: nat,
                                 size: nat, multiplier: nat)

  /** An entry at an offset of the configuration space: one of virtio's, or another capability. */
  datatype Entry = Virtio(at: byte, cap: VirtioCap) | Other(at: byte, vndr: byte)

  function LittleBytes(v: nat, n: nat): (b: seq<byte>)
    ensures |b| == n
  {
    if n == 0 then [] else [v % 256] + LittleBytes(v / 256, n - 1)
  }

  /** A word's bytes, the least significant first. */
  function WordBytes(v: nat): (b: seq<byte>)
    ensures |b| == 4
  {
    LittleBytes(v, 4)
  }

  /** The entry's first bytes; `next` is the offset of the one behind it. */
  function Bytes(e: Entry, next: byte): seq<byte> {
    match e
    case Virtio(_, c) =>
      [9, next, c.length, c.typ, c.bar, c.id, c.padding.0, c.padding.1]
      + WordBytes(c.offset) + WordBytes(c.size) + (if c.typ == 2 then WordBytes(c.multiplier) else [])
    case Other(_, vndr) => [vndr, next]
  }

  predicate Fields(e: Entry) {
    match e
    case Virtio(_, c) => c.offset < U32 && c.size < U32 && c.multiplier < U32
    case Other(_, vndr) => vndr != 9
  }

  function NextAt(list: seq<Entry>): byte { if list == [] then 0 else list[0].at }

  /** The configuration space holds the entries, each naming the one behind it. */
  predicate Holds(config: Config, list: seq<Entry>) {
    list != [] ==>
      var e, b := list[0], Bytes(list[0], NextAt(list[1..]));
      e.at != 0 && Fields(e) && config[e.at as nat..e.at as nat + |b|] == b && Holds(config, list[1..])
  }

  function Offsets(list: seq<Entry>): (p: seq<byte>)
    ensures |p| == |list|
  {
    if list == [] then [] else [list[0].at] + Offsets(list[1..])
  }

  lemma {:induction false} LittleRead(v: nat, n: nat)
    requires v < Pow(256, n)
    ensures LittleEndian(LittleBytes(v, n)) == v
  {
    if n > 0 {
      var b := LittleBytes(v, n);
      assert b[1..] == LittleBytes(v / 256, n - 1);
      QuotientBelow(v, 256, Pow(256, n - 1));
      LittleRead(v / 256, n - 1);
      Rejoin(v, 256);
    }
  }

  lemma WordRead(v: nat)
    requires v < U32
    ensures LittleEndian(WordBytes(v)) == v
  {
    assert Pow(256, 2) == 256 * Pow(256, 1) && Pow(256, 1) == 256 * Pow(256, 0);
    assert Pow(256, 4) == 256 * Pow(256, 3) && Pow(256, 3) == 256 * Pow(256, 2);
    LittleRead(v, 4);
  }

  lemma Inside(config: Config, at: nat, b: seq<byte>, i: nat, n: nat)
    requires at + |b| <= CONFIG_SIZE && config[at..at + |b|] == b && i + n <= |b|
    ensures config[at + i..at + i + n] == b[i..i + n]
  {
    var part := config[at..at + |b|];
    var slice := config[at + i..at + i + n];
    forall k | 0 <= k < n
      ensures slice[k] == b[i..i + n][k]
    {
      assert part[i + k] == config[at + i + k];
    }
  }

  lemma OtherRead(config: Config, at: nat, vndr: byte, next: byte)
    requires at < 256 && config[at..at + 2] == [vndr, next]
    ensures CapOf(config[at..at + 16]).vndr == vndr && CapOf(config[at..at + 16]).next == next
  {
    var pair, raw := config[at..at + 2], config[at..at + 16];
    assert pair[0] == config[at] && pair[1] == config[at + 1];
    assert raw[0] == config[at] && raw[1] == config[at + 1];
  }

  lemma VirtioRead(b: seq<byte>, c: VirtioCap, next: byte)
    requires b == [9, next, c.length, c.typ, c.bar, c.id, c.padding.0, c.padding.1]
                  + WordBytes(c.offset) + WordBytes(c.size)
    requires c.offset < U32
    ensures |b| == 16 && CapOf(b) == Cap(9, next, c.typ, c.bar, c.offset)
  {
    hide WordBytes, LittleEndian;
    assert b[8..12] == WordBytes(c.offset);
    WordRead(c.offset);
  }

  /** What the code takes from an entry are that entry's fields. */
  lemma EntryRead(config: Config, e: Entry, next: byte)
    requires Fields(e) && var b := Bytes(e, next); config[e.at as nat..e.at as nat + |b|] == b
    ensures CapAt(config, e.at).next == next
    ensures match e
            case Virtio(at, c) =>
              && CapAt(config, at) == Cap(9, next, c.typ, c.bar, c.offset)
              && (c.typ == 2 ==> LittleEndian(config[at as nat + 16..at as nat + 20]) == c.multiplier)
            case Other(at, vndr) => CapAt(config, at).vndr == vndr
  {
    hide WordBytes, LittleEndian, CapOf;
    var at, b := e.at as nat, Bytes(e, next);
    match e
    case Virtio(_, c) =>
      Inside(config, at, b, 0, 16);
      assert b[0..16] == [9, next, c.length, c.typ, c.bar, c.id, c.padding.0, c.padding.1] + WordBytes(c.offset)
                         + WordBytes(c.size);
      VirtioRead(b[0..16], c, next);
      if c.typ == 2 {
        Inside(config, at, b, 16, 4);
        assert b[16..20] == WordBytes(c.multiplier);
        WordRead(c.multiplier);
      }
    case Other(_, vndr) =>
      OtherRead(config, at, vndr, next);
  }

  lemma {:induction false} HoldsChain(config: Config, list: seq<Entry>)
    requires Holds(config, list)
    ensures IsChain(config, NextAt(list), Offsets(list))
  {
    if list != [] {
      EntryRead(config, list[0], NextAt(list[1..]));
      HoldsChain(config, list[1..]);
      assert Offsets(list)[1..] == Offsets(list[1..]);
    }
  }

  /** Such a list is one that ends, with just these entries. */
  lemma ListFound(config: Config, list: seq<Entry>)
    requires Holds(config, list) && config[0x34] == NextAt(list)
    ensures Acyclic(config) && Follow(config, config[PCI_ADDR_CAP], {}).value == Offsets(list)
  {
    HoldsChain(config, list);
    FollowFinds(config, config[PCI_ADDR_CAP], {}, Offsets(list));
  }

  /** The last of virtio's entries of a type. */
  function LastEntry(list: seq<Entry>, typ: nat): Option<VirtioCap> {
    if list == [] then None
    else
      var e := list[|list| - 1];
      if e.Virtio? && e.cap.typ == typ then Some(e.cap) else LastEntry(list[..|list| - 1], typ)
  }

  predicate EntryHeld(config: Config, e: Entry) {
    match e
    case Virtio(at, c) =>
      var cap := CapAt(config, at);
      && cap.vndr == 9 && cap.typ == c.typ && cap.bar == c.bar && cap.offset == c.offset
      && (c.typ == 2 ==> LittleEndian(config[at as nat + 16..at as nat + 20]) == c.multiplier)
    case Other(at, _) => CapAt(config, at).vndr != 9
  }

  predicate EachRead(config: Config, list: seq<Entry>) {
    forall i :: 0 <= i < |list| ==> EntryHeld(config, list[i])
  }

  lemma HeldEntry(config: Config, e: Entry, next: byte)
    requires Fields(e) && var b := Bytes(e, next); config[e.at as nat..e.at as nat + |b|] == b
    ensures EntryHeld(config, e)
  {
    EntryRead(config, e, next);
  }

  lemma {:induction false} HoldsEach(config: Config, list: seq<Entry>)
    requires Holds(config, list)
    ensures EachRead(config, list)
  {
    hide EntryHeld;
    if list != [] {
      HeldEntry(config, list[0], NextAt(list[1..]));
      HoldsEach(config, list[1..]);
      forall i | 0 <= i < |list|
        ensures EntryHeld(config, list[i])
      {
        if i > 0 {
          assert list[i] == list[1..][i - 1];
        }
      }
    }
  }

  /** The code's last entry of a type is the list's, with its BAR, offset and multiplier. */
  predicate SameEntry(config: Config, last: Option<byte>, entry: Option<VirtioCap>, typ: nat) {
    match entry
    case None => last == None
    case Some(c) =>
      last.Some?
      && CapAt(config, last.value).bar == c.bar && CapAt(config, last.value).offset == c.offset
      && (typ == 2 ==> LittleEndian(config[last.value as nat + 16..last.value as nat + 20]) == c.multiplier)
  }

  lemma HeldMatches(config: Config, e: Entry, typ: nat)
    requires EntryHeld(config, e)
    ensures Matches(config, e.at, typ) <==> e.Virtio? && e.cap.typ == typ
    ensures e.Virtio? && e.cap.typ == typ ==> SameEntry(config, Some(e.at), Some(e.cap), typ)
  {
  }

  lemma LastOfSnoc(config: Config, front: seq<byte>, p: byte, typ: nat)
    ensures LastOf(config, front + [p], typ) == if Matches(config, p, typ) then Some(p) else LastOf(config, front, typ)
  {
    assert (front + [p])[..|front|] == front;
  }

  lemma Regrouped(a: seq<byte>, b: seq<byte>, c: seq<byte>)
    ensures a + (b + c) == a + b + c
  {
  }

  lemma {:induction false} OffsetsSnoc(list: seq<Entry>)
    requires list != []
    ensures Offsets(list) == Offsets(list[..|list| - 1]) + [list[|list| - 1].at]
  {
    var n := |list| - 1;
    if n == 0 {
      assert list[1..] == [];
    } else {
      var rest := list[1..];
      OffsetsSnoc(rest);
      assert rest[..n - 1] == list[..n][1..];
      Regrouped([list[0].at], Offsets(rest[..n - 1]), [list[n].at]);
    }
  }

  lemma NoneOf(config: Config, typ: nat)
    ensures LastOf(config, Offsets([]), typ) == None
  {
  }

  lemma {:induction false} LastIs(config: Config, list: seq<Entry>, typ: nat)
    requires EachRead(config, list)
    ensures SameEntry(config, LastOf(config, Offsets(list), typ), LastEntry(list, typ), typ)
  {
    hide EntryHeld, LastOf, Matches, Offsets;
    if list == [] {
      NoneOf(config, typ);
    } else {
      hide SameEntry;
      var front, e := list[..|list| - 1], list[|list| - 1];
      LastIs(config, front, typ);
      OffsetsSnoc(list);
      LastOfSnoc(config, Offsets(front), e.at, typ);
      HeldMatches(config, e, typ);
    }
  }

  /** Where a structure is: in its BAR, which is read as 64 bits from the register at 0x10 plus four for each
      BAR before it, without the four flag bits. */
  function Place(config: Config, c: VirtioCap): nat {
    var low, high := WordAt(config, 0x10 + 4 * c.bar), WordAt(config, 0x14 + 4 * c.bar);
    ((high * 4294967296 + low) / 16 * 16 + c.offset) % 18446744073709551616
  }

  function PlaceOr(config: Config, last: Option<VirtioCap>, prior: nat): nat {
    match last
    case None => prior
    case Some(c) => Place(config, c)
  }

  lemma StructureFound(config: Config, list: seq<Entry>, typ: nat, prior: nat)
    requires EachRead(config, list)
    ensures AddrOr(config, LastOf(config, Offsets(list), typ), prior) == PlaceOr(config, LastEntry(list, typ), prior)
    ensures typ == 2 ==>
              MultiplierOr(config, LastOf(config, Offsets(list), typ), prior)
              == match LastEntry(list, typ) case None => prior case Some(c) => c.multiplier
  {
    hide CfgAddr, LastOf, LastEntry;
    LastIs(config, list, typ);
    if LastEntry(list, typ).Some? {
      PlaceIs(config, CapAt(config, LastOf(config, Offsets(list), typ).value));
    }
  }

  /** virtio_pci_read_caps ends on such a list, and finds each structure where the last entry of its type says:
      type 1 is the common configuration, 2 the notifications, 3 the ISR status, 4 the device's own. */
  lemma StructuresFound(config: Config, list: seq<Entry>, was: Pointers)
    requires Holds(config, list) && config[0x34] == NextAt(list)
    ensures Acyclic(config)
    ensures var p := After(config, Follow(config, config[PCI_ADDR_CAP], {}).value, was);
            && p.common == PlaceOr(config, LastEntry(list, 1), was.common)
            && p.notify == PlaceOr(config, LastEntry(list, 2), was.notify)
            && p.isr == PlaceOr(config, LastEntry(list, 3), was.isr)
            && p.device == PlaceOr(config, LastEntry(list, 4), was.device)
            && p.multiplier == match LastEntry(list, 2) case None => was.multiplier case Some(c) => c.multiplier
  {
    hide CfgAddr, LastOf, LastEntry, Follow, EachRead, PlaceOr, AddrOr, MultiplierOr, Holds, IsChain;
    ListFound(config, list);
    HoldsEach(config, list);
    StructureFound(config, list, 1, was.common);
    StructureFound(config, list, 2, was.notify);
    StructureFound(config, list, 2, was.multiplier);
    StructureFound(config, list, 3, was.isr);
    StructureFound(config, list, 4, was.device);
  }
}
