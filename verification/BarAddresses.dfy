/**
 * What the BARs decode once pci.c has placed them, and what virtio-pci.c's get_cfg_addr makes of it.
 * A BAR keeps only the part of an address its size leaves it, and the window is dealt out in pages.
 */
module BarAddresses {
  import opened Basics
  import opened PciBars
  import opened PciCaps

  /** The addresses a BAR answers to, from its registers. */
  function Decoded(bars: seq<Bar>, regs: seq<nat>, b: nat): Grant
    requires |bars| == |regs| == 6 && b < 6 && Implemented(bars[b]) && (bars[b].Low64? ==> b < 5)
  {
    Grant(b, if bars[b].Low64? then AddressOf(regs[b], regs[b + 1]) else regs[b] / 16 * 16, bars[b].size)
  }

  /** The address is a multiple of the size, and a 32-bit BAR can hold it. */
  predicate Natural(bars: seq<Bar>, g: Grant) {
    && g.size > 0 && g.addr % g.size == 0
    && (g.bar < |bars| && bars[g.bar].Mem32? ==> g.addr < U32)
  }

  lemma FloorIs(a: nat, n: nat)
    requires n > 0
    ensures Floor(a, n) == a <==> a % n == 0
  {
  }

  lemma Decodes32(size: nat, attr: nat, addr: nat)
    requires Size32(size) && attr < 16 && addr % PAGE == 0
    ensures Kept(Mem32(size, attr), attr + addr % U32) / 16 * 16 == addr <==> addr < U32 && addr % size == 0
  {
    var lo := addr % U32;
    AlignedBy16(addr);
    FlagsBelow(attr, lo, size);
    AddressAboveFlags(0, Floor(lo, size), attr);
    FloorIs(lo, size);
    if addr < U32 {
      QuotientUnique(addr, U32, 0, addr);
    }
  }

  /** A BAR decodes what it was granted exactly if the grant is naturally aligned. */
  lemma DecodesExactly(bars: seq<Bar>, regs: seq<nat>, g: Grant)
    requires WellFormed(bars) && |regs| == 6 && g.bar < 6 && Implemented(bars[g.bar]) && bars[g.bar].size == g.size
    requires Placed(bars, regs, g) && g.addr % PAGE == 0 && g.addr < U64
    ensures bars[g.bar].Low64? ==> g.bar < 5
    ensures Decoded(bars, regs, g.bar) == g <==> Natural(bars, g)
  {
    assert WellFormedAt(bars, g.bar);
    match bars[g.bar]
    case Mem32(size, attr) => Decodes32(size, attr, g.addr);
    case Low64(size, attr) =>
      Size64By16(size);
      RetainedExactly(size, attr, g.addr);
    case _ =>
  }

  /** What pci_device_probe leaves in a function's BAR registers when the window stands at `off`. */
  predicate Probed(bars: seq<Bar>, regs: seq<nat>, off: nat) {
    && WellFormed(bars) && |regs| == 6 && off % PAGE == 0 && PCIE0_MMIO + PlanEnd(bars, 0, off) < U64
    && PlacedBelow(bars, regs, Plan(bars, 0, off), 6)
  }

  lemma ProbedGrant(bars: seq<Bar>, regs: seq<nat>, off: nat, g: Grant)
    requires Probed(bars, regs, off) && g in Plan(bars, 0, off)
    ensures g.bar < 6 && Implemented(bars[g.bar]) && bars[g.bar].size == g.size
    ensures Placed(bars, regs, g) && g.addr % PAGE == 0 && g.addr < U64
    ensures bars[g.bar].Low64? ==> g.bar < 5
    ensures Decoded(bars, regs, g.bar) == g <==> Natural(bars, g)
  {
    assert WellFormedAt(bars, 0);
    PlanSound(bars, 0, off);
    var plan := Plan(bars, 0, off);
    var k :| 0 <= k < |plan| && plan[k] == g;
    assert GrantOk(bars, 0, off, PlanEnd(bars, 0, off), plan[k]);
    assert WellFormedAt(bars, g.bar);
    DecodesExactly(bars, regs, g);
  }

  /** Every BAR decodes its grant. */
  predicate AllDecode(bars: seq<Bar>, regs: seq<nat>, plan: seq<Grant>) {
    |bars| == |regs| == 6 &&
    forall k :: 0 <= k < |plan| ==>
      var b := plan[k].bar;
      b < 6 && Implemented(bars[b]) && (bars[b].Low64? ==> b < 5) && Decoded(bars, regs, b) == plan[k]
  }

  /** After the probe every BAR decodes the interval it was granted if and only if every grant happens to
      be naturally aligned, and below 4 GiB for a 32-bit BAR. */
  lemma AllDecodeExactly(bars: seq<Bar>, regs: seq<nat>, off: nat)
    requires Probed(bars, regs, off)
    ensures var plan := Plan(bars, 0, off);
            AllDecode(bars, regs, plan) <==> forall k :: 0 <= k < |plan| ==> Natural(bars, plan[k])
  {
    var plan := Plan(bars, 0, off);
    forall k | 0 <= k < |plan|
      ensures plan[k].bar < 6 && Implemented(bars[plan[k].bar]) && (bars[plan[k].bar].Low64? ==> plan[k].bar < 5)
      ensures Decoded(bars, regs, plan[k].bar) == plan[k] <==> Natural(bars, plan[k])
    {
      ProbedGrant(bars, regs, off, plan[k]);
    }
  }

  lemma GrantOf(bars: seq<Bar>, off: nat, b: nat) returns (k: nat)
    requires WellFormed(bars) && off % PAGE == 0 && b < 6 && Implemented(bars[b])
    ensures k < |Plan(bars, 0, off)| && Plan(bars, 0, off)[k].bar == b
  {
    assert WellFormedAt(bars, 0);
    PlanSound(bars, 0, off);
    hide Plan, PlanEnd;
    k :| 0 <= k < |Plan(bars, 0, off)| && Plan(bars, 0, off)[k].bar == b;
  }

  lemma GrantsInOrder(bars: seq<Bar>, off: nat, k: nat, l: nat)
    requires WellFormed(bars) && off % PAGE == 0
    requires k < |Plan(bars, 0, off)| && l < |Plan(bars, 0, off)|
    requires Plan(bars, 0, off)[k].bar < Plan(bars, 0, off)[l].bar
    ensures Plan(bars, 0, off)[k].addr + Plan(bars, 0, off)[k].size <= Plan(bars, 0, off)[l].addr
  {
    hide Plan, PlanEnd, GrantOk, Covered;
    assert WellFormedAt(bars, 0);
    PlanSound(bars, 0, off);
    if k < l {
      assert Apart(Plan(bars, 0, off)[k], Plan(bars, 0, off)[l]);
    }
  }

  /** Then no two BARs answer to the same address. */
  lemma DecodedApart(bars: seq<Bar>, regs: seq<nat>, off: nat, b: nat, c: nat)
    requires Probed(bars, regs, off) && forall g :: g in Plan(bars, 0, off) ==> Natural(bars, g)
    requires b < c < 6 && Implemented(bars[b]) && Implemented(bars[c])
    ensures (bars[b].Low64? ==> b < 5) && (bars[c].Low64? ==> c < 5)
    ensures Decoded(bars, regs, b).addr + bars[b].size <= Decoded(bars, regs, c).addr
  {
    var k := GrantOf(bars, off, b);
    var l := GrantOf(bars, off, c);
    GrantsInOrder(bars, off, k, l);
    hide Plan, PlanEnd, PlacedBelow, Placed, WellFormed;
    ProbedGrant(bars, regs, off, Plan(bars, 0, off)[k]);
    ProbedGrant(bars, regs, off, Plan(bars, 0, off)[l]);
  }

  /** A 4 KiB BAR before a 16 KiB one. */
  predicate SmallThenLarge(bars: seq<Bar>) {
    && |bars| == 6 && bars[0] == Mem32(4096, 0) && bars[1] == Low64(0x4000, 4) && bars[2] == High64(0x4000)
    && bars[3] == Absent && bars[4] == Absent && bars[5] == Absent
  }

  /** What the probe leaves in its registers: the 16 KiB BAR has dropped bits 12 and 13. */
  predicate Overlapping(regs: seq<nat>) {
    |regs| == 6 && regs[0] == 0x4000_0000 && regs[1] == 0x4000_0004 && regs[2] == 0
  }

  lemma SmallThenLargePlan(bars: seq<Bar>)
    requires SmallThenLarge(bars)
    ensures Plan(bars, 0, 0) == [Grant(0, 0x4000_0000, 4096), Grant(1, 0x4000_1000, 0x4000)]
    ensures PlanEnd(bars, 0, 0) == 0x5000
  {
    PlanStep(bars, 0, 0);
    PlanStep(bars, 1, 4096);
    PlanStep(bars, 3, 0x5000);
    PlanStep(bars, 4, 0x5000);
    PlanStep(bars, 5, 0x5000);
    hide Plan, PlanEnd;
    PlanIsDone(bars, 6, 0x5000);
  }

  lemma SmallThenLargePlaced(bars: seq<Bar>, regs: seq<nat>)
    requires SmallThenLarge(bars) && Overlapping(regs)
    ensures Placed(bars, regs, Grant(0, 0x4000_0000, 4096))
    ensures Placed(bars, regs, Grant(1, 0x4000_1000, 0x4000))
  {
    hide Floor;
    FloorOf(0x4000_0000, 4096, 0x4_0000, 0);
    FloorOf(0x4000_1004, 0x4000, 0x1_0000, 0x1004);
    FloorOf(0, 1, 0, 0);
  }

  lemma SmallThenLargeFormed(bars: seq<Bar>)
    requires SmallThenLarge(bars)
    ensures WellFormed(bars)
  {
    assert Size32(4096);
    assert Size32(0x4000);
    hide Size32;
    assert forall i :: 0 <= i < 6 ==> WellFormedAt(bars, i);
  }

  lemma SmallThenLargeDecodes(bars: seq<Bar>, regs: seq<nat>)
    requires SmallThenLarge(bars) && Overlapping(regs)
    ensures Decoded(bars, regs, 0) == Grant(0, 0x4000_0000, 4096)
    ensures Decoded(bars, regs, 1) == Grant(1, 0x4000_0000, 0x4000)
  {
    QuotientUnique(0x4000_0000, 16, 0x400_0000, 0);
    QuotientUnique(0x4000_0004, 16, 0x400_0000, 4);
  }

  /** The grants are apart, and the BARs answer to the same addresses. */
  lemma GrantsApartBarsNot(bars: seq<Bar>, regs: seq<nat>)
    requires SmallThenLarge(bars) && Overlapping(regs)
    ensures Probed(bars, regs, 0)
    ensures Plan(bars, 0, 0) == [Grant(0, 0x4000_0000, 4096), Grant(1, 0x4000_1000, 0x4000)]
    ensures Decoded(bars, regs, 0) == Grant(0, 0x4000_0000, 4096)
    ensures Decoded(bars, regs, 1) == Grant(1, 0x4000_0000, 0x4000)
  {
    hide Plan, PlanEnd, Placed, WellFormed, Decoded;
    SmallThenLargePlan(bars);
    SmallThenLargePlaced(bars, regs);
    SmallThenLargeFormed(bars);
    SmallThenLargeDecodes(bars, regs);
  }

  // ---------------------------------------------------------------- get_cfg_addr

  /** The BAR registers as the configuration space shows them: six words from 0x10 on. */
  predicate Shows(config: Config, bar: byte, low: nat, high: nat) {
    WordAt(config, 0x10 + 4 * bar) == low && WordAt(config, 0x14 + 4 * bar) == high
  }

  lemma CfgAddrDecodes(config: Config, cap: Cap, low: nat, high: nat)
    requires cap.bar < 256 && Shows(config, cap.bar, low, high)
    ensures CfgAddr(config, cap) == (AddressOf(low, high) + cap.offset) % U64 && AddressOf(low, high) < U64
  {
    PlaceIs(config, cap);
  }

  lemma SumsDiffer(a: nat, b: nat, n: nat)
    requires a < U64 && b < U64
    ensures (a + n) % U64 == (b + n) % U64 <==> a == b
  {
    var p, q := (a + n) / U64, (b + n) / U64;
    if (a + n) % U64 == (b + n) % U64 {
      assert a - b == (p - q) * U64;
    }
  }

  /** Through a 64-bit BAR get_cfg_addr returns the address granted plus the capability's offset if and
      only if the grant is naturally aligned. */
  lemma CfgAddrExactly(config: Config, cap: Cap, bars: seq<Bar>, regs: seq<nat>, off: nat, g: Grant)
    requires Probed(bars, regs, off) && g in Plan(bars, 0, off) && g.bar < 5 && bars[g.bar].Low64?
    requires cap.bar == g.bar && Shows(config, g.bar, regs[g.bar], regs[g.bar + 1])
    ensures g.size > 0 && (CfgAddr(config, cap) == (g.addr + cap.offset) % U64 <==> g.addr % g.size == 0)
  {
    hide Plan, PlanEnd, PlacedBelow, Placed, CfgAddr, AddressOf, LittleEndian, Shows;
    ProbedGrant(bars, regs, off, g);
    CfgAddrDecodes(config, cap, regs[g.bar], regs[g.bar + 1]);
    SumsDiffer(AddressOf(regs[g.bar], regs[g.bar + 1]), g.addr, cap.offset);
    assert WellFormedAt(bars, g.bar);
    Size64By16(g.size);
  }

  /** Through a 32-bit BAR it reads the neighbouring register as the upper half of the address, so that one
      has to hold it: 0 for a grant below 4 GiB. */
  lemma CfgAddr32Exactly(config: Config, cap: Cap, bars: seq<Bar>, regs: seq<nat>, off: nat, g: Grant, neighbour: nat)
    requires Probed(bars, regs, off) && g in Plan(bars, 0, off) && g.bar < 6 && bars[g.bar].Mem32?
    requires cap.bar == g.bar && Shows(config, g.bar, regs[g.bar], neighbour)
    ensures g.size > 0
    ensures CfgAddr(config, cap) == (g.addr + cap.offset) % U64
            <==> neighbour == g.addr / U32 && g.addr % g.size == 0
  {
    hide Plan, PlanEnd, PlacedBelow, CfgAddr, AddressOf, LittleEndian, Shows, Floor, Kept;
    ProbedGrant(bars, regs, off, g);
    CfgAddrDecodes(config, cap, regs[g.bar], neighbour);
    SumsDiffer(AddressOf(regs[g.bar], neighbour), g.addr, cap.offset);
    assert WellFormedAt(bars, g.bar);
    Retained32Exactly(g.size, bars[g.bar].attr, g.addr, neighbour);
  }

  /** So virtio_pci_read_caps finds the structure of a type inside the BAR its last capability names. */
  lemma ReadCapsFinds(config: Config, chain: seq<byte>, typ: nat, prior: nat, p: byte, bars: seq<Bar>, regs: seq<nat>,
                      off: nat, g: Grant, high: nat)
    requires LastOf(config, chain, typ) == Some(p)
    requires Probed(bars, regs, off) && g in Plan(bars, 0, off) && g.size > 0 && g.addr % g.size == 0
    requires if g.bar < 5 && bars[g.bar].Low64? then high == regs[g.bar + 1]
             else g.bar < 6 && bars[g.bar].Mem32? && high == g.addr / U32
    requires CapAt(config, p).bar == g.bar && Shows(config, g.bar, regs[g.bar], high)
    requires g.addr + CapAt(config, p).offset < U64
    ensures AddrOr(config, LastOf(config, chain, typ), prior) == g.addr + CapAt(config, p).offset
  {
    hide Plan, PlanEnd, PlacedBelow, Placed, CfgAddr, AddressOf, LastOf, Shows, LittleEndian, WellFormedAt;
    if bars[g.bar].Low64? {
      CfgAddrExactly(config, CapAt(config, p), bars, regs, off, g);
    } else {
      CfgAddr32Exactly(config, CapAt(config, p), bars, regs, off, g, high);
    }
  }
}
