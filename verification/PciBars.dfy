/** pci.c: finding out how large each BAR is and giving it a place in the MMIO window. */
module PciBars {
  import opened Basics

  const PCIE0_MMIO: nat := 0x4000_0000

  /** What a function implements behind each of its six BAR registers. `attr` is the low flag bits. */
  datatype Bar = Absent | Io | Mem32(size: nat, attr: nat) | Low64(size: nat, attr: nat) | High64(size: nat)

  /** Sizes are the powers of two from 16 up: those that divide the address space. */
  predicate Size32(n: nat) { 16 <= n < U32 && n % 16 == 0 && U32 % n == 0 }
  predicate Size64(n: nat) { Size32(n) || (n % U32 == 0 && 0 < n < U64 && U32 % (n / U32) == 0) }

  predicate WellFormedAt(bars: seq<Bar>, i: nat)
    requires i < |bars| == 6
  {
    match bars[i]
    case Mem32(size, attr) => Size32(size) && (attr == 0 || attr == 8)
    case Low64(size, attr) => Size64(size) && (attr == 4 || attr == 12) && i < 5 && bars[i + 1] == High64(size)
    case High64(size) => i > 0 && bars[i - 1].Low64? && bars[i - 1].size == size
    case _ => true
  }

  predicate WellFormed(bars: seq<Bar>) {
    |bars| == 6 && forall i :: 0 <= i < 6 ==> WellFormedAt(bars, i)
  }

  /** The part of an address that the low and high register of a BAR of this size can hold. */
  function LowUnit(size: nat): (m: nat) ensures m > 0 { if 0 < size < U32 then size else U32 }
  function HighUnit(size: nat): (m: nat) ensures m > 0 { if size >= U32 then size / U32 else 1 }

  /** `v` rounded down to a multiple of `m`. */
  function Floor(v: nat, m: nat): (r: nat)
    requires m > 0
    ensures r <= v < r + m
  {
    ModAtMost(v, m);
    v - v % m
  }

  /** What the register keeps of a value written to it. */
  function Kept(bar: Bar, v: nat): nat {
    match bar
    case Absent => 0
    case Io => v / 4 * 4 + 1
    case Mem32(size, attr) => Floor(v, LowUnit(size)) + attr
    case Low64(size, attr) => Floor(v, LowUnit(size)) + attr
    case High64(size) => Floor(v, HighUnit(size))
  }

  /** A register as it can be found: unimplemented ones read 0, the others show their flags. */
  predicate Plausible(bar: Bar, v: nat) {
    v < U32 &&
    match bar
    case Absent => v == 0
    case Io => v % 4 == 1
    case Mem32(_, attr) => v % 16 == attr
    case Low64(_, attr) => v % 16 == attr
    case High64(_) => true
  }

  // ---------------------------------------------------------------- sizing

  function Complement32(v: nat): nat { (U32 - v % U32) % U32 }
  function Complement64(v: nat): nat { (U64 - v % U64) % U64 }

  /** Writing ones and reading back, as the code computes it: flags masked, two's complement. */
  function Sized32(bar: Bar): nat {
    Complement32(Kept(bar, U32 - 1) / 16 * 16)
  }

  function SizeRead64(low: nat, high: nat): nat { Complement64((high * U32 + low) / 16 * 16) }

  function Sized64(low: Bar, high: Bar): nat {
    SizeRead64(Kept(low, U32 - 1), Kept(high, U32 - 1))
  }

  lemma FloorBelow(a: nat, n: nat)
    requires 0 < n <= a && a % n == 0
    ensures Floor(a - 1, n) == a - n
  {
    var k := a / n;
    assert a == k * n;
    assert a - 1 == (k - 1) * n + (n - 1);
    QuotientUnique(a - 1, n, k - 1, n - 1);
  }

  lemma MaskFlags(n: nat, attr: nat)
    requires n % 16 == 0 && attr < 16
    ensures (n + attr) / 16 * 16 == n
  {
  }

  lemma Size32Recovered(size: nat, attr: nat)
    requires Size32(size) && attr < 16
    ensures Sized32(Mem32(size, attr)) == size
  {
    FloorBelow(U32, size);
    assert (U32 - size) % 16 == 0;
    hide Floor;
    MaskFlags(U32 - size, attr);
    QuotientUnique(U32 - size, U32, 0, U32 - size);
  }

  /** What the two halves of a 64-bit BAR read after all ones are written. */
  lemma OnesKept(size: nat, attr: nat)
    requires Size64(size) && attr < 16
    ensures Kept(High64(size), U32 - 1) * U32 + Kept(Low64(size, attr), U32 - 1) == U64 - size + attr
  {
    if size < U32 {
      FloorBelow(U32, size);
    } else {
      var m := size / U32;
      assert size == m * U32;
      FloorBelow(U32, m);
      QuotientUnique(U32 - 1, U32, 0, U32 - 1);
    }
  }

  lemma Size64By16(size: nat)
    requires Size64(size)
    ensures size % 16 == 0 && 0 < size < U64
  {
    if size >= U32 {
      var m := size / U32;
      assert size == (m * 0x1000_0000) * 16;
    }
  }

  lemma MaskAndNegate(size: nat, attr: nat)
    requires size % 16 == 0 && 0 < size < U64 && attr < 16
    ensures Complement64((U64 - size + attr) / 16 * 16) == size
  {
    var k := size / 16;
    assert U64 - size + attr == (U64 / 16 - k) * 16 + attr;
    assert (U64 - size + attr) / 16 == U64 / 16 - k;
  }

  lemma Size64Recovered(size: nat, attr: nat)
    requires Size64(size) && attr < 16
    ensures Sized64(Low64(size, attr), High64(size)) == size
  {
    Size64By16(size);
    OnesKept(size, attr);
    MaskAndNegate(size, attr);
  }

  // ---------------------------------------------------------------- the plan of the window

  /** BAR `bar` has the `size` bytes from `addr` on. */
  datatype Grant = Grant(bar: nat, addr: nat, size: nat)

  /** The grants for BARs `i` to 5 when the window is used up to `off`, and where that leaves it. */
  function Plan(bars: seq<Bar>, i: nat, off: nat): seq<Grant>
    decreases 6 - i
  {
    if i >= 6 || |bars| != 6 then []
    else match bars[i]
      case Mem32(size, _) => [Grant(i, PCIE0_MMIO + off, size)] + Plan(bars, i + 1, off + PageAlign(size))
      case Low64(size, _) => [Grant(i, PCIE0_MMIO + off, size)] + Plan(bars, i + 2, off + PageAlign(size))
      case _ => Plan(bars, i + 1, off)
  }

  function PlanEnd(bars: seq<Bar>, i: nat, off: nat): (end: nat)
    ensures end >= off
    decreases 6 - i
  {
    if i >= 6 || |bars| != 6 then off
    else match bars[i]
      case Mem32(size, _) => PlanEnd(bars, i + 1, off + PageAlign(size))
      case Low64(size, _) => PlanEnd(bars, i + 2, off + PageAlign(size))
      case _ => PlanEnd(bars, i + 1, off)
  }

  lemma HighFollowsLow(bars: seq<Bar>, i: nat)
    requires WellFormed(bars) && 0 < i < 6
    ensures bars[i].High64? ==> bars[i - 1].Low64?
  {
    assert WellFormedAt(bars, i);
  }

  predicate Implemented(b: Bar) { b.Mem32? || b.Low64? }

  predicate GrantOk(bars: seq<Bar>, i: nat, off: nat, end: nat, g: Grant)
    requires |bars| == 6
  {
    && i <= g.bar < 6 && Implemented(bars[g.bar]) && bars[g.bar].size == g.size
    && g.addr % PAGE == 0 && PCIE0_MMIO + off <= g.addr && g.addr + g.size <= PCIE0_MMIO + end
  }

  predicate Apart(g: Grant, h: Grant) { g.bar < h.bar && g.addr + g.size <= h.addr }

  /** Every implemented BAR from `i` on has a grant. */
  predicate Covered(bars: seq<Bar>, i: nat, plan: seq<Grant>)
    requires |bars| == 6
  {
    forall b :: i <= b < 6 && Implemented(bars[b]) ==> exists k :: 0 <= k < |plan| && plan[k].bar == b
  }

  /** Page-aligned grants inside `off` to `end` of the window, apart, one for each implemented BAR
      from `i` on. */
  predicate Sound(bars: seq<Bar>, i: nat, off: nat, plan: seq<Grant>, end: nat)
    requires |bars| == 6
  {
    && end % PAGE == 0 && off <= end
    && (forall k :: 0 <= k < |plan| ==> GrantOk(bars, i, off, end, plan[k]))
    && (forall k, l :: 0 <= k < l < |plan| ==> Apart(plan[k], plan[l]))
    && Covered(bars, i, plan)
  }

  lemma CoveredCons(bars: seq<Bar>, i: nat, j: nat, g: Grant, rest: seq<Grant>)
    requires |bars| == 6 && i < 6 && g.bar == i && Covered(bars, j, rest)
    requires j == i + 1 || (j == i + 2 && i + 1 < 6 && bars[i + 1].High64?)
    ensures Covered(bars, i, [g] + rest)
  {
    var plan := [g] + rest;
    forall b | i <= b < 6 && Implemented(bars[b])
      ensures exists k :: 0 <= k < |plan| && plan[k].bar == b
    {
      if b == i {
        assert plan[0].bar == b;
      } else {
        var k :| 0 <= k < |rest| && rest[k].bar == b;
        assert plan[k + 1].bar == b;
      }
    }
  }

  lemma SoundCons(bars: seq<Bar>, i: nat, j: nat, off: nat, rest: seq<Grant>, end: nat)
    requires |bars| == 6 && i < 6 && Implemented(bars[i]) && off % PAGE == 0
    requires j == i + 1 || (j == i + 2 && i + 1 < 6 && bars[i + 1].High64?)
    requires Sound(bars, j, off + PageAlign(bars[i].size), rest, end)
    ensures Sound(bars, i, off, [Grant(i, PCIE0_MMIO + off, bars[i].size)] + rest, end)
  {
    var g := Grant(i, PCIE0_MMIO + off, bars[i].size);
    assert GrantOk(bars, i, off, end, g);
    forall k | 0 <= k < |rest|
      ensures GrantOk(bars, i, off, end, rest[k]) && Apart(g, rest[k])
    {
      assert GrantOk(bars, j, off + PageAlign(bars[i].size), end, rest[k]);
    }
    CoveredCons(bars, i, j, g, rest);
  }

  lemma SoundSkip(bars: seq<Bar>, i: nat, off: nat, plan: seq<Grant>, end: nat)
    requires |bars| == 6 && i < 6 && !Implemented(bars[i])
    requires Sound(bars, i + 1, off, plan, end)
    ensures Sound(bars, i, off, plan, end)
  {
    forall k | 0 <= k < |plan|
      ensures GrantOk(bars, i, off, end, plan[k])
    {
      assert GrantOk(bars, i + 1, off, end, plan[k]);
    }
  }

  function NextBar(bars: seq<Bar>, i: nat): nat
    requires i < |bars|
  {
    if bars[i].Low64? then i + 2 else i + 1
  }

  function NextOff(bars: seq<Bar>, i: nat, off: nat): nat
    requires i < |bars|
  {
    if Implemented(bars[i]) then off + PageAlign(bars[i].size) else off
  }

  lemma PlanStep(bars: seq<Bar>, i: nat, off: nat)
    requires |bars| == 6 && i < 6
    ensures var rest := Plan(bars, NextBar(bars, i), NextOff(bars, i, off));
            Plan(bars, i, off)
            == if Implemented(bars[i]) then [Grant(i, PCIE0_MMIO + off, bars[i].size)] + rest else rest
    ensures PlanEnd(bars, i, off) == PlanEnd(bars, NextBar(bars, i), NextOff(bars, i, off))
  {
  }

  lemma PlanIsDone(bars: seq<Bar>, i: nat, off: nat)
    requires i >= 6
    ensures Plan(bars, i, off) == [] && PlanEnd(bars, i, off) == off
  {
  }

  lemma NextBarIsNotHigh(bars: seq<Bar>, i: nat)
    requires WellFormed(bars) && i < 6
    ensures var j := NextBar(bars, i);
            && (j < 6 ==> !bars[j].High64?)
            && (j == i + 2 ==> i + 1 < 6 && bars[i + 1].High64?)
  {
    assert WellFormedAt(bars, i);
    if NextBar(bars, i) < 6 {
      HighFollowsLow(bars, NextBar(bars, i));
    }
  }

  lemma {:induction false} PlanSound(bars: seq<Bar>, i: nat, off: nat)
    requires WellFormed(bars) && off % PAGE == 0
    requires i < 6 ==> !bars[i].High64?
    ensures Sound(bars, i, off, Plan(bars, i, off), PlanEnd(bars, i, off))
    decreases 6 - i
  {
    if i < 6 {
      var j, from := NextBar(bars, i), NextOff(bars, i, off);
      NextBarIsNotHigh(bars, i);
      PlanSound(bars, j, from);
      PlanStep(bars, i, off);
      if Implemented(bars[i]) {
        SoundCons(bars, i, j, off, Plan(bars, j, from), PlanEnd(bars, j, from));
      } else {
        SoundSkip(bars, i, off, Plan(bars, j, from), PlanEnd(bars, j, from));
      }
    }
  }

  // ---------------------------------------------------------------- what a BAR retains

  /** get_cfg_addr's view of a 64-bit BAR. */
  function AddressOf(low: nat, high: nat): nat { (high * U32 + low) / 16 * 16 }

  lemma FloorShift(base: nat, v: nat, n: nat)
    requires n > 0 && base % n == 0
    ensures Floor(base + v, n) == base + Floor(v, n)
  {
    var k := base / n;
    assert base == k * n;
    var q, r := v / n, v % n;
    assert v == q * n + r;
    assert base + v == (k + q) * n + r;
    QuotientUnique(base + v, n, k + q, r);
  }

  lemma Parts(x: nat, n: nat) returns (q: nat, r: nat)
    requires n > 0
    ensures q == x / n && r == x % n && r < n && x == q * n + r && Floor(x, n) == q * n
  {
    q, r := x / n, x % n;
  }

  /** The remainder of a multiple of 16 by a multiple of 16 leaves room for the flag bits. */
  lemma RemainderBy16(x: nat, q: nat, n: nat, r: nat)
    requires x % 16 == 0 && n % 16 == 0 && x == q * n + r
    ensures r % 16 == 0 && q * n % 16 == 0
  {
    var k := n / 16;
    assert q * n == (q * k) * 16;
  }

  lemma RoomForFlags(r: nat, size: nat, attr: nat)
    requires r < size && r % 16 == 0 && size % 16 == 0 && attr < 16
    ensures r + attr < size
  {
  }

  lemma FloorOf(x: nat, n: nat, q: nat, r: nat)
    requires r < n && x == q * n + r
    ensures Floor(x, n) == q * n
  {
    QuotientUnique(x, n, q, r);
  }

  /** The flag bits do not reach the address part of a register. */
  lemma FlagsBelow(attr: nat, lo: nat, size: nat)
    requires size > 0 && size % 16 == 0 && lo % 16 == 0 && attr < 16
    ensures Floor(attr + lo, size) == Floor(lo, size) && Floor(lo, size) % 16 == 0
  {
    hide Floor;
    var q, r := Parts(lo, size);
    RemainderBy16(lo, q, size, r);
    RoomForFlags(r, size, attr);
    FloorOf(attr + lo, size, q, attr + r);
  }

  lemma MultipleOf32Bits(hi: nat, size: nat)
    requires size > 0 && U32 % size == 0
    ensures hi * U32 % size == 0
  {
    var k, r := Parts(U32, size);
    assert hi * U32 == (hi * k) * size;
    QuotientUnique(hi * U32, size, hi * k, 0);
  }

  lemma AddressAboveFlags(high: nat, low: nat, attr: nat)
    requires low % 16 == 0 && attr < 16
    ensures AddressOf(low + attr, high) == high * U32 + low
  {
    var k := low / 16;
    assert high * U32 + (low + attr) == (high * 0x1000_0000 + k) * 16 + attr;
    QuotientUnique(high * U32 + (low + attr), 16, high * 0x1000_0000 + k, attr);
  }

  lemma KeptSmall(size: nat, attr: nat, hi: nat, lo: nat)
    requires Size32(size) && attr < 16 && lo % 16 == 0
    ensures Kept(Low64(size, attr), attr + lo) == Floor(lo, size) + attr && Kept(High64(size), hi) == hi
  {
    FlagsBelow(attr, lo, size);
    QuotientUnique(hi, 1, hi, 0);
  }

  lemma RetainedSmall(size: nat, attr: nat, hi: nat, lo: nat)
    requires Size32(size) && attr < 16 && lo % 16 == 0
    ensures AddressOf(Kept(Low64(size, attr), attr + lo), Kept(High64(size), hi)) == Floor(hi * U32 + lo, size)
  {
    KeptSmall(size, attr, hi, lo);
    var base := hi * U32;
    assert Floor(base + lo, size) == base + Floor(lo, size) by {
      MultipleOf32Bits(hi, size);
      FloorShift(base, lo, size);
    }
    assert AddressOf(Floor(lo, size) + attr, hi) == base + Floor(lo, size) by {
      FlagsBelow(attr, lo, size);
      AddressAboveFlags(hi, Floor(lo, size), attr);
    }
  }

  lemma FloorLarge(m: nat, hi: nat, lo: nat)
    requires 0 < m && lo < U32
    ensures Floor(hi * U32 + lo, m * U32) == Floor(hi, m) * U32
  {
    var q, r := Parts(hi, m);
    assert hi * U32 + lo == q * (m * U32) + (r * U32 + lo);
    QuotientUnique(hi * U32 + lo, m * U32, q, r * U32 + lo);
  }

  lemma RetainedLarge(m: nat, attr: nat, hi: nat, lo: nat)
    requires 0 < m && attr < 16 && attr + lo < U32
    ensures AddressOf(Kept(Low64(m * U32, attr), attr + lo), Kept(High64(m * U32), hi)) == Floor(hi * U32 + lo, m * U32)
  {
    QuotientUnique(attr + lo, U32, 0, attr + lo);
    QuotientUnique(m * U32, U32, m, 0);
    AddressAboveFlags(Floor(hi, m), 0, attr);
    FloorLarge(m, hi, lo);
  }

  lemma PageParts(addr: nat) returns (hi: nat, lo: nat)
    requires addr % PAGE == 0
    ensures hi == addr / U32 && lo == addr % U32 && addr == hi * U32 + lo && lo % 16 == 0 && lo + 16 <= U32
  {
    var a := addr / PAGE;
    hi, lo := addr / U32, addr % U32;
    assert addr == a * PAGE;
    assert lo == 16 * (256 * a - 0x1000_0000 * hi);
  }

  lemma RetainedFloor(size: nat, attr: nat, addr: nat)
    requires Size64(size) && attr < 16 && addr % PAGE == 0 && addr < U64
    ensures AddressOf(Kept(Low64(size, attr), attr + addr % U32), Kept(High64(size), addr / U32)) == Floor(addr, size)
  {
    var hi, lo := PageParts(addr);
    if size < U32 {
      RetainedSmall(size, attr, hi, lo);
    } else {
      var m := size / U32;
      assert size == m * U32;
      RetainedLarge(m, attr, hi, lo);
    }
  }

  /** A 64-bit BAR that is written a page-aligned address reads back that address exactly when the
      address is naturally aligned for the BAR's size. */
  lemma RetainedExactly(size: nat, attr: nat, addr: nat)
    requires Size64(size) && attr < 16 && addr % PAGE == 0 && addr < U64
    ensures var low, high := Kept(Low64(size, attr), attr + addr % U32), Kept(High64(size), addr / U32);
            AddressOf(low, high) == addr <==> addr % size == 0
  {
    RetainedFloor(size, attr, addr);
  }

  lemma AlignedBy16(addr: nat)
    requires addr % PAGE == 0
    ensures addr % 16 == 0 && addr % U32 % 16 == 0
  {
    var hi, lo := PageParts(addr);
    var a := addr / PAGE;
    QuotientUnique(addr, 16, 256 * a, 0);
  }

  /** The neighbour has to hold the upper half, and the lower one has to be kept. */
  lemma BothHalves(size: nat, addr: nat, neighbour: nat)
    requires Size32(size)
    ensures neighbour * U32 + Floor(addr % U32, size) == addr <==> neighbour == addr / U32 && addr % size == 0
  {
    var hi, lo := addr / U32, addr % U32;
    assert addr == hi * U32 + lo;
    MultipleOf32Bits(hi, size);
    FloorShift(hi * U32, lo, size);
    assert Floor(addr, size) == addr <==> addr % size == 0;
    if neighbour * U32 + Floor(lo, size) == addr {
      QuotientUnique(addr, U32, neighbour, Floor(lo, size));
    }
  }

  /** Read through the same 64-bit view, a 32-bit BAR also needs a neighbour that holds the upper half of the
      address, which is 0 below 4 GiB. */
  lemma Retained32Exactly(size: nat, attr: nat, addr: nat, neighbour: nat)
    requires Size32(size) && attr < 16 && addr % PAGE == 0
    ensures AddressOf(Kept(Mem32(size, attr), attr + addr % U32), neighbour) == addr
            <==> neighbour == addr / U32 && addr % size == 0
  {
    hide Floor;
    AlignedBy16(addr);
    FlagsBelow(attr, addr % U32, size);
    AddressAboveFlags(neighbour, Floor(addr % U32, size), attr);
    BothHalves(size, addr, neighbour);
  }

  /** Whatever its place in the window, a BAR of at most a page retains its address. */
  lemma SmallBarsRetain(size: nat, attr: nat, addr: nat)
    requires Size32(size) && size <= PAGE && PAGE % size == 0 && attr < 16 && addr % PAGE == 0 && addr < U64
    ensures AddressOf(Kept(Low64(size, attr), attr + addr % U32), Kept(High64(size), addr / U32)) == addr
  {
    var a, k := addr / PAGE, PAGE / size;
    assert addr == (a * k) * size;
    QuotientUnique(addr, size, a * k, 0);
    RetainedExactly(size, attr, addr);
  }

  // ---------------------------------------------------------------- the code

  /** The registers hold what writing the granted address leaves. */
  predicate Placed(bars: seq<Bar>, regs: seq<nat>, g: Grant)
    requires |bars| == |regs| == 6 && g.bar < 6
  {
    match bars[g.bar]
    case Mem32(_, attr) => regs[g.bar] == Kept(bars[g.bar], attr + g.addr % U32)
    case Low64(_, attr) =>
      && regs[g.bar] == Kept(bars[g.bar], attr + g.addr % U32)
      && g.bar < 5 && regs[g.bar + 1] == Kept(bars[g.bar + 1], g.addr / U32)
    case _ => false
  }

  predicate PlausibleFrom(bars: seq<Bar>, regs: seq<nat>, n: nat)
    requires |bars| == |regs| == 6
  {
    forall i :: n <= i < 6 ==> Plausible(bars[i], regs[i])
  }

  /** The registers that are given no address. */
  predicate OthersPlausible(bars: seq<Bar>, regs: seq<nat>)
    requires |bars| == |regs| == 6
  {
    forall i :: 0 <= i < 6 && (bars[i].Absent? || bars[i].Io?) ==> Plausible(bars[i], regs[i])
  }

  lemma LowBits(v: nat, q: nat, c: nat)
    requires v == 16 * q + 4 * c && c < 4
    ensures v % 2 == 0 && v / 4 % 2 == c % 2
  {
    QuotientUnique(v, 2, 8 * q + 2 * c, 0);
    QuotientUnique(v, 4, 4 * q + c, 0);
    QuotientUnique(4 * q + c, 2, 2 * q + c / 2, c % 2);
  }

  /** The flag bits tell the kinds apart. */
  lemma FlagBits(b: Bar, v: nat)
    requires Plausible(b, v) && !b.High64?
    requires b.Mem32? ==> b.attr == 0 || b.attr == 8
    requires b.Low64? ==> b.attr == 4 || b.attr == 12
    ensures v % 2 == 1 <==> b.Io?
    ensures !b.Io? ==> (v / 4 % 2 == 1 <==> b.Low64?)
  {
    if b.Mem32? || b.Low64? {
      LowBits(v, v / 16, b.attr / 4);
    } else if b.Io? {
      QuotientUnique(v, 2, 2 * (v / 4), 1);
    }
  }

  predicate PlacedBelow(bars: seq<Bar>, regs: seq<nat>, done: seq<Grant>, i: nat)
    requires |bars| == |regs| == 6
  {
    forall k :: 0 <= k < |done| ==>
      && done[k].bar < i && done[k].bar < 6 && Placed(bars, regs, done[k])
      && (bars[done[k].bar].Low64? ==> done[k].bar + 1 < i)
  }

  /** What the low register keeps still shows the flags, and fits. */
  lemma KeptPlausible(unit: nat, lo: nat, attr: nat)
    requires unit > 0 && unit % 16 == 0 && lo % 16 == 0 && lo < U32 && attr < 16
    ensures (Floor(attr + lo, unit) + attr) % 16 == attr && Floor(attr + lo, unit) + attr < U32
  {
    FlagsBelow(attr, lo, unit);
    var k := Floor(lo, unit) / 16;
    QuotientUnique(Floor(lo, unit) + attr, 16, k, attr);
  }

  lemma PlacedPlausible(bars: seq<Bar>, regs: seq<nat>, g: Grant)
    requires WellFormed(bars) && |regs| == 6 && g.bar < 6 && Implemented(bars[g.bar])
    requires g.addr % PAGE == 0 && g.addr < U64 && Placed(bars, regs, g)
    ensures Plausible(bars[g.bar], regs[g.bar])
    ensures bars[g.bar].Low64? ==> g.bar < 5 && Plausible(bars[g.bar + 1], regs[g.bar + 1])
  {
    hide Floor;
    assert WellFormedAt(bars, g.bar);
    AlignedBy16(g.addr);
    Size64By16(bars[g.bar].size);
    KeptPlausible(LowUnit(bars[g.bar].size), g.addr % U32, bars[g.bar].attr);
  }

  /** A function that has been probed can be probed again. */
  lemma PlacedAllPlausible(bars: seq<Bar>, regs: seq<nat>, off: nat)
    requires WellFormed(bars) && |regs| == 6 && off % PAGE == 0 && PCIE0_MMIO + PlanEnd(bars, 0, off) < U64
    requires PlacedBelow(bars, regs, Plan(bars, 0, off), 6) && OthersPlausible(bars, regs)
    ensures PlausibleFrom(bars, regs, 0)
  {
    hide Plan, PlanEnd, Placed, Plausible;
    assert WellFormedAt(bars, 0);
    PlanSound(bars, 0, off);
    var plan := Plan(bars, 0, off);
    forall i | 0 <= i < 6
      ensures Plausible(bars[i], regs[i])
    {
      assert WellFormedAt(bars, i);
      var b := if bars[i].High64? then i - 1 else i;
      if Implemented(bars[b]) {
        var k :| 0 <= k < |plan| && plan[k].bar == b;
        assert GrantOk(bars, 0, off, PlanEnd(bars, 0, off), plan[k]);
        PlacedPlausible(bars, regs, plan[k]);
      }
    }
  }

  /** The grants so far stay placed, and BAR `i`'s joins them. */
  lemma Extend(bars: seq<Bar>, regs: seq<nat>, regs': seq<nat>, done: seq<Grant>, i: nat, off: nat)
    returns (more: seq<Grant>)
    requires WellFormed(bars) && |regs| == |regs'| == 6 && i < 6
    requires PlacedBelow(bars, regs, done, i) && forall j :: 0 <= j < i ==> regs'[j] == regs[j]
    requires Implemented(bars[i]) ==> Placed(bars, regs', Grant(i, PCIE0_MMIO + off, bars[i].size))
    ensures PlacedBelow(bars, regs', more, NextBar(bars, i))
    ensures more + Plan(bars, NextBar(bars, i), NextOff(bars, i, off)) == done + Plan(bars, i, off)
  {
    PlanStep(bars, i, off);
    more := done;
    if Implemented(bars[i]) {
      more := done + [Grant(i, PCIE0_MMIO + off, bars[i].size)];
    }
  }
}
