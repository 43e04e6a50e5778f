/** pci.c: the walk over the bus that configures the functions a driver asks for. */
module PciProbe {
  import opened Basics
  import opened PciBars

  /** A device function on the bus: the word that identifies it, with the vendor in its lower half and the
      device in its upper one, the command register, and the BAR registers. */
  class Function {
    const vendor: nat
    const device: nat
    const id: nat
    const bars: seq<Bar>
    const regs: array<nat>
    var command: nat

    ghost predicate Valid() {
      && vendor < U16 && device < U16 && id % 65536 == vendor && id / 65536 == device
      && WellFormed(bars) && regs.Length == 6
    }

    method Write(i: nat, v: nat)
      requires Valid() && i < 6
      modifies regs
      ensures regs[..] == old(regs[..])[i := Kept(bars[i], v)]
    {
      regs[i] := Kept(bars[i], v);
    }
  }

  /** Function 0 of each of the 255 buses' 32 devices; functions do not share registers. */
  ghost predicate Bus(slots: seq<Function?>) {
    && |slots| == 255 * 32
    && (forall n :: 0 <= n < |slots| && slots[n] != null ==> slots[n].Valid())
    && (forall m, n :: 0 <= m < n < |slots| && slots[m] != null && slots[n] != null ==> slots[m].regs != slots[n].regs)
  }

  ghost function Registers(slots: seq<Function?>): set<object> {
    (set n | 0 <= n < |slots| && slots[n] != null :: slots[n].regs)
    + set n | 0 <= n < |slots| && slots[n] != null :: slots[n]
  }

  twostate predicate Untouched(f: Function)
    reads f, f.regs
  {
    f.regs[..] == old(f.regs[..]) && f.command == old(f.command)
  }

  /** Where the window stands before slot `n`. */
  ghost function OffAt(slots: seq<Function?>, id: nat, start: nat, n: nat): nat
    requires n <= |slots|
  {
    if n == 0 then start
    else
      var before := OffAt(slots, id, start, n - 1);
      var f := slots[n - 1];
      if f != null && f.id == id then PlanEnd(f.bars, 0, before) else before
  }

  ghost predicate Matched(slots: seq<Function?>, id: nat, n: nat)
    requires n < |slots|
  {
    slots[n] != null && slots[n].id == id
  }

  /** Every BAR of the function holds what it was granted, from `off` on, and can be sized again. */
  ghost predicate BarsDone(f: Function, off: nat)
    requires f.Valid()
    reads f.regs
  {
    && PlacedBelow(f.bars, f.regs[..], Plan(f.bars, 0, off), 6)
    && (off % PAGE == 0 ==> PlausibleFrom(f.bars, f.regs[..], 0))
  }

  /** And it is switched on: I/O and memory accesses and bus mastering, bits 0 to 2. */
  ghost predicate SlotDone(f: Function, off: nat)
    requires f.Valid()
    reads f, f.regs
  {
    BarsDone(f, off) && f.command == 7
  }

  ghost predicate Configured(slots: seq<Function?>, id: nat, start: nat, n: nat)
    requires Bus(slots) && n <= |slots|
    reads set k | 0 <= k < n && slots[k] != null :: slots[k].regs
    reads set k | 0 <= k < n && slots[k] != null :: slots[k]
  {
    forall k :: 0 <= k < n && Matched(slots, id, k) ==> SlotDone(slots[k], OffAt(slots, id, start, k))
  }

  ghost function LastMatch(slots: seq<Function?>, id: nat, n: nat): Option<nat>
    requires n <= |slots|
  {
    if n == 0 then None
    else if slots[n - 1] != null && slots[n - 1].id == id then Some(n - 1)
    else LastMatch(slots, id, n - 1)
  }

  function Ecam(slot: Option<nat>): nat {
    match slot
    case None => 0
    case Some(n) => n / 32 * 0x10_0000 + n % 32 * 0x8000
  }

  lemma {:induction false} LastMatchMeans(slots: seq<Function?>, id: nat, n: nat)
    requires n <= |slots|
    ensures match LastMatch(slots, id, n)
            case None => forall k :: 0 <= k < n ==> !Matched(slots, id, k)
            case Some(m) => m < n && Matched(slots, id, m) && forall k :: m < k < n ==> !Matched(slots, id, k)
  {
    if n > 0 && !Matched(slots, id, n - 1) {
      LastMatchMeans(slots, id, n - 1);
    }
  }

  /** The word a function of this vendor and kind identifies itself with. */
  function PciId(vendor: nat, device: nat): nat { device * 0x1_0000 + vendor }

  ghost predicate Asked(f: Function?, vendor: nat, device: nat) {
    f != null && f.vendor == vendor && f.device == device
  }

  lemma IdMatches(f: Function, vendor: nat, device: nat)
    requires f.Valid() && vendor < U16 && device < U16
    ensures f.id == PciId(vendor, device) <==> Asked(f, vendor, device)
  {
    QuotientUnique(PciId(vendor, device), 65536, device, vendor);
  }

  /** Bus, device and function 0 as an offset of the configuration space: the bus from bit 20 and the device
      from bit 15 up. */
  predicate PlaceOf(n: nat, offset: nat) {
    offset / 1048576 == n / 32 && offset / 32768 % 32 == n % 32 && offset % 32768 == 0
  }

  ghost predicate IsLast(slots: seq<Function?>, vendor: nat, device: nat, n: nat)
    requires n < |slots|
  {
    Asked(slots[n], vendor, device) && forall k :: n < k < |slots| ==> !Asked(slots[k], vendor, device)
  }

  /** An answer is the place of the last function asked for, or 0 if there is none. */
  ghost predicate Answers(slots: seq<Function?>, vendor: nat, device: nat, ret: nat) {
    && ((forall n :: 0 <= n < |slots| ==> !Asked(slots[n], vendor, device)) ==> ret == 0)
    && (forall n :: 0 <= n < |slots| && IsLast(slots, vendor, device, n) ==> PlaceOf(n, ret))
  }

  lemma EcamMeans(n: nat)
    ensures PlaceOf(n, Ecam(Some(n))) && Ecam(Some(n)) == n * 32768
  {
    var bus, dev := n / 32, n % 32;
    assert Ecam(Some(n)) == (32 * bus + dev) * 32768;
    QuotientUnique(Ecam(Some(n)), 32768, 32 * bus + dev, 0);
    QuotientUnique(Ecam(Some(n)), 1048576, bus, dev * 32768);
  }

  lemma Within32(n: nat, offset: nat)
    requires PlaceOf(n, offset)
    ensures offset == n * 32768
  {
    var x := offset / 32768;
    var q, r := x / 32, x % 32;
    assert offset == q * 1048576 + r * 32768;
    QuotientUnique(offset, 1048576, q, r * 32768);
  }

  /** Two slots have 4 KiB of configuration space each, and no byte in common. */
  lemma PlacesApart(m: nat, n: nat, a: nat, b: nat)
    requires m < n && PlaceOf(m, a) && PlaceOf(n, b)
    ensures a + 4096 <= b
  {
    var x, y := a / 32768, b / 32768;
    assert a == x * 32768 && b == y * 32768;
    Within32(m, a);
    Within32(n, b);
  }

  lemma MatchedIsAsked(slots: seq<Function?>, vendor: nat, device: nat)
    requires Bus(slots) && vendor < U16 && device < U16
    ensures forall n :: 0 <= n < |slots| ==>
              (Matched(slots, PciId(vendor, device), n) <==> Asked(slots[n], vendor, device))
  {
    forall n | 0 <= n < |slots|
      ensures Matched(slots, PciId(vendor, device), n) <==> Asked(slots[n], vendor, device)
    {
      if slots[n] != null {
        IdMatches(slots[n], vendor, device);
      }
    }
  }

  lemma NoMatch()
    ensures Ecam(None) == 0
  {
  }

  lemma NothingYet(slots: seq<Function?>, id: nat)
    ensures Ecam(LastMatch(slots, id, 0)) == 0
  {
  }

  lemma ProbeAnswers(slots: seq<Function?>, vendor: nat, device: nat)
    requires Bus(slots) && vendor < U16 && device < U16
    ensures Answers(slots, vendor, device, Ecam(LastMatch(slots, PciId(vendor, device), |slots|)))
  {
    hide PlaceOf, LastMatch, Ecam, PciId;
    var id := PciId(vendor, device);
    MatchedIsAsked(slots, vendor, device);
    LastMatchMeans(slots, id, |slots|);
    match LastMatch(slots, id, |slots|)
    case None => NoMatch();
    case Some(m) => EcamMeans(m);
  }

  /** An answer of 0 is taken for none found, although a function in the first slot has it too. */
  lemma FirstSlotIsNotFound(slots: seq<Function?>, vendor: nat, device: nat, ret: nat)
    requires Answers(slots, vendor, device, ret) && |slots| > 0
    requires IsLast(slots, vendor, device, 0)
    ensures ret == 0
  {
    assert PlaceOf(0, ret);
    Within32(0, ret);
  }

  lemma {:induction false} OffMonotone(slots: seq<Function?>, id: nat, start: nat, m: nat, n: nat)
    requires m <= n <= |slots|
    ensures start <= OffAt(slots, id, start, m) <= OffAt(slots, id, start, n)
    decreases n
  {
    if m < n {
      OffMonotone(slots, id, start, m, n - 1);
    } else if n > 0 {
      OffMonotone(slots, id, start, n - 1, n - 1);
    }
  }

  lemma {:induction false} OffAligned(slots: seq<Function?>, id: nat, start: nat, n: nat)
    requires Bus(slots) && n <= |slots| && start % PAGE == 0
    ensures OffAt(slots, id, start, n) % PAGE == 0
  {
    if n > 0 {
      OffAligned(slots, id, start, n - 1);
      var f := slots[n - 1];
      if f != null && f.id == id {
        assert WellFormedAt(f.bars, 0);
        PlanSound(f.bars, 0, OffAt(slots, id, start, n - 1));
      }
    }
  }

  class Pci {
    var off: nat

    constructor ()
      ensures off == 0
    {
      off := 0;
    }

    /** pci_alloc_mmio, in 64 bits. */
    method AllocMmio(size: nat) returns (addr: nat)
      modifies this
      ensures addr == (PCIE0_MMIO + old(off)) % U64 && off == (old(off) + PageAlign(size)) % U64
      ensures PCIE0_MMIO + old(off) + PageAlign(size) < U64 ==>
                addr == PCIE0_MMIO + old(off) && off == old(off) + PageAlign(size)
    {
      addr := (PCIE0_MMIO + off) % U64;
      off := (off + PageAlign(size)) % U64;
    }

    method Configure32(f: Function, i: nat) returns (size: nat)
      requires f.Valid() && i < 6 && (f.bars[i].Mem32? || f.bars[i].Absent?) && Plausible(f.bars[i], f.regs[i])
      requires f.bars[i].Mem32? ==> PCIE0_MMIO + off + PageAlign(f.bars[i].size) < U64
      modifies this, f.regs
      ensures f.bars[i].Absent? ==> size == 0 && off == old(off) && f.regs[..] == old(f.regs[..])[i := 0]
      ensures f.bars[i].Mem32? ==>
                && size == f.bars[i].size && off == old(off) + PageAlign(size)
                && f.regs[..] == old(f.regs[..])[i := Kept(f.bars[i], f.bars[i].attr + (PCIE0_MMIO + old(off)) % U32)]
    {
      assert WellFormedAt(f.bars, i);
      var orig := f.regs[i] % 16;
      f.Write(i, U32 - 1);
      size := Complement32(f.regs[i] / 16 * 16);
      if f.bars[i].Mem32? {
        Size32Recovered(f.bars[i].size, f.bars[i].attr);
      }
      if size == 0 {
        return;
      }
      var addr := AllocMmio(size);
      f.Write(i, orig + addr % U32);
    }

    /** The sizing half of a 64-bit BAR. */
    method Size64Bar(f: Function, i: nat) returns (size: nat)
      requires f.Valid() && i < 6 && f.bars[i].Low64?
      modifies f.regs
      ensures size == f.bars[i].size && 0 < size && i < 5 && f.bars[i + 1] == High64(size)
      ensures forall j :: 0 <= j < 6 && j != i && j != i + 1 ==> f.regs[j] == old(f.regs[j])
    {
      assert WellFormedAt(f.bars, i);
      f.Write(i, U32 - 1);
      f.Write(i + 1, U32 - 1);
      Size64Recovered(f.bars[i].size, f.bars[i].attr);
      Size64By16(f.bars[i].size);
      size := SizeRead64(f.regs[i], f.regs[i + 1]);
    }

    method Place64(f: Function, i: nat, orig: nat, addr: nat, ghost size: nat)
      requires f.Valid() && i < 5 && f.bars[i].Low64? && orig == f.bars[i].attr
      modifies f.regs
      ensures Placed(f.bars, f.regs[..], Grant(i, addr, size))
      ensures forall j :: 0 <= j < 6 && j != i && j != i + 1 ==> f.regs[j] == old(f.regs[j])
    {
      f.Write(i, orig + addr % U32);
      f.Write(i + 1, addr / U32);
    }

    method Configure64(f: Function, i: nat) returns (size: nat)
      requires f.Valid() && i < 6 && f.bars[i].Low64? && Plausible(f.bars[i], f.regs[i])
      requires PCIE0_MMIO + off + PageAlign(f.bars[i].size) < U64
      modifies this, f.regs
      ensures size == f.bars[i].size && off == old(off) + PageAlign(size) && i < 5
      ensures Placed(f.bars, f.regs[..], Grant(i, PCIE0_MMIO + old(off), size))
      ensures forall j :: 0 <= j < 6 && j != i && j != i + 1 ==> f.regs[j] == old(f.regs[j])
    {
      var orig := f.regs[i] % 16;
      size := Size64Bar(f, i);
      if size == 0 {
        return;
      }
      var addr := AllocMmio(size);
      Place64(f, i, orig, addr, size);
    }

    /** One turn of the BAR loop. */
    method ConfigureBar(f: Function, i: nat) returns (next: nat)
      requires f.Valid() && i < 6 && !f.bars[i].High64? && Plausible(f.bars[i], f.regs[i])
      requires PCIE0_MMIO + NextOff(f.bars, i, off) < U64
      modifies this, f.regs
      ensures next == NextBar(f.bars, i) && off == NextOff(f.bars, i, old(off))
      ensures Implemented(f.bars[i]) ==> Placed(f.bars, f.regs[..], Grant(i, PCIE0_MMIO + old(off), f.bars[i].size))
      ensures f.bars[i].Absent? || f.bars[i].Io? ==> Plausible(f.bars[i], f.regs[i])
      ensures forall j :: 0 <= j < 6 && !(i <= j < next) ==> f.regs[j] == old(f.regs[j])
    {
      var was := f.regs[i];
      assert WellFormedAt(f.bars, i);
      FlagBits(f.bars[i], was);
      next := i + 1;
      if was % 2 == 1 {
        return;
      }
      if was / 4 % 2 == 1 {
        var size := Configure64(f, i);
        next := i + 2;
      } else {
        var size := Configure32(f, i);
      }
    }

    method NextTurn(f: Function, i: nat, ghost done: seq<Grant>) returns (next: nat, ghost more: seq<Grant>)
      requires f.Valid() && i < 6 && !f.bars[i].High64? && PlausibleFrom(f.bars, f.regs[..], i)
      requires PCIE0_MMIO + PlanEnd(f.bars, i, off) < U64
      requires PlacedBelow(f.bars, f.regs[..], done, i) && OthersPlausible(f.bars, f.regs[..])
      modifies this, f.regs
      ensures i < next <= 6 && (next < 6 ==> !f.bars[next].High64?)
      ensures more + Plan(f.bars, next, off) == done + Plan(f.bars, i, old(off))
      ensures PlanEnd(f.bars, next, off) == PlanEnd(f.bars, i, old(off))
      ensures PlausibleFrom(f.bars, f.regs[..], next) && OthersPlausible(f.bars, f.regs[..])
      ensures PlacedBelow(f.bars, f.regs[..], more, next)
    {
      hide Plan, PlanEnd, Placed, PlacedBelow, Kept;
      PlanStep(f.bars, i, off);
      NextBarIsNotHigh(f.bars, i);
      next := ConfigureBar(f, i);
      more := Extend(f.bars, old(f.regs[..]), f.regs[..], done, i, old(off));
    }

    /** The loop of pci_device_probe over the BARs of one function: every implemented BAR gets its
        grant, a 64-bit one takes two registers, and the window is used up to the plan's end. */
    method ConfigureBars(f: Function)
      requires f.Valid() && PlausibleFrom(f.bars, f.regs[..], 0)
      requires PCIE0_MMIO + PlanEnd(f.bars, 0, off) < U64
      modifies this, f.regs
      ensures off == PlanEnd(f.bars, 0, old(off)) && BarsDone(f, old(off))
    {
      hide Plan, PlanEnd, Placed, Kept;
      var i := 0;
      ghost var plan, end, done := Plan(f.bars, i, off), PlanEnd(f.bars, i, off), [];
      assert WellFormedAt(f.bars, i);
      while i < 6
        invariant i <= 6 && (i < 6 ==> !f.bars[i].High64?)
        invariant plan == done + Plan(f.bars, i, off) && PlanEnd(f.bars, i, off) == end
        invariant PlausibleFrom(f.bars, f.regs[..], i) && OthersPlausible(f.bars, f.regs[..])
        invariant PlacedBelow(f.bars, f.regs[..], done, i)
      {
        i, done := NextTurn(f, i, done);
      }
      PlanIsDone(f.bars, i, off);
      assert plan == done;
      if old(off) % PAGE == 0 {
        PlacedAllPlausible(f.bars, f.regs[..], old(off));
      }
    }

    /** One slot of the bus: configured when its id matches, passed over otherwise. */
    method ProbeSlot(slots: seq<Function?>, id: nat, n: nat, ret: nat, ghost start: nat) returns (last: nat)
      requires Bus(slots) && n < |slots| && off == OffAt(slots, id, start, n)
      requires PCIE0_MMIO + OffAt(slots, id, start, n + 1) < U64
      requires Matched(slots, id, n) ==> PlausibleFrom(slots[n].bars, slots[n].regs[..], 0)
      requires ret == Ecam(LastMatch(slots, id, n))
      modifies this, if slots[n] != null && slots[n].id == id then {slots[n], slots[n].regs} else {}
      ensures off == OffAt(slots, id, start, n + 1)
      ensures Matched(slots, id, n) ==> SlotDone(slots[n], OffAt(slots, id, start, n))
      ensures last == Ecam(LastMatch(slots, id, n + 1))
    {
      last := ret;
      if slots[n] == null || slots[n].id != id {
        return;
      }
      slots[n].command := 7;
      ConfigureBars(slots[n]);
      last := n / 32 * 0x10_0000 + n % 32 * 0x8000;
    }

    method ProbeNext(slots: seq<Function?>, id: nat, n: nat, ret: nat, ghost start: nat) returns (last: nat)
      requires Bus(slots) && n < |slots|
      requires off == OffAt(slots, id, start, n) && Configured(slots, id, start, n)
      requires PCIE0_MMIO + OffAt(slots, id, start, |slots|) < U64
      requires Matched(slots, id, n) ==> PlausibleFrom(slots[n].bars, slots[n].regs[..], 0)
      requires ret == Ecam(LastMatch(slots, id, n))
      modifies this, Registers(slots)
      ensures off == OffAt(slots, id, start, n + 1) && Configured(slots, id, start, n + 1)
      ensures last == Ecam(LastMatch(slots, id, n + 1))
      ensures forall k :: 0 <= k < |slots| && slots[k] != null && !(k == n && slots[k].id == id) ==>
                Untouched(slots[k])
    {
      hide SlotDone;
      OffMonotone(slots, id, start, n + 1, |slots|);
      last := ProbeSlot(slots, id, n, ret, start);
      forall k | 0 <= k < n && Matched(slots, id, k)
        ensures SlotDone(slots[k], OffAt(slots, id, start, k))
      {
        assert slots[n] != null ==> slots[k].regs != slots[n].regs && slots[k] != slots[n];
      }
    }

    /** The 32 devices of one bus, whose slots start at `first`. */
    method ProbeBus(slots: seq<Function?>, id: nat, first: nat, ret: nat, ghost start: nat) returns (last: nat)
      requires Bus(slots) && first + 32 <= |slots|
      requires off == OffAt(slots, id, start, first) && Configured(slots, id, start, first)
      requires PCIE0_MMIO + OffAt(slots, id, start, |slots|) < U64
      requires forall n :: first <= n < |slots| && Matched(slots, id, n) ==>
                 PlausibleFrom(slots[n].bars, slots[n].regs[..], 0)
      requires ret == Ecam(LastMatch(slots, id, first))
      modifies this, Registers(slots)
      ensures off == OffAt(slots, id, start, first + 32) && Configured(slots, id, start, first + 32)
      ensures last == Ecam(LastMatch(slots, id, first + 32))
      ensures forall n :: 0 <= n < |slots| && slots[n] != null && (n >= first + 32 || slots[n].id != id) ==>
                Untouched(slots[n])
    {
      hide SlotDone, Ecam, LastMatch;
      last := ret;
      var n, end := first, first + 32;
      while n < end
        invariant first <= n <= end
        invariant off == OffAt(slots, id, start, n) && Configured(slots, id, start, n)
        invariant last == Ecam(LastMatch(slots, id, n))
        invariant forall k :: 0 <= k < |slots| && slots[k] != null && (k >= n || slots[k].id != id) ==>
                    Untouched(slots[k])
      {
        last := ProbeNext(slots, id, n, last, start);
        n := n + 1;
      }
    }

    /** pci_device_probe: every function 0 with this id is configured, in bus order, each from where
        the one before left the window; the answer is the last one's place in the ECAM, or 0. */
    method Probe(slots: seq<Function?>, vendor: nat, device: nat) returns (ret: nat)
      requires Bus(slots) && vendor < U16 && device < U16
      requires PCIE0_MMIO + OffAt(slots, PciId(vendor, device), off, |slots|) < U64
      requires forall n :: 0 <= n < |slots| && Asked(slots[n], vendor, device) ==>
                 PlausibleFrom(slots[n].bars, slots[n].regs[..], 0)
      modifies this, Registers(slots)
      ensures off == OffAt(slots, PciId(vendor, device), old(off), |slots|)
      ensures Configured(slots, PciId(vendor, device), old(off), |slots|)
      ensures forall n :: 0 <= n < |slots| && slots[n] != null && !Asked(slots[n], vendor, device) ==>
                Untouched(slots[n])
      ensures Answers(slots, vendor, device, ret)
    {
      hide SlotDone, Ecam, LastMatch, Answers;
      var id := device * 0x1_0000 + vendor;
      NothingYet(slots, id);
      MatchedIsAsked(slots, vendor, device);
      ret := 0;
      ghost var start := off;
      var bus := 0;
      while bus < 255
        invariant bus <= 255
        invariant off == OffAt(slots, id, start, 32 * bus) && Configured(slots, id, start, 32 * bus)
        invariant ret == Ecam(LastMatch(slots, id, 32 * bus))
        invariant forall n :: 0 <= n < |slots| && slots[n] != null && (n >= 32 * bus || slots[n].id != id) ==>
                    Untouched(slots[n])
      {
        ret := ProbeBus(slots, id, 32 * bus, ret, start);
        bus := bus + 1;
      }
      ProbeAnswers(slots, vendor, device);
    }

    /** The two probes of start-up, one for each driver: the second goes on where the first left the window,
        and leaves what the first has configured as it is. */
    method ProbeBoth(slots: seq<Function?>, vendor: nat, first: nat, second: nat) returns (a: nat, b: nat)
      requires Bus(slots) && off % PAGE == 0 && vendor < U16 && first < U16 && second < U16
      requires var mid := OffAt(slots, PciId(vendor, first), off, |slots|);
               PCIE0_MMIO + OffAt(slots, PciId(vendor, second), mid, |slots|) < U64
      requires forall n :: 0 <= n < |slots| && (Asked(slots[n], vendor, first) || Asked(slots[n], vendor, second)) ==>
                 PlausibleFrom(slots[n].bars, slots[n].regs[..], 0)
      modifies this, Registers(slots)
      ensures var mid := OffAt(slots, PciId(vendor, first), old(off), |slots|);
              && off == OffAt(slots, PciId(vendor, second), mid, |slots|)
              && Configured(slots, PciId(vendor, second), mid, |slots|)
              && (first != second ==> Configured(slots, PciId(vendor, first), old(off), |slots|))
      ensures forall n :: 0 <= n < |slots| && slots[n] != null && !Asked(slots[n], vendor, first)
                          && !Asked(slots[n], vendor, second) ==>
                Untouched(slots[n])
      ensures Answers(slots, vendor, first, a) && Answers(slots, vendor, second, b)
    {
      ghost var start, mid := off, OffAt(slots, PciId(vendor, first), off, |slots|);
      OffMonotone(slots, PciId(vendor, second), mid, 0, |slots|);
      MatchedIsAsked(slots, vendor, first);
      MatchedIsAsked(slots, vendor, second);
      a := Probe(slots, vendor, first);
      forall n | 0 <= n < |slots| && Asked(slots[n], vendor, second)
        ensures PlausibleFrom(slots[n].bars, slots[n].regs[..], 0)
      {
        if first == second {
          OffAligned(slots, PciId(vendor, first), start, n);
          assert SlotDone(slots[n], OffAt(slots, PciId(vendor, first), start, n));
        }
      }
      b := Probe(slots, vendor, second);
    }
  }

  // ---------------------------------------------------------------- the whole bus

  /** Grants to different functions are apart as well. */
  lemma FunctionsApart(slots: seq<Function?>, id: nat, start: nat, m: nat, n: nat, g: Grant, h: Grant)
    requires Bus(slots) && m < n < |slots| && start % PAGE == 0
    requires slots[m] != null && slots[m].id == id && g in Plan(slots[m].bars, 0, OffAt(slots, id, start, m))
    requires slots[n] != null && slots[n].id == id && h in Plan(slots[n].bars, 0, OffAt(slots, id, start, n))
    ensures g.addr + g.size <= h.addr
  {
    var f, k := slots[m], slots[n];
    OffAligned(slots, id, start, m);
    OffAligned(slots, id, start, n);
    OffMonotone(slots, id, start, m + 1, n);
    assert WellFormedAt(f.bars, 0) && WellFormedAt(k.bars, 0);
    var offF, offK := OffAt(slots, id, start, m), OffAt(slots, id, start, n);
    PlanSound(f.bars, 0, offF);
    PlanSound(k.bars, 0, offK);
    assert GrantOk(f.bars, 0, offF, PlanEnd(f.bars, 0, offF), g);
    assert GrantOk(k.bars, 0, offK, PlanEnd(k.bars, 0, offK), h);
  }

  /** The window is never given back: what a later probe grants, whatever it looks for, lies behind
      everything an earlier one granted. */
  lemma ProbesApart(slots: seq<Function?>, first: nat, second: nat, start: nat, m: nat, n: nat, g: Grant, h: Grant)
    requires Bus(slots) && m < |slots| && n < |slots| && start % PAGE == 0
    requires slots[m] != null && slots[m].id == first && g in Plan(slots[m].bars, 0, OffAt(slots, first, start, m))
    requires var mid := OffAt(slots, first, start, |slots|);
             slots[n] != null && slots[n].id == second && h in Plan(slots[n].bars, 0, OffAt(slots, second, mid, n))
    ensures g.addr + g.size <= h.addr
  {
    var mid := OffAt(slots, first, start, |slots|);
    var f, k := slots[m], slots[n];
    var offF, offK := OffAt(slots, first, start, m), OffAt(slots, second, mid, n);
    OffAligned(slots, first, start, m);
    OffAligned(slots, first, start, |slots|);
    OffAligned(slots, second, mid, n);
    OffMonotone(slots, first, start, m + 1, |slots|);
    OffMonotone(slots, second, mid, 0, n);
    assert WellFormedAt(f.bars, 0) && WellFormedAt(k.bars, 0);
    PlanSound(f.bars, 0, offF);
    PlanSound(k.bars, 0, offK);
    assert GrantOk(f.bars, 0, offF, PlanEnd(f.bars, 0, offF), g);
    assert GrantOk(k.bars, 0, offK, PlanEnd(k.bars, 0, offK), h);
  }
}
