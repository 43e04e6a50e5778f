/** The inductive invariant of the step system, one predicate per concern, and its preservation. */
module BlkInvariant {
  import opened Basics
  import opened SimpleDisk
  import opened Vring
  import opened BlkProtocol

  // ---------------------------------------------------------------- counters

  /** Requests published in the avail ring, taken by the device, and carried out by it. */
  function PublishedCount(s: Sys): int {
    if 1 <= s.thread.pc.Rank() <= 9 then s.hist.calls - 1 else s.hist.calls
  }

  function TakenCount(s: Sys): nat {
    if s.dev.phase.Waiting? then s.hist.used else s.hist.used + 1
  }

  function ServedCount(s: Sys): nat {
    if s.dev.phase.Waiting? || s.dev.phase.Taken? || s.dev.phase.Moving? then s.hist.used else s.hist.used + 1
  }

  /** Each u16 counter is its unbounded count modulo 65536, and the counts are ordered as the
      entries travel: published, taken, used, drained, with at most one request on the way. */
  predicate Counters(s: Sys) {
    var h := s.hist;
    && s.thread.availCtr == 3 * h.calls % U16
    && PublishedCount(s) >= 0
    && s.mem.availIdx == PublishedCount(s) % U16
    && s.dev.seen == TakenCount(s) % U16
    && s.mem.usedIdx == h.used % U16
    && s.handler.usedCtr == h.drained % U16
    && h.drained <= h.used <= TakenCount(s) <= PublishedCount(s) <= h.calls <= h.drained + 1
    && (s.thread.pc.Idle? ==> h.calls == h.drained)
    && (1 <= s.thread.pc.Rank() <= 11 ==> h.calls >= 1)
    && (1 <= s.thread.pc.Rank() <= 9 ==> h.calls == h.drained + 1)
    && (s.thread.pc.ClearInfo? ==> h.calls == h.drained >= 1)
  }

  // ---------------------------------------------------------------- the request being made

  /** The call's slots are the next three of the free-running counter, and differ. */
  predicate Slots(s: Sys) {
    var c, k := s.thread.call, s.hist.calls - 1;
    !s.thread.pc.Idle? ==>
      && k >= 0
      && c.i0 == 3 * k % BLK_QSIZE && c.i1 == (3 * k + 1) % BLK_QSIZE && c.i2 == (3 * k + 2) % BLK_QSIZE
      && c.i0 != c.i1 && c.i0 != c.i2 && c.i1 != c.i2
  }

  /** What virtio_pci_blk_rw has written so far for the current call. */
  predicate Written(s: Sys) {
    var m, c, r := s.mem, s.thread.call, s.thread.pc.Rank();
    && (r > 1 ==> m.ops[c.i0] == HeaderOf(c.req))
    && (r > 2 ==> m.desc[c.i0] == Desc0(c))
    && (r > 3 ==> m.desc[c.i1] == Desc1(c))
    && (r > 4 && ServedCount(s) < s.hist.calls ==> m.status[c.i0] == 0xff)
    && (r > 5 ==> m.desc[c.i2] == Desc2(c))
    && (r > 7 ==> m.info[c.i0] == Some(c.buf))
    && (r > 8 ==> s.hist.calls >= 1 && m.ring[(s.hist.calls - 1) % BLK_QSIZE] == c.i0)
  }

  predicate InScope(s: Sys) {
    && (!s.thread.pc.Idle? ==> Legal(s.thread.call.req, s) && Accepts(s.thread.call.req, s.thread.capacity))
    && s.thread.capacity == |s.store.disk| / DISK_SECTOR % U32
  }

  /** The flag is 1 from the moment it is raised until the handler has acknowledged the entry. */
  predicate Flag(s: Sys) {
    var c := s.thread.call;
    s.thread.pc.Rank() > 6 ==>
      && c.buf in s.mem.flag
      && s.mem.flag[c.buf] == (if s.hist.drained == s.hist.calls || s.handler.phase.Advance? then 0 else 1)
  }

  // ---------------------------------------------------------------- device and handler

  /** The status byte and the used length the device answers the current call with. */
  function StatusOf(s: Sys): byte {
    if SimpleDisk.Served(s.thread.call.req, s.store) then 0 else 1
  }

  function UsedLen(s: Sys): nat {
    var r := s.thread.call.req;
    if SimpleDisk.Served(r, s.store) && !r.isWrite then r.len + 1 else 1
  }

  /** What the device is to read out of the call's chain. */
  function OpOf(c: Call): Op {
    Op(c.req.isWrite, c.req.addr / DISK_SECTOR, c.req.data, c.req.len, c.i0)
  }

  predicate Device(s: Sys) {
    var c := s.thread.call;
    && !s.dev.phase.Broken?
    && (s.dev.phase.Taken? ==> s.dev.phase.head == c.i0)
    && (s.dev.phase.Moving? ==>
          && s.dev.phase.head == c.i0 && s.dev.phase.op == OpOf(c) && s.dev.phase.left <= Span(0, c.req.len)
          && SimpleDisk.Served(c.req, s.store))
    && (s.dev.phase.Served? ==> s.dev.phase == DevPhase.Served(c.i0, UsedLen(s)))
    && (s.dev.phase.Pushed? ==> s.mem.used[s.hist.used % BLK_QSIZE] == UsedElem(c.i0, UsedLen(s)))
    && (s.hist.used > s.hist.drained ==> s.mem.used[s.hist.drained % BLK_QSIZE] == UsedElem(c.i0, UsedLen(s)))
    && (ServedCount(s) > s.hist.drained ==> s.mem.status[c.i0] == StatusOf(s))
  }

  predicate Draining(p: Phase) { p.Test? || p.Fetch? || p.Ack? || p.Advance? }

  predicate Interrupts(s: Sys) {
    var p := s.handler.phase;
    && (s.irq.active <==> p.ClearIsr? || Draining(p) || p == Complete(PCIE_IRQ_PINB))
    && (s.irq.uartActive <==> p.InUart? || p == Complete(UART0_IRQ))
    && (p.Complete? ==> p.irq == PCIE_IRQ_PINB || p.irq == UART0_IRQ)
    && (s.irq.pending ==> !s.irq.active)
    && (s.irq.uartPending ==> !s.irq.uartActive)
    && !p.Fault?
    && (p.Fetch? || p.Ack? || p.Advance? ==> s.hist.used > s.hist.drained)
    && (p.Ack? ==> p.buf == s.thread.call.buf)
  }

  /** An undrained entry is announced: the device still owes the signal, the line is up, or the
      handler has yet to look at the used index again. */
  predicate Announced(s: Sys) {
    s.hist.used > s.hist.drained ==> s.dev.owes || s.irq.isr || Draining(s.handler.phase)
  }

  // ---------------------------------------------------------------- the disk

  /** The real store is the specified one, with as much of the request in hand applied as is moved. */
  predicate Refines(s: Sys) {
    var spec := Replay(s.hist.events, s.hist.start);
    s.store == if !s.thread.pc.Idle? && ServedCount(s) == s.hist.calls
               then Exec(Io(s.thread.call.req), spec)
               else if s.dev.phase.Moving? then Partly(Rounded(s.thread.call.req), s.dev.phase.left, spec)
               else spec
  }

  predicate Inv(s: Sys) {
    && Counters(s) && Slots(s) && Written(s) && InScope(s) && Flag(s)
    && Device(s) && Interrupts(s) && Announced(s) && Refines(s)
  }

  // ---------------------------------------------------------------- preservation

  lemma InitInv(s: Sys)
    requires Init(s)
    ensures Inv(s)
  {
  }

  lemma Take3Slots(n: nat, req: Request, buf: nat)
    ensures var c := Take3(n % U16, req, buf);
            && c.i0 == n % BLK_QSIZE && c.i1 == (n + 1) % BLK_QSIZE && c.i2 == (n + 2) % BLK_QSIZE
            && c.i0 != c.i1 && c.i0 != c.i2 && c.i1 != c.i2
  {
    WrapSlot(n, BLK_QSIZE);
    WrapAdd(n, 1);
    WrapSlot(n + 1, BLK_QSIZE);
    WrapAdd(n, 2);
    WrapSlot(n + 2, BLK_QSIZE);
  }

  lemma InvokeInv(s: Sys, req: Request, buf: nat)
    requires Inv(s) && Enabled(s, Invoke(req, buf))
    ensures Inv(DoInvoke(s, req, buf))
  {
    Take3Slots(3 * s.hist.calls, req, buf);
    WrapAdd(3 * s.hist.calls, 3);
  }

  lemma StoreInv(s: Sys, at: nat, bytes: seq<byte>)
    requires Inv(s) && Enabled(s, StoreBytes(at, bytes))
    ensures Inv(Step(s, StoreBytes(at, bytes)))
  {
    ReplaySnoc(s.hist.events, Poke(at, bytes), s.hist.start);
  }

  lemma ThreadCounters(s: Sys)
    requires Counters(s) && Flag(s) && Enabled(s, ThreadStep)
    ensures Counters(DoThread(s))
  {
    if s.thread.pc.BumpAvail? {
      WrapAdd(s.hist.calls - 1, 1);
    }
  }

  lemma ThreadWritten(s: Sys)
    requires Counters(s) && Slots(s) && Written(s) && Enabled(s, ThreadStep)
    ensures Written(DoThread(s))
  {
    if s.thread.pc.PutAvail? {
      WrapSlot(s.hist.calls - 1, BLK_QSIZE);
    }
  }

  lemma ThreadRefines(s: Sys)
    requires Counters(s) && Refines(s) && Enabled(s, ThreadStep)
    ensures Refines(DoThread(s))
  {
    hide Replay, Exec, Copy;
    if s.thread.pc.ClearInfo? {
      ReplaySnoc(s.hist.events, Io(s.thread.call.req), s.hist.start);
    }
  }

  lemma ThreadInv(s: Sys)
    requires Inv(s) && Enabled(s, ThreadStep)
    ensures Inv(DoThread(s))
  {
    hide Refines, Written;
    ThreadCounters(s);
    ThreadWritten(s);
    ThreadRefines(s);
  }

  /** The chain round trip: from the slot it took, the device walks three distinct descriptors and
      reads back the request the thread was given, whatever else the table holds. */
  lemma ChainDecodes(s: Sys)
    requires Slots(s) && Written(s) && s.thread.pc.Rank() > 5
    requires Legal(s.thread.call.req, s)
    ensures var c := s.thread.call;
            && Walk(s.mem.desc, c.i0, BLK_QSIZE) == Some([c.i0, c.i1, c.i2])
            && c.i0 != c.i1 && c.i0 != c.i2 && c.i1 != c.i2
            && Decode(s.mem, c.i0) == Some(OpOf(c))
  {
    var c := s.thread.call;
    WalkThree(s.mem.desc, c.i0, c.i1, c.i2, BLK_QSIZE);
  }

  /** The header of a request names the disk's sector its first byte lies in, and the direction. */
  lemma HeaderMeans(r: Request)
    ensures HeaderOf(r).sector * 512 <= r.addr < HeaderOf(r).sector * 512 + 512
    ensures HeaderOf(r).typ == (if r.isWrite then 1 else 0) && HeaderOf(r).reserved == 0
  {
  }

  lemma TakeInv(s: Sys)
    requires Inv(s) && Enabled(s, DevTake)
    ensures Inv(DoDevice(s, DevTake))
  {
    hide Replay, Exec, Copy;
    assert s.hist.used < PublishedCount(s);
    WrapSlot(s.hist.used, BLK_QSIZE);
    WrapAdd(s.hist.used, 1);
  }

  /** From the chain the device starts on exactly the request the thread is waiting for, or refuses it. */
  lemma ServeEffect(s: Sys)
    requires Inv(s) && s.dev.phase.Taken?
    ensures var c := s.thread.call;
            DoDevice(s, DevServe)
            == if SimpleDisk.Served(c.req, s.store)
               then s.(dev := s.dev.(phase := Moving(c.i0, OpOf(c), Span(0, c.req.len))))
               else s.(mem := s.mem.(status := s.mem.status[c.i0 := 1]),
                       dev := s.dev.(phase := DevPhase.Served(c.i0, 1)))
  {
    ChainDecodes(s);
  }

  lemma ServeInv(s: Sys)
    requires Inv(s) && s.dev.phase.Taken?
    ensures Inv(DoDevice(s, DevServe))
  {
    hide Replay, Copy, Partly, Span, DoDevice;
    ServeEffect(s);
    PartlyEnds(Rounded(s.thread.call.req), s.store);
  }

  /** Some of the bytes that are left are some of the request's. */
  lemma MoveInside(s: Sys, from: nat, n: nat)
    requires Device(s) && Enabled(s, DevMove(from, n))
    ensures from + n <= s.thread.call.req.len
  {
    assert Within(from + n - 1, from, n);
    assert from + n - 1 in s.dev.phase.left;
    assert from + n - 1 in Span(0, s.thread.call.req.len);
  }

  /** Moving bytes makes the copy of one more piece of the request, and touches nothing else. */
  lemma MoveEffect(s: Sys, from: nat, n: nat)
    requires Inv(s) && Enabled(s, DevMove(from, n))
    ensures var r, p := Rounded(s.thread.call.req), s.dev.phase;
            && from + n <= r.len
            && Copy(Piece(r, from, n), s.store) == Transfer(p.op, from, n, s.store)
            && DoDevice(s, DevMove(from, n)) == s.(store := Copy(Piece(r, from, n), s.store),
                                                dev := s.dev.(phase := p.(left := p.left - Span(from, n))))
  {
    hide Written, Flag, Interrupts, Announced, Refines, Counters, Slots, Splice;
    MoveInside(s, from, n);
  }

  lemma MoveRefines(s: Sys, from: nat, n: nat)
    requires Refines(s) && Counters(s) && s.dev.phase.Moving? && from + n <= s.thread.call.req.len
    requires SimpleDisk.Served(s.thread.call.req, s.store)
    ensures var r, p := Rounded(s.thread.call.req), s.dev.phase;
            Refines(s.(store := Copy(Piece(r, from, n), s.store),
                       dev := s.dev.(phase := p.(left := p.left - Span(from, n)))))
  {
    hide Partly, Copy, Replay, Span;
    PartlyMore(Rounded(s.thread.call.req), s.dev.phase.left, from, n, Replay(s.hist.events, s.hist.start));
  }

  /** While bytes move, only the store and what is left to move change. */
  lemma MoveFrame(s: Sys, st: Store, left: set<nat>)
    requires Inv(s) && s.dev.phase.Moving? && left <= s.dev.phase.left
    requires |st.disk| == |s.store.disk| && |st.ram| == |s.store.ram|
    ensures var t := s.(store := st, dev := s.dev.(phase := s.dev.phase.(left := left)));
            Counters(t) && Slots(t) && Written(t) && InScope(t) && Flag(t) && Device(t) && Interrupts(t) && Announced(t)
  {
    hide Refines, Span;
  }

  lemma MoveInv(s: Sys, from: nat, n: nat)
    requires Inv(s) && Enabled(s, DevMove(from, n))
    ensures Inv(DoDevice(s, DevMove(from, n)))
  {
    MoveEffect(s, from, n);
    var st := Copy(Piece(Rounded(s.thread.call.req), from, n), s.store);
    MoveFrame(s, st, s.dev.phase.left - Span(from, n));
    MoveRefines(s, from, n);
    hide Refines, Copy, Counters, Slots, Written, InScope, Flag, Interrupts, Announced, DoDevice, Enabled, Span;
  }

  /** When all is moved the store is the request's effect; the status byte is all that is written then. */
  lemma FinishEffect(s: Sys)
    requires Inv(s) && Enabled(s, DevFinish)
    ensures var c := s.thread.call;
            && DoDevice(s, DevFinish)
               == s.(mem := s.mem.(status := s.mem.status[c.i0 := 0]),
                     dev := s.dev.(phase := DevPhase.Served(c.i0, UsedLen(s))))
            && s.store == Exec(Io(c.req), Replay(s.hist.events, s.hist.start))
  {
    hide Partly, Copy, Replay;
    PartlyEnds(Rounded(s.thread.call.req), Replay(s.hist.events, s.hist.start));
  }

  lemma FinishInv(s: Sys)
    requires Inv(s) && Enabled(s, DevFinish)
    ensures Inv(DoDevice(s, DevFinish))
  {
    FinishEffect(s);
  }

  lemma PushInv(s: Sys)
    requires Inv(s) && s.dev.phase.Served?
    ensures Inv(DoDevice(s, DevPush))
  {
    hide Replay, Exec, Copy;
    WrapSlot(s.hist.used, BLK_QSIZE);
  }

  lemma BumpInv(s: Sys)
    requires Inv(s) && s.dev.phase.Pushed?
    ensures Inv(DoDevice(s, DevBump))
  {
    hide Replay, Exec, Copy;
    WrapAdd(s.hist.used, 1);
  }

  lemma LinesFrame(s: Sys, irq: Irq, owes: bool)
    requires Counters(s) && Slots(s) && Written(s) && InScope(s) && Flag(s) && Device(s) && Refines(s)
    ensures var t := s.(irq := irq, dev := s.dev.(owes := owes));
            Counters(t) && Slots(t) && Written(t) && InScope(t) && Flag(t) && Device(t) && Refines(t)
  {
    hide Replay, Exec, Copy, SimpleDisk.Served;
  }

  /** Raising or latching interrupt lines touches nothing but the interrupt state. */
  lemma LinesInv(s: Sys, irq: Irq, owes: bool)
    requires Inv(s)
    requires irq.active == s.irq.active && irq.uartActive == s.irq.uartActive
    requires irq.pending ==> !irq.active
    requires irq.uartPending ==> !irq.uartActive
    requires s.dev.owes || s.irq.isr ==> owes || irq.isr
    ensures Inv(s.(irq := irq, dev := s.dev.(owes := owes)))
  {
    hide Counters, Slots, Written, InScope, Flag, Device, Refines;
    LinesFrame(s, irq, owes);
  }

  lemma SignalInv(s: Sys, a: Action)
    requires Inv(s) && Enabled(s, a)
    requires a.DevSignal? || a.ConfigChange? || a.UartRequest? || a.GatewayLatch?
    ensures Inv(Step(s, a))
  {
    var t := Step(s, a);
    LinesInv(s, t.irq, t.dev.owes);
  }

  /** Where the handler stands matters to the interrupt lines only, the step behind the flag aside. */
  lemma PhaseFrame(s: Sys, irq: Irq, p: Phase)
    requires Counters(s) && Slots(s) && Written(s) && InScope(s) && Flag(s) && Device(s) && Refines(s)
    requires p.Advance? <==> s.handler.phase.Advance?
    ensures var t := s.(irq := irq, handler := s.handler.(phase := p));
            Counters(t) && Slots(t) && Written(t) && InScope(t) && Flag(t) && Device(t) && Refines(t)
  {
    hide Replay, Exec, Copy, SimpleDisk.Served;
  }

  lemma TrapInv(s: Sys)
    requires Inv(s) && Enabled(s, Trap)
    ensures Inv(DoTrap(s))
  {
    hide Counters, Slots, Written, InScope, Flag, Device, Refines;
    PhaseFrame(s, DoTrap(s).irq, DoTrap(s).handler.phase);
  }

  /** The entry the handler fetches names the one request still waiting. */
  lemma FetchFindsWaiter(s: Sys)
    requires Inv(s) && s.handler.phase.Fetch?
    ensures var c, id := s.thread.call, s.mem.used[s.handler.usedCtr % BLK_QSIZE].id;
            id == c.i0 && s.mem.info[id] == Some(c.buf)
            && s.thread.pc.Rank() >= 10 && c.buf in s.mem.flag && s.mem.flag[c.buf] == 1
  {
    WrapSlot(s.hist.drained, BLK_QSIZE);
  }

  lemma HandlerFetchInv(s: Sys)
    requires Inv(s) && s.handler.phase.Fetch?
    ensures Inv(DoHandler(s))
  {
    FetchFindsWaiter(s);
  }

  lemma IndicesMeet(drained: nat, used: nat)
    requires drained <= used <= drained + 1
    ensures drained % U16 == used % U16 <==> drained == used
  {
  }

  lemma HandlerTestInv(s: Sys)
    requires Inv(s) && s.handler.phase.Test?
    ensures Inv(DoHandler(s))
    ensures DoHandler(s).handler.phase.Fetch? <==> s.hist.used > s.hist.drained
  {
    IndicesMeet(s.hist.drained, s.hist.used);
    assert s.handler.usedCtr != s.mem.usedIdx <==> s.hist.used > s.hist.drained;
    hide Counters, Slots, Written, InScope, Flag, Device, Refines;
    PhaseFrame(s, s.irq, DoHandler(s).handler.phase);
  }

  lemma HandlerAdvanceInv(s: Sys)
    requires Inv(s) && s.handler.phase.Advance?
    ensures Inv(DoHandler(s))
  {
    hide Replay, Exec, Copy;
    WrapAdd(s.hist.drained, 1);
  }

  lemma HandlerAckInv(s: Sys)
    requires Inv(s) && s.handler.phase.Ack?
    ensures Inv(DoHandler(s))
  {
    hide Replay, Exec, Copy;
  }

  lemma HandlerClearInv(s: Sys)
    requires Inv(s) && s.handler.phase.ClearIsr?
    ensures Inv(DoHandler(s))
  {
    hide Counters, Slots, Written, InScope, Flag, Device, Refines;
    PhaseFrame(s, DoHandler(s).irq, DoHandler(s).handler.phase);
  }

  lemma HandlerUartInv(s: Sys)
    requires Inv(s) && s.handler.phase.InUart?
    ensures Inv(DoHandler(s))
  {
    hide Counters, Slots, Written, InScope, Flag, Device, Refines;
    PhaseFrame(s, DoHandler(s).irq, DoHandler(s).handler.phase);
  }

  lemma HandlerCompleteInv(s: Sys)
    requires Inv(s) && s.handler.phase.Complete?
    ensures Inv(DoHandler(s))
  {
    hide Counters, Slots, Written, InScope, Flag, Device, Refines;
    PhaseFrame(s, DoHandler(s).irq, DoHandler(s).handler.phase);
  }

  lemma HandlerInv(s: Sys)
    requires Inv(s) && Enabled(s, HandlerStep)
    ensures Inv(DoHandler(s))
  {
    if s.handler.phase.Fetch? {
      HandlerFetchInv(s);
    } else if s.handler.phase.Test? {
      HandlerTestInv(s);
    } else if s.handler.phase.Advance? {
      HandlerAdvanceInv(s);
    } else if s.handler.phase.Ack? {
      HandlerAckInv(s);
    } else if s.handler.phase.ClearIsr? {
      HandlerClearInv(s);
    } else if s.handler.phase.InUart? {
      HandlerUartInv(s);
    } else {
      HandlerCompleteInv(s);
    }
  }

  lemma DeviceInv(s: Sys, a: Action)
    requires Inv(s) && Enabled(s, a)
    requires a.DevTake? || a.DevServe? || a.DevMove? || a.DevFinish? || a.DevPush? || a.DevBump?
    ensures Inv(DoDevice(s, a))
  {
    match a
    case DevTake => TakeInv(s);
    case DevServe => ServeInv(s);
    case DevMove(from, n) => MoveInv(s, from, n);
    case DevFinish => FinishInv(s);
    case DevPush => PushInv(s);
    case DevBump => BumpInv(s);
  }

  lemma StepInv(s: Sys, a: Action)
    requires Inv(s)
    ensures Inv(Step(s, a))
  {
    if Enabled(s, a) {
      match a
      case Invoke(req, buf) => InvokeInv(s, req, buf);
      case StoreBytes(at, bytes) => StoreInv(s, at, bytes);
      case ThreadStep => ThreadInv(s);
      case Trap => TrapInv(s);
      case HandlerStep => HandlerInv(s);
      case DevTake => DeviceInv(s, a);
      case DevServe => DeviceInv(s, a);
      case DevMove(_, _) => DeviceInv(s, a);
      case DevFinish => DeviceInv(s, a);
      case DevPush => DeviceInv(s, a);
      case DevBump => DeviceInv(s, a);
      case _ => SignalInv(s, a);
    }
  }

  lemma RunSnoc(s: Sys, acts: seq<Action>, a: Action)
    ensures Run(s, acts + [a]) == Step(Run(s, acts), a)
  {
    assert (acts + [a])[..|acts|] == acts;
  }

  lemma {:induction false} RunConcat(s: Sys, first: seq<Action>, second: seq<Action>)
    ensures Run(s, first + second) == Run(Run(s, first), second)
  {
    hide Step;
    if second == [] {
      ConcatNothing(first);
    } else {
      var front, a := second[..|second| - 1], second[|second| - 1];
      RunConcat(s, first, front);
      SnocConcat(first, second);
      hide Run;
      RunSnoc(s, first + front, a);
      RunSnoc(Run(s, first), front, a);
    }
  }

  lemma {:induction false} RunKeepsInv(s: Sys, acts: seq<Action>)
    requires Inv(s)
    ensures Inv(Run(s, acts))
  {
    if acts != [] {
      RunKeepsInv(s, acts[..|acts| - 1]);
      StepInv(Run(s, acts[..|acts| - 1]), acts[|acts| - 1]);
    }
  }

  /** Every reachable state satisfies the invariant. */
  lemma RunInv(s: Sys, acts: seq<Action>)
    requires Init(s)
    ensures Inv(Run(s, acts))
  {
    InitInv(s);
    RunKeepsInv(s, acts);
  }
}
