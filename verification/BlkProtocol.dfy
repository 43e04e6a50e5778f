/**
 * The block driver, a conforming device and the interrupt path as one step system.
 *
 * Three actors share memory: the thread in virtio_pci_blk_rw (virtio-pci-blk.c), the device, and
 * the trap handler (trap-handler.c), which suspends the thread but not the device. One step is one
 * statement whose effect another actor can see.
 */
module BlkProtocol {
  import opened Basics
  import opened SimpleDisk
  import opened Vring

  // virtio-blk.h
  const BLK_QSIZE: nat := 128
  const SECTOR_SIZE: nat := 512

  /** `struct virtio_blk_req`; type 0 reads the disk, 1 writes it. */
  datatype BlkReq = BlkReq(typ: nat, reserved: nat, sector: nat)

  type Slot = i: nat | i < BLK_QSIZE

  /** Memory shared with the device, and the driver's per-slot arrays. `flag` holds the flag field
      of every `blk_buf` a pointer may refer to; `ring` and `availIdx` are the avail ring, `used`
      and `usedIdx` the used ring. */
  datatype Cells = Cells(
    ops: seq<BlkReq>, status: seq<byte>, info: seq<Option<nat>>, flag: map<nat, nat>,
    desc: seq<Desc>, ring: seq<nat>, availIdx: nat, used: seq<UsedElem>, usedIdx: nat)

  predicate Sized(m: Cells) {
    && |m.ops| == |m.status| == |m.info| == BLK_QSIZE
    && |m.desc| == |m.ring| == |m.used| == BLK_QSIZE
  }

  type Mem = m: Cells | Sized(m)
    witness Cells(seq(BLK_QSIZE, _ => BlkReq(0, 0, 0)), seq(BLK_QSIZE, _ => 0), seq(BLK_QSIZE, _ => None), map[],
                  seq(BLK_QSIZE, _ => Desc(Data(0), 0, 0, 0)), seq(BLK_QSIZE, _ => 0), 0,
                  seq(BLK_QSIZE, _ => UsedElem(0, 0)), 0)

  /** The statement of virtio_pci_blk_rw the thread executes next; Idle is outside the call. */
  datatype Pc = Idle | PutHeader | PutDesc0 | PutDesc1 | PutStatus | PutDesc2 | SetFlag | PutInfo
              | PutAvail | BumpAvail | Notify | Spin | ClearInfo
  {
    function Rank(): nat {
      match this
      case Idle => 0       case PutHeader => 1  case PutDesc0 => 2   case PutDesc1 => 3
      case PutStatus => 4  case PutDesc2 => 5   case SetFlag => 6    case PutInfo => 7
      case PutAvail => 8   case BumpAvail => 9  case Notify => 10    case Spin => 11
      case ClearInfo => 12
    }
  }

  /** The call's locals: the request, the address of its `blk_buf`, and `idx[3]`. */
  datatype Call = Call(req: Request, buf: nat, i0: Slot, i1: Slot, i2: Slot)

  /** The driver thread; `availCtr` is blk->avail_idx. */
  datatype Thread = Thread(pc: Pc, call: Call, availCtr: nat, capacity: nat)

  /** The trap handler; `usedCtr` is blk->used_idx. Fault is a NULL or wild `info` entry. */
  datatype Phase = Out | ClearIsr | Test | Fetch | Ack(buf: nat) | Advance | Complete(irq: nat) | InUart | Fault
  datatype Handler = Handler(phase: Phase, usedCtr: nat)

  /** What the device reads out of a chain: a transfer in sectors, and where the status byte goes. */
  datatype Op = Op(toDisk: bool, sector: nat, at: nat, len: nat, statusSlot: Slot)

  /** The device. `seen` counts avail entries taken, `owes` is a used-ring update not yet signalled.
      While Moving it has still to move the bytes `left` of the transfer, in whatever order it likes. */
  datatype DevPhase =
    | Waiting | Taken(head: nat) | Moving(head: nat, op: Op, left: set<nat>) | Served(head: nat, len: nat) | Pushed
    | Broken
  datatype Dev = Dev(phase: DevPhase, seen: nat, owes: bool)

  /** The device's ISR status, which drives the line, and the PLIC's gateways for the two sources. */
  datatype Irq = Irq(isr: bool, pending: bool, active: bool, uartPending: bool, uartActive: bool)

  /** Unbounded history: accepted calls, used-ring updates, entries drained, finished events. */
  datatype Hist = Hist(calls: nat, used: nat, drained: nat, events: seq<Event>, start: Store)

  datatype Sys = Sys(mem: Mem, thread: Thread, handler: Handler, dev: Dev, irq: Irq, store: Store, hist: Hist)

  datatype Action =
    | Invoke(req: Request, buf: nat)       // the caller enters virtio_pci_blk_rw
    | StoreBytes(at: nat, bytes: seq<byte>) // the caller writes its own memory between requests
    | ThreadStep
    | DevTake | DevServe | DevMove(from: nat, n: nat) | DevFinish | DevPush | DevBump | DevSignal
    | ConfigChange                         // the device raises ISR for a configuration change
    | UartRequest
    | GatewayLatch
    | Trap
    | HandlerStep

  const PCIE_IRQ_PINB: nat := 33
  const UART0_IRQ: nat := 10

  // ---------------------------------------------------------------- the thread

  /** The range check as the code computes it: the sum of two 32-bit fields, in 32 bits. */
  predicate Accepts(r: Request, capacity: nat) {
    (r.addr + r.len) % U32 / SECTOR_SIZE <= capacity
  }

  function HeaderOf(r: Request): BlkReq {
    BlkReq(if r.isWrite then 1 else 0, 0, r.addr / SECTOR_SIZE)
  }

  function Desc0(c: Call): Desc { Desc(Header(c.i0), 16, NEXT, c.i1) }
  function Desc1(c: Call): Desc {
    Desc(Data(c.req.data), c.req.len, (if c.req.isWrite then 0 else WRITE) + NEXT, c.i2)
  }
  function Desc2(c: Call): Desc { Desc(Status(c.i0), 1, WRITE, 0) }

  function Take3(ctr: nat, req: Request, buf: nat): Call {
    Call(req, buf, ctr % BLK_QSIZE, (ctr + 1) % U16 % BLK_QSIZE, (ctr + 2) % U16 % BLK_QSIZE)
  }

  function DoInvoke(s: Sys, req: Request, buf: nat): Sys {
    if !Accepts(req, s.thread.capacity) then s
    else s.(thread := Thread(PutHeader, Take3(s.thread.availCtr, req, buf),
                             (s.thread.availCtr + 3) % U16, s.thread.capacity),
            hist := s.hist.(calls := s.hist.calls + 1))
  }

  function ThreadMem(m: Mem, pc: Pc, c: Call): Mem {
    match pc
    case PutHeader => m.(ops := m.ops[c.i0 := HeaderOf(c.req)])
    case PutDesc0 => m.(desc := m.desc[c.i0 := Desc0(c)])
    case PutDesc1 => m.(desc := m.desc[c.i1 := Desc1(c)])
    case PutStatus => m.(status := m.status[c.i0 := 0xff])
    case PutDesc2 => m.(desc := m.desc[c.i2 := Desc2(c)])
    case SetFlag => m.(flag := m.flag[c.buf := 1])
    case PutInfo => m.(info := m.info[c.i0 := Some(c.buf)])
    case PutAvail => m.(ring := m.ring[m.availIdx % BLK_QSIZE := c.i0])
    case BumpAvail => m.(availIdx := (m.availIdx + 1) % U16)
    case ClearInfo => m.(info := m.info[c.i0 := None])
    case _ => m
  }

  function NextPc(m: Mem, pc: Pc, c: Call): Pc {
    match pc
    case Idle => Idle           case PutHeader => PutDesc0  case PutDesc0 => PutDesc1
    case PutDesc1 => PutStatus  case PutStatus => PutDesc2  case PutDesc2 => SetFlag
    case SetFlag => PutInfo     case PutInfo => PutAvail    case PutAvail => BumpAvail
    case BumpAvail => Notify    case Notify => Spin
    case Spin => if c.buf in m.flag && m.flag[c.buf] == 1 then Spin else ClearInfo
    case ClearInfo => Idle
  }

  function DoThread(s: Sys): Sys {
    var t := s.thread;
    s.(mem := ThreadMem(s.mem, t.pc, t.call),
       thread := t.(pc := NextPc(s.mem, t.pc, t.call)),
       hist := if t.pc.ClearInfo? then s.hist.(events := s.hist.events + [Io(t.call.req)]) else s.hist)
  }

  // ---------------------------------------------------------------- the device

  /** VirtIO 1.1 section 5.2.6: a readable 16-byte header, the data with the direction the type
      asks for, and one writable status byte. */
  function Decode(m: Mem, head: nat): Option<Op> {
    match Walk(m.desc, head, BLK_QSIZE)
    case None => None
    case Some(c) =>
      if |c| != 3 then None
      else
        var d0, d1, d2 := m.desc[c[0]], m.desc[c[1]], m.desc[c[2]];
        if !(d0.addr.Header? && d0.len == 16 && !HasWrite(d0) && d0.addr.slot < |m.ops|) then None
        else if !(d2.addr.Status? && d2.len == 1 && HasWrite(d2) && d2.addr.slot < |m.status|) then None
        else if !d1.addr.Data? then None
        else
          var h := m.ops[d0.addr.slot];
          if h.typ == 0 && HasWrite(d1) then Some(Op(false, h.sector, d1.addr.at, d1.len, d2.addr.slot))
          else if h.typ == 1 && !HasWrite(d1) then Some(Op(true, h.sector, d1.addr.at, d1.len, d2.addr.slot))
          else None
  }

  predicate OpFits(op: Op, st: Store) {
    && op.len % DISK_SECTOR == 0
    && op.sector * DISK_SECTOR + op.len <= |st.disk| && op.at + op.len <= |st.ram|
  }

  /** The bytes `from` to `from + n` of a transfer. */
  function Transfer(op: Op, from: nat, n: nat, st: Store): Store
    requires OpFits(op, st) && from + n <= op.len
  {
    var sector, at := op.sector * DISK_SECTOR + from, op.at + from;
    if op.toDisk then st.(disk := Splice(st.disk, sector, st.ram[at..at + n]))
    else st.(ram := Splice(st.ram, at, st.disk[sector..sector + n]))
  }

  function DoServe(s: Sys, head: nat): Sys {
    match Decode(s.mem, head)
    case None => s.(dev := s.dev.(phase := Broken))
    case Some(op) =>
      if OpFits(op, s.store)
      then s.(dev := s.dev.(phase := Moving(head, op, Span(0, op.len))))
      else s.(mem := s.mem.(status := s.mem.status[op.statusSlot := 1]),
              dev := s.dev.(phase := Served(head, 1)))
  }

  function DoDevice(s: Sys, a: Action): Sys {
    match (a, s.dev.phase)
    case (DevTake, Waiting) =>
      s.(dev := Dev(Taken(s.mem.ring[s.dev.seen % BLK_QSIZE]), (s.dev.seen + 1) % U16, s.dev.owes))
    case (DevServe, Taken(head)) => DoServe(s, head)
    case (DevMove(from, n), Moving(head, op, left)) =>
      if OpFits(op, s.store) && from + n <= op.len
      then s.(store := Transfer(op, from, n, s.store), dev := s.dev.(phase := Moving(head, op, left - Span(from, n))))
      else s
    case (DevFinish, Moving(head, op, _)) =>
      s.(mem := s.mem.(status := s.mem.status[op.statusSlot := 0]),
         dev := s.dev.(phase := Served(head, if op.toDisk then 1 else op.len + 1)))
    case (DevPush, Served(head, len)) =>
      s.(mem := s.mem.(used := s.mem.used[s.mem.usedIdx % BLK_QSIZE := UsedElem(head, len)]),
         dev := s.dev.(phase := Pushed))
    case (DevBump, Pushed) =>
      s.(mem := s.mem.(usedIdx := (s.mem.usedIdx + 1) % U16), dev := s.dev.(phase := Waiting, owes := true),
         hist := s.hist.(used := s.hist.used + 1))
    case (DevSignal, _) => s.(irq := s.irq.(isr := true), dev := s.dev.(owes := false))
    case _ => s
  }

  // ---------------------------------------------------------------- the interrupt path

  /** Claim returns the lowest pending source: both have priority 1. */
  function DoTrap(s: Sys): Sys {
    if s.irq.uartPending
    then s.(irq := s.irq.(uartPending := false, uartActive := true), handler := s.handler.(phase := InUart))
    else s.(irq := s.irq.(pending := false, active := true), handler := s.handler.(phase := ClearIsr))
  }

  function DoHandler(s: Sys): Sys {
    var h := s.handler;
    match h.phase
    case ClearIsr => s.(irq := s.irq.(isr := false), handler := h.(phase := Test))
    case Test =>
      s.(handler := h.(phase := if h.usedCtr != s.mem.usedIdx then Fetch else Complete(PCIE_IRQ_PINB)))
    case Fetch =>
      var id := s.mem.used[h.usedCtr % BLK_QSIZE].id;
      s.(handler := h.(phase := if id < |s.mem.info| && s.mem.info[id].Some? then Ack(s.mem.info[id].value) else Fault))
    case Ack(buf) => s.(mem := s.mem.(flag := s.mem.flag[buf := 0]), handler := h.(phase := Advance))
    case Advance =>
      s.(handler := Handler(Test, (h.usedCtr + 1) % U16), hist := s.hist.(drained := s.hist.drained + 1))
    case InUart => s.(handler := h.(phase := Complete(UART0_IRQ)))
    case Complete(irq) =>
      s.(irq := if irq == UART0_IRQ then s.irq.(uartActive := false) else s.irq.(active := false),
         handler := h.(phase := Out))
    case _ => s
  }

  // ---------------------------------------------------------------- steps and runs

  /** `info` when no call is in progress. */
  function Vacant(n: nat): (info: seq<Option<nat>>)
    ensures |info| == n
  {
    if n == 0 then [] else Vacant(n - 1) + [None]
  }

  lemma {:induction false} VacantAt(n: nat, i: nat)
    requires i < n
    ensures Vacant(n)[i] == None
  {
    if i < n - 1 {
      VacantAt(n - 1, i);
    }
  }

  /** What a caller must provide: fields of their declared width and a buffer it owns. */
  predicate Legal(r: Request, s: Sys) {
    r.addr < U32 && r.len < U32 && r.data + r.len <= |s.store.ram|
  }

  predicate Enabled(s: Sys, a: Action) {
    match a
    case Invoke(req, buf) => s.thread.pc.Idle? && s.handler.phase.Out? && Legal(req, s)
    case StoreBytes(at, bytes) => s.thread.pc.Idle? && s.handler.phase.Out?
    case ThreadStep => !s.thread.pc.Idle? && s.handler.phase.Out?
    case DevTake => s.dev.phase.Waiting? && s.dev.seen != s.mem.availIdx
    case DevServe => s.dev.phase.Taken?
    case DevMove(from, n) => s.dev.phase.Moving? && 0 < n && Span(from, n) <= s.dev.phase.left
    case DevFinish => s.dev.phase.Moving? && s.dev.phase.left == {}
    case DevPush => s.dev.phase.Served?
    case DevBump => s.dev.phase.Pushed?
    case DevSignal => s.dev.owes
    case ConfigChange => !s.dev.phase.Broken?
    case UartRequest => !s.irq.uartPending && !s.irq.uartActive
    case GatewayLatch => s.irq.isr && !s.irq.pending && !s.irq.active
    case Trap => s.handler.phase.Out? && (s.irq.pending || s.irq.uartPending)
    case HandlerStep => !s.handler.phase.Out? && !s.handler.phase.Fault?
  }

  function Step(s: Sys, a: Action): Sys {
    if !Enabled(s, a) then s
    else match a
      case Invoke(req, buf) => DoInvoke(s, req, buf)
      case StoreBytes(at, bytes) =>
        s.(store := Exec(Poke(at, bytes), s.store), hist := s.hist.(events := s.hist.events + [Poke(at, bytes)]))
      case ThreadStep => DoThread(s)
      case ConfigChange => s.(irq := s.irq.(isr := true))
      case UartRequest => s.(irq := s.irq.(uartPending := true))
      case GatewayLatch => s.(irq := s.irq.(pending := true))
      case Trap => DoTrap(s)
      case HandlerStep => DoHandler(s)
      case _ => DoDevice(s, a)
  }

  /** The state after the actions in order; one that is not enabled leaves the state alone. */
  function Run(s: Sys, acts: seq<Action>): Sys {
    if acts == [] then s else Step(Run(s, acts[..|acts| - 1]), acts[|acts| - 1])
  }

  /** The state virtio_pci_blk_init leaves: zeroed static memory, queue 0 of 128 entries, and a
      device that has seen nothing. `capacity` is the low 32 bits of the device's sector count. */
  predicate Init(s: Sys) {
    && s.mem.availIdx == s.mem.usedIdx == 0 && s.mem.info == Vacant(|s.mem.info|)
    && s.thread.pc.Idle? && s.thread.availCtr == 0
    && s.thread.capacity == |s.store.disk| / DISK_SECTOR % U32
    && s.handler == Handler(Out, 0)
    && s.dev == Dev(Waiting, 0, false)
    && s.irq == Irq(false, false, false, false, false)
    && s.hist == Hist(0, 0, 0, [], s.store)
  }
}
