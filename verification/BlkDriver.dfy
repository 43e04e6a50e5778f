/**
 * virtio-pci-blk.c and the handler half of trap-handler.c as code over shared arrays.
 *
 * Between any two statements the other actors may act: `Interfere` lets the device and, in the
 * thread, the trap handler take any number of steps. `budget` bounds the interrupts that nobody
 * waits for (configuration changes, UART) and nothing else.
 */
module BlkDriver {
  import opened Basics
  import opened SimpleDisk
  import opened Vring
  import opened BlkProtocol
  import opened BlkInvariant
  import opened BlkTheorems
  import opened BlkLiveness
  import opened BlkRuns

  class Machine {
    // gs_virtio_blk
    const ops: array<BlkReq>
    const status: array<byte>
    const info: array<Option<nat>>
    var usedCtr: nat
    var availCtr: nat
    var capacity: nat
    // its vring
    const desc: array<Desc>
    const ring: array<nat>
    const used: array<UsedElem>
    var availIdx: nat
    var usedIdx: nat
    // the flag of every blk_buf, the callers' memory and the disk
    var flag: map<nat, nat>
    var store: Store
    // the device and the interrupt lines
    var dev: Dev
    var irq: Irq
    // where the thread and the handler are, and what has happened
    var pc: Pc
    var call: Call
    var phase: Phase
    var hist: Hist

    ghost predicate Shape() {
      && ops.Length == status.Length == info.Length == BLK_QSIZE
      && desc.Length == ring.Length == used.Length == BLK_QSIZE
    }

    function Memory(): (m: Mem)
      reads this, ops, status, info, desc, ring, used
      requires Shape()
    {
      Cells(ops[..], status[..], info[..], flag, desc[..], ring[..], availIdx, used[..], usedIdx)
    }

    /** The state of the step system this machine is in. */
    function Abs(): (s: Sys)
      reads this, ops, status, info, desc, ring, used
      requires Shape()
    {
      Sys(Memory(), Thread(pc, call, availCtr, capacity), Handler(phase, usedCtr), dev, irq, store, hist)
    }

    ghost predicate At(p: Pc)
      reads this, ops, status, info, desc, ring, used
    {
      Shape() && Inv(Abs()) && pc == p && phase.Out?
    }

    /** What virtio_pci_blk_init and the zeroed static memory leave. */
    constructor (initial: Store)
      ensures Shape() && Init(Abs()) && At(Idle) && store == initial
      ensures fresh(ops) && fresh(status) && fresh(info) && fresh(desc) && fresh(ring) && fresh(used)
    {
      ops := new BlkReq[BLK_QSIZE](_ => BlkReq(0, 0, 0));
      status := new byte[BLK_QSIZE](_ => 0);
      info := new Option<nat>[BLK_QSIZE](_ => None);
      desc := new Desc[BLK_QSIZE](_ => Desc(Data(0), 0, 0, 0));
      ring := new nat[BLK_QSIZE](_ => 0);
      used := new UsedElem[BLK_QSIZE](_ => UsedElem(0, 0));
      usedCtr, availCtr, availIdx, usedIdx, flag := 0, 0, 0, 0, map[];
      capacity := |initial.disk| / DISK_SECTOR % U32;
      store, dev, irq := initial, Dev(Waiting, 0, false), Irq(false, false, false, false, false);
      pc, phase, hist := Idle, Out, Hist(0, 0, 0, [], initial);
      call := Call(Request(0, 0, 0, false), 0, 0, 0, 0);
      new;
      forall i: nat | i < |info[..]|
        ensures info[..][i] == Vacant(|info[..]|)[i]
      {
        VacantAt(|info[..]|, i);
      }
      assert info[..] == Vacant(|info[..]|);
      InitInv(Abs());
    }

    /** virtio_vring_fill_desc */
    method FillDesc(i: nat, addr: Ptr, len: nat, flags: nat, next: nat)
      requires Shape() && i < BLK_QSIZE
      modifies desc
      ensures desc[..] == old(desc[..])[i := Desc(addr, len, flags, next)]
    {
      desc[i] := Desc(addr, len, flags, next);
    }

    // -------------------------------------------------------------- the device

    method DeviceTake()
      requires Shape() && dev.phase.Waiting?
      modifies this
      ensures Abs() == DoDevice(old(Abs()), DevTake)
    {
      dev := Dev(Taken(ring[dev.seen % BLK_QSIZE]), (dev.seen + 1) % U16, dev.owes);
    }

    method DeviceServe()
      requires Shape() && dev.phase.Taken?
      modifies this, status
      ensures Abs() == DoDevice(old(Abs()), DevServe)
    {
      var op := Decode(Memory(), dev.phase.head);
      if op.None? {
        dev := dev.(phase := Broken);
      } else if OpFits(op.value, store) {
        dev := dev.(phase := Moving(dev.phase.head, op.value, Span(0, op.value.len)));
      } else {
        status[op.value.statusSlot] := 1;
        dev := dev.(phase := Served(dev.phase.head, 1));
      }
    }

    method DeviceMove(from: nat, n: nat)
      requires Shape() && dev.phase.Moving?
      modifies this
      ensures Abs() == DoDevice(old(Abs()), DevMove(from, n))
    {
      if OpFits(dev.phase.op, store) && from + n <= dev.phase.op.len {
        store := Transfer(dev.phase.op, from, n, store);
        dev := dev.(phase := dev.phase.(left := dev.phase.left - Span(from, n)));
      }
    }

    method DeviceFinish()
      requires Shape() && dev.phase.Moving?
      modifies this, status
      ensures Abs() == DoDevice(old(Abs()), DevFinish)
    {
      var op := dev.phase.op;
      status[op.statusSlot] := 0;
      dev := dev.(phase := Served(dev.phase.head, if op.toDisk then 1 else op.len + 1));
    }

    method DevicePush()
      requires Shape() && dev.phase.Served?
      modifies this, used
      ensures Abs() == DoDevice(old(Abs()), DevPush)
    {
      used[usedIdx % BLK_QSIZE] := UsedElem(dev.phase.head, dev.phase.len);
      dev := dev.(phase := Pushed);
    }

    method DeviceBump()
      requires Shape() && dev.phase.Pushed?
      modifies this
      ensures Abs() == DoDevice(old(Abs()), DevBump)
    {
      usedIdx := (usedIdx + 1) % U16;
      dev := dev.(phase := Waiting, owes := true);
      hist := hist.(used := hist.used + 1);
    }

    /** One step of the device or of an interrupt line. */
    method DeviceStep(a: Action)
      requires Shape() && Enabled(Abs(), a) && Outside(a)
      modifies this, status, used
      ensures Abs() == Step(old(Abs()), a)
    {
      match a
      case DevTake => DeviceTake();
      case DevServe => DeviceServe();
      case DevMove(from, n) => DeviceMove(from, n);
      case DevFinish => DeviceFinish();
      case DevPush => DevicePush();
      case DevBump => DeviceBump();
      case DevSignal => irq := irq.(isr := true); dev := dev.(owes := false);
      case ConfigChange => irq := irq.(isr := true);
      case UartRequest => irq := irq.(uartPending := true);
      case GatewayLatch => irq := irq.(pending := true);
    }

    /** Any number of steps of the device and the lines. */
    method DeviceActivity(budget: nat) returns (left: nat, ghost acts: seq<Action>)
      requires Shape()
      modifies this, status, used
      ensures Abs() == Run(old(Abs()), acts) && Paid(old(Abs()), acts, budget, left)
      ensures forall a :: a in acts ==> Outside(a)
      ensures phase == old(phase) && usedCtr == old(usedCtr) && Frame(old(hist), hist)
    {
      hide Run, TotalCost;
      NoSteps(old(Abs()));
      left, acts := budget, [];
      var n: int := *;
      while n > 0
        invariant phase == old(phase) && usedCtr == old(usedCtr) && Frame(old(hist), hist)
        invariant Abs() == Run(old(Abs()), acts) && Paid(old(Abs()), acts, budget, left)
        invariant forall a :: a in acts ==> Outside(a)
      {
        var a: Action := *;
        if Outside(a) && Enabled(Abs(), a) && (Unasked(a) ==> left > 0) {
          Then(old(Abs()), acts, a);
          DeviceStep(a);
          left, acts := if Unasked(a) then left - 1 else left, acts + [a];
        }
        n := n - 1;
      }
    }

    // -------------------------------------------------------------- the handler

    /** The handler has taken its step; the device goes on until its next one. */
    method AfterHandlerStep(ghost s: Sys, budget: nat) returns (left: nat, ghost acts: seq<Action>)
      requires Shape() && Abs() == Step(s, HandlerStep)
      modifies this, status, used
      ensures Abs() == Run(s, acts) && Paid(s, acts, budget, left) && InHandler(acts) && |acts| >= 1
      ensures phase == old(phase) && usedCtr == old(usedCtr) && Frame(old(hist), hist)
    {
      hide Run, TotalCost;
      NoSteps(s);
      Then(s, [], HandlerStep);
      assert [] + [HandlerStep] == [HandlerStep];
      left, acts := DeviceActivity(budget);
      acts := Joined(s, [HandlerStep], acts);
    }

    method ClearIsr(budget: nat) returns (left: nat, ghost acts: seq<Action>)
      requires Shape() && phase.ClearIsr?
      modifies this, status, used
      ensures Abs() == Run(old(Abs()), acts) && Paid(old(Abs()), acts, budget, left) && InHandler(acts)
      ensures phase.Test? && Frame(old(hist), hist)
    {
      irq := irq.(isr := false);
      phase := Test;
      left, acts := AfterHandlerStep(old(Abs()), budget);
    }

    method EnterBody(budget: nat) returns (left: nat, ghost acts: seq<Action>)
      requires Shape() && phase.Test? && usedCtr != usedIdx
      modifies this, status, used
      ensures Abs() == Run(old(Abs()), acts) && Paid(old(Abs()), acts, budget, left) && InHandler(acts)
      ensures phase.Fetch? && Frame(old(hist), hist)
    {
      phase := Fetch;
      left, acts := AfterHandlerStep(old(Abs()), budget);
    }

    method FetchEntry(budget: nat) returns (b: nat, left: nat, ghost acts: seq<Action>)
      requires Shape() && Inv(Abs()) && phase.Fetch?
      modifies this, status, used
      ensures Abs() == Run(old(Abs()), acts) && Paid(old(Abs()), acts, budget, left) && InHandler(acts)
      ensures phase == Ack(b) && Frame(old(hist), hist)
    {
      FetchFindsWaiter(Abs());
      var id := used[usedCtr % BLK_QSIZE].id;
      b := info[id].value;
      phase := Ack(b);
      left, acts := AfterHandlerStep(old(Abs()), budget);
    }

    method Acknowledge(b: nat, budget: nat) returns (left: nat, ghost acts: seq<Action>)
      requires Shape() && phase == Ack(b)
      modifies this, status, used
      ensures Abs() == Run(old(Abs()), acts) && Paid(old(Abs()), acts, budget, left) && InHandler(acts)
      ensures phase.Advance? && Frame(old(hist), hist)
    {
      flag := flag[b := 0];
      phase := Advance;
      left, acts := AfterHandlerStep(old(Abs()), budget);
    }

    method StepUsed()
      requires Shape() && phase.Advance?
      modifies this`usedCtr, this`phase, this`hist
      ensures Abs() == Step(old(Abs()), HandlerStep) && phase.Test?
      ensures hist == old(hist).(drained := old(hist).drained + 1)
    {
      usedCtr := (usedCtr + 1) % U16;
      phase := Test;
      hist := hist.(drained := hist.drained + 1);
    }

    method AdvanceUsed(budget: nat) returns (left: nat, ghost acts: seq<Action>)
      requires Shape() && phase.Advance?
      modifies this, status, used
      ensures Abs() == Run(old(Abs()), acts) && Paid(old(Abs()), acts, budget, left) && InHandler(acts)
      ensures phase.Test? && Frame(old(hist).(drained := old(hist).drained + 1), hist)
    {
      StepUsed();
      left, acts := AfterHandlerStep(old(Abs()), budget);
    }

    /** One turn of the drain loop, after its test has passed. */
    method DrainOne(budget: nat) returns (left: nat, ghost acts: seq<Action>)
      requires Shape() && Inv(Abs()) && phase.Test? && usedCtr != usedIdx
      modifies this, status, used
      ensures Abs() == Run(old(Abs()), acts) && Paid(old(Abs()), acts, budget, left) && InHandler(acts)
      ensures phase.Test? && Frame(old(hist).(drained := old(hist).drained + 1), hist)
    {
      hide Run, TotalCost;
      ghost var s, more := Abs(), [];
      var b;
      left, acts := EnterBody(budget);
      RunKeepsInv(s, acts);
      b, left, more := FetchEntry(left);
      acts := Joined(s, acts, more);
      left, more := Acknowledge(b, left);
      acts := Joined(s, acts, more);
      left, more := AdvanceUsed(left);
      acts := Joined(s, acts, more);
    }

    /** The drain loop. */
    method Drain(budget: nat) returns (left: nat, ghost acts: seq<Action>)
      requires Shape() && Inv(Abs()) && phase.Test?
      modifies this, status, used
      ensures Abs() == Run(old(Abs()), acts) && Paid(old(Abs()), acts, budget, left) && InHandler(acts)
      ensures Inv(Abs()) && phase.Test? && usedCtr == usedIdx
    {
      hide Run, TotalCost;
      NoSteps(Abs());
      ghost var s, more := Abs(), [];
      left, acts := budget, [];
      while usedCtr != usedIdx
        invariant Abs() == Run(s, acts) && Paid(s, acts, budget, left) && InHandler(acts)
        invariant Inv(Abs()) && phase.Test?
        decreases hist.calls - hist.drained
      {
        left, more := DrainOne(left);
        acts := Joined(s, acts, more);
        RunKeepsInv(s, acts);
      }
    }

    method LeaveDrain()
      requires Shape() && phase.Test? && usedCtr == usedIdx
      modifies this`phase
      ensures Abs() == Step(old(Abs()), HandlerStep) && phase == Complete(PCIE_IRQ_PINB)
    {
      phase := Complete(PCIE_IRQ_PINB);
    }

    /** virtio_pci_blk_intr: clear the device's ISR, then drain the used ring. */
    method Intr(budget: nat) returns (left: nat, ghost acts: seq<Action>)
      requires Shape() && Inv(Abs()) && phase.ClearIsr?
      modifies this, status, used
      ensures Abs() == Run(old(Abs()), acts) && Paid(old(Abs()), acts, budget, left) && InHandler(acts)
      ensures phase == Complete(PCIE_IRQ_PINB) && usedCtr == usedIdx
    {
      hide Inv, Run, TotalCost, Step;
      ghost var s, more := Abs(), [];
      left, acts := ClearIsr(budget);
      RunKeepsInv(s, acts);
      left, more := Drain(left);
      acts := Joined(s, acts, more);
      Then(s, acts, HandlerStep);
      LeaveDrain();
      acts := acts + [HandlerStep];
    }

    // -------------------------------------------------------------- the trap

    /** plic_claim: the lowest pending source, or 0; the caller goes to that source's handler. */
    method Claim() returns (id: nat)
      requires Shape() && phase.Out?
      modifies this`irq, this`phase
      ensures id == if old(irq).uartPending then UART0_IRQ else if old(irq).pending then PCIE_IRQ_PINB else 0
      ensures phase == if id == UART0_IRQ then InUart else if id == 0 then Out else Phase.ClearIsr
      ensures Abs() == if id == 0 then old(Abs()) else Step(old(Abs()), Trap)
    {
      id := 0;
      if irq.uartPending {
        irq, phase, id := irq.(uartPending := false, uartActive := true), InUart, UART0_IRQ;
      } else if irq.pending {
        irq, phase, id := irq.(pending := false, active := true), Phase.ClearIsr, PCIE_IRQ_PINB;
      }
    }

    /** UartIsr touches nothing modelled here. */
    method UartIsr(budget: nat) returns (left: nat, ghost acts: seq<Action>)
      requires Shape() && phase.InUart?
      modifies this, status, used
      ensures Abs() == Run(old(Abs()), acts) && Paid(old(Abs()), acts, budget, left) && InHandler(acts)
      ensures phase == Complete(UART0_IRQ)
    {
      phase := Complete(UART0_IRQ);
      left, acts := AfterHandlerStep(old(Abs()), budget);
    }

    /** plic_complete */
    method PlicComplete(id: nat)
      requires Shape() && phase == Complete(id)
      modifies this
      ensures Abs() == Step(old(Abs()), HandlerStep) && phase.Out?
    {
      irq := if id == UART0_IRQ then irq.(uartActive := false) else irq.(active := false);
      phase := Out;
    }

    /** The dispatch on a claimed source, and plic_complete. */
    method Serve(id: nat, budget: nat) returns (left: nat, ghost acts: seq<Action>)
      requires Shape() && Inv(Abs())
      requires (id == UART0_IRQ && phase.InUart?) || (id == PCIE_IRQ_PINB && phase.ClearIsr?)
      modifies this, status, used
      ensures Abs() == Run(old(Abs()), acts) && Paid(old(Abs()), acts, budget, left) && InHandler(acts)
      ensures phase.Out?
    {
      if id == UART0_IRQ {
        left, acts := UartIsr(budget);
      } else {
        left, acts := Intr(budget);
      }
      Then(old(Abs()), acts, HandlerStep);
      PlicComplete(id);
      acts := acts + [HandlerStep];
    }

    /** handle_external_trap: claim, dispatch, complete; a claim of nothing is left alone. */
    method HandleExternalTrap(budget: nat) returns (left: nat, ghost acts: seq<Action>)
      requires Shape() && Inv(Abs()) && phase.Out?
      modifies this, status, used
      ensures Abs() == Run(old(Abs()), acts) && Paid(old(Abs()), acts, budget, left)
      ensures phase.Out?
      ensures ByOthers(acts)
      ensures if old(irq).uartPending || old(irq).pending then acts != [] && acts[0] == Trap else acts == []
    {
      left, acts := budget, [];
      var id := Claim();
      if id != 0 {
        Then(old(Abs()), [], Trap);
        RunKeepsInv(old(Abs()), [Trap]);
        left, acts := Serve(id, budget);
        acts := Joined(old(Abs()), [Trap], acts);
      }
    }

    // -------------------------------------------------------------- the thread

    method OutsideStep(a: Action, budget: nat) returns (left: nat, ghost acts: seq<Action>)
      requires Shape() && Outside(a) && Enabled(Abs(), a) && (Unasked(a) ==> budget > 0)
      modifies this, status, used
      ensures Abs() == Run(old(Abs()), acts) && Paid(old(Abs()), acts, budget, left)
      ensures acts == [a] && phase == old(phase) && left == (if Unasked(a) then budget - 1 else budget)
    {
      Then(old(Abs()), [], a);
      DeviceStep(a);
      left, acts := if Unasked(a) then budget - 1 else budget, [a];
    }

    /** One step of anyone but the thread. */
    method OthersStep(a: Action, budget: nat) returns (left: nat, ghost acts: seq<Action>)
      requires Shape() && Inv(Abs()) && phase.Out?
      requires (Outside(a) || a.Trap?) && Enabled(Abs(), a) && (Unasked(a) ==> budget > 0)
      modifies this, status, used
      ensures Abs() == Run(old(Abs()), acts) && Paid(old(Abs()), acts, budget, left) && ByOthers(acts)
      ensures acts != [] && acts[0] == a && phase.Out?
      ensures Unasked(a) ==> acts == [a] && left == budget - 1
    {
      hide Run, TotalCost, Step;
      if a.Trap? {
        left, acts := HandleExternalTrap(budget);
      } else {
        left, acts := OutsideStep(a, budget);
      }
    }

    /** Any number of steps of the others, whole traps included. */
    method Interfere(budget: nat) returns (left: nat, ghost acts: seq<Action>)
      requires Shape() && Inv(Abs()) && phase.Out?
      modifies this, status, used
      ensures Abs() == Run(old(Abs()), acts) && Paid(old(Abs()), acts, budget, left) && ByOthers(acts)
      ensures Inv(Abs()) && phase.Out?
    {
      left, acts := budget, [];
      ghost var more;
      var n: int := *;
      while n > 0
        invariant Abs() == Run(old(Abs()), acts) && Paid(old(Abs()), acts, budget, left) && ByOthers(acts)
        invariant Inv(Abs()) && phase.Out?
      {
        var a: Action := *;
        if (Outside(a) || a.Trap?) && Enabled(Abs(), a) && (Unasked(a) ==> left > 0) {
          left, more := OthersStep(a, left);
          acts := Joined(old(Abs()), acts, more);
          RunKeepsInv(old(Abs()), acts);
        }
        n := n - 1;
      }
    }

    /** The thread has taken its step; the others go on until its next one. */
    method AfterThreadStep(ghost s: Sys, budget: nat) returns (left: nat, ghost acts: seq<Action>)
      requires Shape() && Inv(s) && Abs() == Step(s, ThreadStep) && phase.Out?
      modifies this, status, used
      ensures Abs() == Run(s, acts) && Paid(s, acts, budget, left) && InCall(acts)
      ensures Inv(Abs()) && phase.Out? && pc == old(pc) && call == old(call)
    {
      StepInv(s, ThreadStep);
      left, acts := Interfere(budget);
      ThreadThenOthers(s, acts);
      acts := [ThreadStep] + acts;
    }

    method WriteHeader(budget: nat) returns (left: nat, ghost acts: seq<Action>)
      requires At(Pc.PutHeader)
      modifies this, ops, status, used
      ensures Abs() == Run(old(Abs()), acts) && Paid(old(Abs()), acts, budget, left) && InCall(acts)
      ensures At(PutDesc0) && call == old(call)
    {
      var req := call.req;
      ops[call.i0] := BlkReq(if req.isWrite then 1 else 0, 0, req.addr / SECTOR_SIZE);
      pc := PutDesc0;
      left, acts := AfterThreadStep(old(Abs()), budget);
    }

    method WriteDesc0(budget: nat) returns (left: nat, ghost acts: seq<Action>)
      requires At(Pc.PutDesc0)
      modifies this, desc, status, used
      ensures Abs() == Run(old(Abs()), acts) && Paid(old(Abs()), acts, budget, left) && InCall(acts)
      ensures At(PutDesc1) && call == old(call)
    {
      FillDesc(call.i0, Header(call.i0), 16, NEXT, call.i1);
      pc := PutDesc1;
      left, acts := AfterThreadStep(old(Abs()), budget);
    }

    method WriteDesc1(budget: nat) returns (left: nat, ghost acts: seq<Action>)
      requires At(Pc.PutDesc1)
      modifies this, desc, status, used
      ensures Abs() == Run(old(Abs()), acts) && Paid(old(Abs()), acts, budget, left) && InCall(acts)
      ensures At(PutStatus) && call == old(call)
    {
      var req := call.req;
      FillDesc(call.i1, Data(req.data), req.len, (if req.isWrite then 0 else WRITE) + NEXT, call.i2);
      pc := PutStatus;
      left, acts := AfterThreadStep(old(Abs()), budget);
    }

    method WriteStatus(budget: nat) returns (left: nat, ghost acts: seq<Action>)
      requires At(Pc.PutStatus)
      modifies this, status, used
      ensures Abs() == Run(old(Abs()), acts) && Paid(old(Abs()), acts, budget, left) && InCall(acts)
      ensures At(PutDesc2) && call == old(call)
    {
      status[call.i0] := 0xff;
      pc := PutDesc2;
      left, acts := AfterThreadStep(old(Abs()), budget);
    }

    method WriteDesc2(budget: nat) returns (left: nat, ghost acts: seq<Action>)
      requires At(Pc.PutDesc2)
      modifies this, desc, status, used
      ensures Abs() == Run(old(Abs()), acts) && Paid(old(Abs()), acts, budget, left) && InCall(acts)
      ensures At(SetFlag) && call == old(call)
    {
      FillDesc(call.i2, Status(call.i0), 1, WRITE, 0);
      pc := SetFlag;
      left, acts := AfterThreadStep(old(Abs()), budget);
    }

    method RaiseFlag(budget: nat) returns (left: nat, ghost acts: seq<Action>)
      requires At(Pc.SetFlag)
      modifies this, status, used
      ensures Abs() == Run(old(Abs()), acts) && Paid(old(Abs()), acts, budget, left) && InCall(acts)
      ensures At(PutInfo) && call == old(call)
    {
      flag := flag[call.buf := 1];
      pc := PutInfo;
      left, acts := AfterThreadStep(old(Abs()), budget);
    }

    method WriteInfo(budget: nat) returns (left: nat, ghost acts: seq<Action>)
      requires At(Pc.PutInfo)
      modifies this, info, status, used
      ensures Abs() == Run(old(Abs()), acts) && Paid(old(Abs()), acts, budget, left) && InCall(acts)
      ensures At(PutAvail) && call == old(call)
    {
      info[call.i0] := Some(call.buf);
      pc := PutAvail;
      left, acts := AfterThreadStep(old(Abs()), budget);
    }

    method WriteAvail(budget: nat) returns (left: nat, ghost acts: seq<Action>)
      requires At(Pc.PutAvail)
      modifies this, ring, status, used
      ensures Abs() == Run(old(Abs()), acts) && Paid(old(Abs()), acts, budget, left) && InCall(acts)
      ensures At(BumpAvail) && call == old(call)
    {
      ring[availIdx % BLK_QSIZE] := call.i0;
      pc := BumpAvail;
      left, acts := AfterThreadStep(old(Abs()), budget);
    }

    method BumpIndex()
      requires Shape() && pc.BumpAvail?
      modifies this`availIdx, this`pc
      ensures Abs() == DoThread(old(Abs()))
    {
      availIdx := (availIdx + 1) % U16;
      pc := Notify;
    }

    method PublishAvail(budget: nat) returns (left: nat, ghost acts: seq<Action>)
      requires At(Pc.BumpAvail)
      modifies this, status, used
      ensures Abs() == Run(old(Abs()), acts) && Paid(old(Abs()), acts, budget, left) && InCall(acts)
      ensures At(Notify) && call == old(call)
    {
      hide Inv, Run, TotalCost;
      BumpIndex();
      left, acts := AfterThreadStep(old(Abs()), budget);
    }

    method RingDoorbell(budget: nat) returns (left: nat, ghost acts: seq<Action>)
      requires At(Pc.Notify)
      modifies this, status, used
      ensures Abs() == Run(old(Abs()), acts) && Paid(old(Abs()), acts, budget, left) && InCall(acts)
      ensures At(Spin) && call == old(call)
    {
      // the doorbell; a device may have taken the chain before it rings
      pc := Spin;
      left, acts := AfterThreadStep(old(Abs()), budget);
    }

    /** virtio_vring_add_avail: the entry before the index that makes it visible. */
    method AddAvail(budget: nat) returns (left: nat, ghost acts: seq<Action>)
      requires At(Pc.PutAvail)
      modifies this, ring, status, used
      ensures Abs() == Run(old(Abs()), acts) && Paid(old(Abs()), acts, budget, left) && InCall(acts)
      ensures At(Pc.Notify) && call == old(call)
    {
      ghost var more;
      left, acts := WriteAvail(budget);
      left, more := PublishAvail(left);
      acts := Joined(old(Abs()), acts, more);
    }

    /** The next three slots of the free-running counter. */
    method DrawSlots() returns (idx: array<Slot>)
      modifies this`availCtr
      ensures fresh(idx) && idx.Length == 3 && availCtr == (old(availCtr) + 3) % U16
      ensures old(availCtr) < U16 ==> forall j :: 0 <= j < 3 ==> idx[j] == (old(availCtr) + j) % U16 % BLK_QSIZE
    {
      idx := new Slot[3];
      var ctr := availCtr;
      for i := 0 to 3
        invariant availCtr == if i == 0 then ctr else (ctr + i) % U16
        invariant ctr < U16 ==> forall j :: 0 <= j < i ==> idx[j] == (ctr + j) % U16 % BLK_QSIZE
      {
        idx[i] := availCtr % BLK_QSIZE;
        availCtr := (availCtr + 1) % U16;
        WrapAdd(ctr + i, 1);
      }
    }

    method TakeSlots(req: Request, buf: nat)
      requires Shape() && availCtr < U16 && pc.Idle? && phase.Out? && Accepts(req, capacity)
      modifies this
      ensures Abs() == DoInvoke(old(Abs()), req, buf) && pc == Pc.PutHeader && phase.Out?
    {
      hide Run, Inv;
      var idx := DrawSlots();
      var drawn := Call(req, buf, idx[0], idx[1], idx[2]);
      assert drawn == Take3(old(availCtr), req, buf);
      hide Take3;
      call := drawn;
      pc := Pc.PutHeader;
      hist := hist.(calls := hist.calls + 1);
    }

    /** Header, descriptors and status byte: everything the device will read or write. */
    method BuildChain(budget: nat) returns (left: nat, ghost acts: seq<Action>)
      requires At(Pc.PutHeader)
      modifies this, ops, desc, status, used
      ensures Abs() == Run(old(Abs()), acts) && Paid(old(Abs()), acts, budget, left) && InCall(acts)
      ensures At(Pc.SetFlag) && call == old(call)
    {
      ghost var s, more := Abs(), [];
      left, acts := WriteHeader(budget);
      left, more := WriteDesc0(left);
      acts := Joined(s, acts, more);
      left, more := WriteDesc1(left);
      acts := Joined(s, acts, more);
      left, more := WriteStatus(left);
      acts := Joined(s, acts, more);
      left, more := WriteDesc2(left);
      acts := Joined(s, acts, more);
    }

    /** The flag and `info` before the avail ring, so that the handler finds both. */
    method Publish(budget: nat) returns (left: nat, ghost acts: seq<Action>)
      requires At(Pc.SetFlag)
      modifies this, info, ring, status, used
      ensures Abs() == Run(old(Abs()), acts) && Paid(old(Abs()), acts, budget, left) && InCall(acts)
      ensures At(Spin) && call == old(call)
    {
      ghost var s, more := Abs(), [];
      left, acts := RaiseFlag(budget);
      left, more := WriteInfo(left);
      acts := Joined(s, acts, more);
      left, more := AddAvail(left);
      acts := Joined(s, acts, more);
      left, more := RingDoorbell(left);
      acts := Joined(s, acts, more);
    }

    /** Some step of the others: any that is possible and moves on, or an interrupt nobody asked for. */
    method PickStep(budget: nat) returns (a: Action)
      requires At(Spin) && Spinning(Abs())
      ensures Enabled(Abs(), a) && (Outside(a) || a.Trap?)
      ensures Progress(Abs(), a) || (Unasked(a) && budget > 0)
    {
      a := *;
      if !((Outside(a) || a.Trap?) && (Progress(Abs(), a) || (Unasked(a) && Enabled(Abs(), a) && budget > 0))) {
        SomeProgress(Abs());
        a := Possible(Abs());
      }
    }

    /** While the thread rereads the flag, at least one other step happens. */
    method SpinOnce(budget: nat) returns (left: nat, ghost acts: seq<Action>)
      requires At(Spin) && Spinning(Abs())
      modifies this, status, used
      ensures Abs() == Run(old(Abs()), acts) && Paid(old(Abs()), acts, budget, left) && InCall(acts)
      ensures At(Spin) && call == old(call)
      ensures Work(Abs()) + 6 * left < Work(old(Abs())) + 6 * budget
    {
      hide Inv, Work, Run, TotalCost, Step, Enabled, Spinning;
      var a := PickStep(budget);
      left, acts := OthersStep(a, budget);
      OthersWork(old(Abs()), acts, budget, left);
    }

    method LeaveSpin(budget: nat) returns (left: nat, ghost acts: seq<Action>)
      requires At(Spin) && !Spinning(Abs())
      modifies this, status, used
      ensures Abs() == Run(old(Abs()), acts) && Paid(old(Abs()), acts, budget, left) && InCall(acts)
      ensures At(Pc.ClearInfo) && call == old(call)
    {
      pc := Pc.ClearInfo;
      left, acts := AfterThreadStep(old(Abs()), budget);
    }

    /** `while (*pflag == 1) ;` */
    method SpinWait(budget: nat) returns (left: nat, ghost acts: seq<Action>)
      requires At(Spin)
      modifies this, status, used
      ensures Abs() == Run(old(Abs()), acts) && Paid(old(Abs()), acts, budget, left) && InCall(acts)
      ensures At(Pc.ClearInfo) && call == old(call)
    {
      ghost var s, more := Abs(), [];
      left, acts := budget, [];
      FlagIsThere(Abs());
      while flag[call.buf] == 1
        invariant Abs() == Run(s, acts) && Paid(s, acts, budget, left) && InCall(acts)
        invariant At(Spin) && call == old(call) && call.buf in flag
        decreases Work(Abs()) + 6 * left
      {
        left, more := SpinOnce(left);
        acts := Joined(s, acts, more);
        FlagIsThere(Abs());
      }
      left, more := LeaveSpin(left);
      acts := Joined(s, acts, more);
    }

    method ForgetBuffer(budget: nat) returns (left: nat, ghost acts: seq<Action>)
      requires At(Pc.ClearInfo)
      modifies this, info, status, used
      ensures Abs() == Run(old(Abs()), acts) && Paid(old(Abs()), acts, budget, left) && InCall(acts)
      ensures At(Idle)
    {
      info[call.i0] := None;
      hist := hist.(events := hist.events + [Io(call.req)]);
      pc := Idle;
      left, acts := AfterThreadStep(old(Abs()), budget);
    }

    /** virtio_pci_blk_rw after its range check. */
    method Submit(req: Request, buf: nat, budget: nat) returns (ghost acts: seq<Action>)
      requires At(Idle) && Legal(req, Abs()) && Accepts(req, capacity)
      modifies this, ops, status, info, desc, ring, used
      ensures Abs() == Run(Step(old(Abs()), Invoke(req, buf)), acts) && InCall(acts) && At(Idle)
    {
      ghost var s, more := Step(Abs(), Invoke(req, buf)), [];
      var left := budget;
      StepInv(Abs(), Invoke(req, buf));
      TakeSlots(req, buf);
      left, acts := BuildChain(left);
      left, more := Publish(left);
      acts := Joined(s, acts, more);
      left, more := SpinWait(left);
      acts := Joined(s, acts, more);
      left, more := ForgetBuffer(left);
      acts := Joined(s, acts, more);
    }

    /** An accepted request is carried out exactly once before the call returns, whatever the device
        and the handler do meanwhile. */
    method Perform(req: Request, buf: nat, budget: nat) returns (ghost acts: seq<Action>)
      requires At(Idle) && Legal(req, Abs()) && Accepts(req, capacity)
      modifies this, ops, status, info, desc, ring, used
      ensures At(Idle) && capacity == old(capacity)
      ensures Abs() == Run(old(Abs()), [Invoke(req, buf)] + acts) && InCall(acts)
      ensures store == Exec(Io(req), old(store))
      ensures hist.events == old(hist.events) + [Io(req)] && hist.calls == old(hist.calls) + 1
    {
      acts := Submit(req, buf, budget);
      CallEffect(old(Abs()), req, buf, acts);
    }

    /** virtio_pci_blk_rw: a request past the end has no effect at all. */
    method Rw(req: Request, buf: nat, budget: nat) returns (ghost acts: seq<Action>)
      requires At(Idle) && Legal(req, Abs())
      modifies this, ops, status, info, desc, ring, used
      ensures At(Idle) && capacity == old(capacity) && InCall(acts)
      ensures if Accepts(req, capacity)
              then && Abs() == Run(old(Abs()), [Invoke(req, buf)] + acts)
                   && store == Exec(Io(req), old(store))
                   && hist.events == old(hist.events) + [Io(req)]
                   && hist.calls == old(hist.calls) + 1
              else Abs() == old(Abs())
    {
      acts := [];
      var sectorEnd := (req.addr + req.len) % U32 / SECTOR_SIZE;
      if sectorEnd > capacity {
        return;
      }
      acts := Perform(req, buf, budget);
    }

    /** The caller overwrites its own memory between two calls. */
    method Overwrite(at: nat, bytes: seq<byte>)
      requires At(Idle)
      modifies this
      ensures At(Idle) && capacity == old(capacity)
      ensures store == Exec(Poke(at, bytes), old(store))
      ensures Abs() == Step(old(Abs()), StoreBytes(at, bytes))
    {
      StepInv(Abs(), StoreBytes(at, bytes));
      store := Exec(Poke(at, bytes), store);
      hist := hist.(events := hist.events + [Poke(at, bytes)]);
    }

    /** A call for whole sectors inside the capacity. */
    method RwSectors(req: Request, buf: nat, budget: nat)
      requires At(Idle) && req.addr % 512 == 0 && req.len % 512 == 0 && req.addr + req.len < U32
      requires req.addr + req.len <= capacity * 512 && req.data + req.len <= |store.ram|
      modifies this, ops, status, info, desc, ring, used
      ensures At(Idle) && capacity == old(capacity)
      ensures Fits(req, old(store)) && store == Copy(req, old(store))
    {
      WholeSectorCall(Abs(), req, buf);
      ghost var acts := Rw(req, buf, budget);
    }

    /** One round of virtio_pci_blk_test: write a buffer, overwrite it, read it back. The check at the
        end always passes. */
    method WriteReadBack(addr: nat, data: nat, len: nat, junk: seq<byte>, buf: nat, budget: nat) returns (passed: bool)
      requires At(Idle) && addr % 512 == 0 && len % 512 == 0 && addr + len < U32
      requires addr + len <= capacity * 512 && data + len <= |store.ram|
      modifies this, ops, status, info, desc, ring, used
      ensures At(Idle) && passed && data + len <= |store.ram|
      ensures store.ram[data..data + len] == old(store.ram[data..data + len])
    {
      var written := store.ram[data..data + len];
      ghost var was := store;
      RwSectors(Request(addr, data, len, true), buf, budget);
      Overwrite(data, junk);
      RwSectors(Request(addr, data, len, false), buf, budget);
      CopyBack(was, addr, data, len, junk);
      passed := store.ram[data..data + len] == written;
    }
  }
}
