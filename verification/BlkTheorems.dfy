/** What the step system guarantees, over every run and every interleaving. */
module BlkTheorems {
  import opened Basics
  import opened SimpleDisk
  import opened BlkProtocol
  import opened BlkInvariant

  // ---------------------------------------------------------------- safety

  /** The device never meets a malformed chain and the handler never follows a NULL `info`. */
  lemma NeverFaults(s: Sys, acts: seq<Action>)
    requires Init(s)
    ensures var t := Run(s, acts); !t.dev.phase.Broken? && !t.handler.phase.Fault?
  {
    RunInv(s, acts);
  }

  lemma IdleCounters(s: Sys)
    requires Inv(s) && s.thread.pc.Idle?
    ensures s.mem.availIdx == s.mem.usedIdx == s.handler.usedCtr == s.dev.seen == s.hist.calls % U16
    ensures s.thread.availCtr == 3 * s.hist.calls % U16 && s.dev.phase.Waiting?
  {
    hide Slots, Written, InScope, Flag, Interrupts, Announced, Refines;
  }

  /** Between requests every counter is the number of requests made, in its own width and ratio,
      and nothing is on its way. */
  lemma QuiescentCounters(s: Sys, acts: seq<Action>)
    requires Init(s) && Run(s, acts).thread.pc.Idle?
    ensures var t, n := Run(s, acts), Run(s, acts).hist.calls;
            && t.mem.availIdx == t.mem.usedIdx == t.handler.usedCtr == t.dev.seen == n % 65536
            && t.thread.availCtr == 3 * n % 65536
            && t.mem.availIdx % 128 == n % 128
            && t.thread.availCtr % 128 == 3 * n % 128
            && t.dev.phase.Waiting?
  {
    hide Inv, Init, Run;
    RunInv(s, acts);
    IdleCounters(Run(s, acts));
    WrapSlot(Run(s, acts).hist.calls, BLK_QSIZE);
    WrapSlot(3 * Run(s, acts).hist.calls, BLK_QSIZE);
  }

  /** `info` is all NULL but for the call that has published its buffer and not returned yet. */
  predicate InfoOfCall(s: Sys) {
    s.mem.info == if s.thread.pc.Rank() > 7 then Vacant(|s.mem.info|)[s.thread.call.i0 := Some(s.thread.call.buf)]
                  else Vacant(|s.mem.info|)
  }

  lemma InfoAtStart(s: Sys)
    requires Init(s)
    ensures InfoOfCall(s)
  {
  }

  lemma InfoStep(s: Sys, a: Action)
    requires InfoOfCall(s)
    ensures InfoOfCall(Step(s, a))
  {
    hide Vacant, Exec, Decode, Splice;
    VacantAt(|s.mem.info|, s.thread.call.i0);
  }

  lemma {:induction false} InfoIsOfCall(s: Sys, acts: seq<Action>)
    requires Init(s)
    ensures InfoOfCall(Run(s, acts))
  {
    hide InfoOfCall, Step;
    if acts == [] {
      InfoAtStart(s);
    } else {
      InfoIsOfCall(s, acts[..|acts| - 1]);
      InfoStep(Run(s, acts[..|acts| - 1]), acts[|acts| - 1]);
    }
  }

  lemma InfoNamesTheCaller(s: Sys, acts: seq<Action>, i: Slot)
    requires Init(s)
    ensures var t := Run(s, acts);
            t.mem.info[i] == if t.thread.pc.Rank() > 7 && i == t.thread.call.i0 then Some(t.thread.call.buf) else None
  {
    hide Run, Init;
    InfoIsOfCall(s, acts);
    VacantAt(|Run(s, acts).mem.info|, i);
  }

  /** An entry the handler has not drained is never forgotten: unless the device has still to
      signal it or the handler is about to look again, the line is up, and it is latched, or will
      be as soon as the claim that is open (and not yet past its clear) is done. */
  lemma NoLostCompletion(s: Sys, acts: seq<Action>)
    requires Init(s)
    ensures var t := Run(s, acts);
            t.handler.usedCtr != t.mem.usedIdx && !t.dev.owes && !Draining(t.handler.phase) ==>
              && t.irq.isr
              && (t.irq.pending || Enabled(t, GatewayLatch)
                  || t.handler.phase.ClearIsr? || t.handler.phase == Complete(PCIE_IRQ_PINB))
  {
    hide Refines, Written, Slots, Flag, InScope;
    RunInv(s, acts);
  }

  lemma AckLowers(s: Sys)
    requires Inv(s) && s.handler.phase.Ack?
    ensures var b := s.thread.call.buf;
            && s.handler.phase.buf == b && b in s.mem.flag && s.mem.flag[b] == 1
            && Step(s, HandlerStep).mem.flag == s.mem.flag[b := 0]
            && ServedCount(s) == s.hist.calls
            && s.mem.status[s.thread.call.i0] == StatusOf(s)
  {
    hide Refines, Written, Slots, Announced;
  }

  /** When the handler acknowledges, it lowers the flag of the one waiting call, which is still up,
      and the device is done with that call's chain. No other flag changes. */
  lemma AckIsForTheWaiter(s: Sys, acts: seq<Action>)
    requires Init(s) && Run(s, acts).handler.phase.Ack?
    ensures var t, u := Run(s, acts), Step(Run(s, acts), HandlerStep);
            var b := t.thread.call.buf;
            && t.handler.phase.buf == b && b in t.mem.flag && t.mem.flag[b] == 1
            && u.mem.flag == t.mem.flag[b := 0]
            && ServedCount(t) == t.hist.calls
            && t.mem.status[t.thread.call.i0] == StatusOf(t)
  {
    hide Inv, Step;
    RunInv(s, acts);
    AckLowers(Run(s, acts));
  }

  lemma MarkedStatus(s: Sys)
    requires Inv(s) && s.thread.pc.Rank() > 4 && s.hist.drained < s.hist.calls
    ensures s.mem.status[s.thread.call.i0] == 0xff <==> ServedCount(s) < s.hist.calls
  {
    hide Refines, Slots, Announced, Interrupts, Flag;
  }

  /** Until the handler has drained the entry, the status byte is 0xff exactly as long as the device has not
      answered. */
  lemma UnansweredIsMarked(s: Sys, acts: seq<Action>)
    requires Init(s) && Run(s, acts).thread.pc.Rank() > 4
    requires Run(s, acts).hist.drained < Run(s, acts).hist.calls
    ensures var t := Run(s, acts); t.mem.status[t.thread.call.i0] == 0xff <==> ServedCount(t) < t.hist.calls
  {
    hide Inv, Init, Run;
    RunInv(s, acts);
    MarkedStatus(Run(s, acts));
  }

  lemma DrainTest(s: Sys)
    requires Inv(s) && s.handler.phase.Test?
    ensures Step(s, HandlerStep).handler.phase == Complete(PCIE_IRQ_PINB) <==> s.hist.drained == s.hist.used
  {
    HandlerTestInv(s);
  }

  /** The drain loop ends exactly when everything the device has pushed so far is drained. */
  lemma DrainIsComplete(s: Sys, acts: seq<Action>)
    requires Init(s) && Run(s, acts).handler.phase.Test?
    ensures var t := Run(s, acts);
            Step(t, HandlerStep).handler.phase == Complete(PCIE_IRQ_PINB) <==> t.hist.drained == t.hist.used
  {
    hide Inv, Step;
    RunInv(s, acts);
    DrainTest(Run(s, acts));
  }

  /** How often the handler lowers a flag. */
  function AckCount(s: Sys, acts: seq<Action>): nat {
    if acts == [] then 0
    else
      var front, a := acts[..|acts| - 1], acts[|acts| - 1];
      AckCount(s, front) + if a.HandlerStep? && Run(s, front).handler.phase.Ack? then 1 else 0
  }

  /** Entries drained, and the one whose flag is down but whose index is still to be advanced. */
  function Acknowledged(s: Sys): nat { s.hist.drained + if s.handler.phase.Advance? then 1 else 0 }

  lemma AckStep(s: Sys, a: Action)
    ensures Acknowledged(Step(s, a)) == Acknowledged(s) + if a.HandlerStep? && s.handler.phase.Ack? then 1 else 0
  {
  }

  lemma {:induction false} AcksAreDrained(s: Sys, acts: seq<Action>)
    requires Init(s)
    ensures AckCount(s, acts) == Acknowledged(Run(s, acts))
  {
    hide Step;
    if acts != [] {
      AcksAreDrained(s, acts[..|acts| - 1]);
      AckStep(Run(s, acts[..|acts| - 1]), acts[|acts| - 1]);
    }
  }

  function CallsIn(trace: seq<Event>): nat {
    if trace == [] then 0 else CallsIn(trace[..|trace| - 1]) + if trace[|trace| - 1].Io? then 1 else 0
  }

  lemma CallsSnoc(trace: seq<Event>, e: Event)
    ensures CallsIn(trace + [e]) == CallsIn(trace) + if e.Io? then 1 else 0
  {
    assert (trace + [e])[..|trace|] == trace;
  }

  /** The callers' side of a run: accepted requests and the callers' own stores, in order. */
  function Trace(s: Sys, acts: seq<Action>): seq<Event> {
    if acts == [] then []
    else
      var front, a := acts[..|acts| - 1], acts[|acts| - 1];
      var t := Run(s, front);
      if a.Invoke? && Enabled(t, a) && Accepts(a.req, t.thread.capacity) then Trace(s, front) + [Io(a.req)]
      else if a.StoreBytes? && Enabled(t, a) then Trace(s, front) + [Poke(a.at, a.bytes)]
      else Trace(s, front)
  }

  function Recorded(s: Sys): seq<Event> {
    s.hist.events + (if s.thread.pc.Idle? then [] else [Io(s.thread.call.req)])
  }

  lemma StepHistory(s: Sys, a: Action)
    ensures var t := Step(s, a);
            && t.hist.start == s.hist.start
            && t.thread.capacity == s.thread.capacity
            && t.hist.calls == s.hist.calls +
               (if a.Invoke? && Enabled(s, a) && Accepts(a.req, s.thread.capacity) then 1 else 0)
            && Recorded(t) ==
               if a.Invoke? && Enabled(s, a) && Accepts(a.req, s.thread.capacity) then Recorded(s) + [Io(a.req)]
               else if a.StoreBytes? && Enabled(s, a) then Recorded(s) + [Poke(a.at, a.bytes)]
               else Recorded(s)
  {
  }

  lemma {:induction false} CallsAreTraced(s: Sys, acts: seq<Action>)
    requires Init(s)
    ensures Run(s, acts).hist.calls == CallsIn(Trace(s, acts))
  {
    if acts != [] {
      var front, a := acts[..|acts| - 1], acts[|acts| - 1];
      CallsAreTraced(s, front);
      StepHistory(Run(s, front), a);
      if a.Invoke? {
        CallsSnoc(Trace(s, front), Io(a.req));
      } else if a.StoreBytes? {
        CallsSnoc(Trace(s, front), Poke(a.at, a.bytes));
      }
    }
  }

  /** Each flag is lowered exactly once: between requests as many have been lowered as calls made, and
      `AckIsForTheWaiter` says whose each one was. */
  lemma FlagsLoweredOnce(s: Sys, acts: seq<Action>)
    requires Init(s) && Run(s, acts).thread.pc.Idle?
    ensures AckCount(s, acts) == CallsIn(Trace(s, acts))
  {
    RunInv(s, acts);
    AcksAreDrained(s, acts);
    CallsAreTraced(s, acts);
  }

  // ---------------------------------------------------------------- refinement

  /** The history records the trace, except that a call counts only once it has returned. */
  lemma {:induction false} TraceIsHistory(s: Sys, acts: seq<Action>)
    requires Init(s)
    ensures var t := Run(s, acts);
            t.hist.start == s.store
            && Trace(s, acts) == t.hist.events + (if t.thread.pc.Idle? then [] else [Io(t.thread.call.req)])
  {
    if acts != [] {
      var front, a := acts[..|acts| - 1], acts[|acts| - 1];
      TraceIsHistory(s, front);
      StepHistory(Run(s, front), a);
    }
  }

  lemma IdleStore(s: Sys)
    requires Inv(s) && s.thread.pc.Idle?
    ensures s.store == Replay(s.hist.events, s.hist.start)
  {
    hide Replay, Exec, Copy;
  }

  lemma RunRefines(s: Sys, acts: seq<Action>)
    requires Init(s)
    ensures Refines(Run(s, acts))
    ensures var t := Run(s, acts);
            && (t.thread.pc.ClearInfo? ==> ServedCount(t) == t.hist.calls)
            && (t.dev.phase.Moving? ==> ServedCount(t) < t.hist.calls && SimpleDisk.Served(t.thread.call.req, t.store))
  {
    RunInv(s, acts);
  }

  /** The refinement theorem. Whatever the interleaving, once no call is in progress the disk and
      the callers' memory are what the accepted requests make of them one after another. */
  lemma RefinesSimpleDisk(s: Sys, acts: seq<Action>)
    requires Init(s) && Run(s, acts).thread.pc.Idle?
    ensures Run(s, acts).store == Replay(Trace(s, acts), s.store)
  {
    hide Inv;
    RunInv(s, acts);
    IdleStore(Run(s, acts));
    TraceIsHistory(s, acts);
    assert Trace(s, acts) == Run(s, acts).hist.events;
  }

  /** While a call is in progress the store is the one before it except inside the region the request
      writes, where some bytes may already be the new ones; before the device starts moving them none
      is, and when the device has finished, so in particular once the spin loop has ended, all are. */
  lemma RefinesInFlight(s: Sys, acts: seq<Action>)
    requires Init(s) && !Run(s, acts).thread.pc.Idle?
    ensures var t, trace := Run(s, acts), Trace(s, acts);
            && trace != [] && trace[|trace| - 1] == Io(t.thread.call.req)
            && var before, after := Replay(trace[..|trace| - 1], s.store), Replay(trace, s.store);
               && Underway(t.thread.call.req, before, t.store)
               && (!t.dev.phase.Moving? ==> t.store == if ServedCount(t) == t.hist.calls then after else before)
               && (t.thread.pc.ClearInfo? ==> t.store == after)
  {
    RunRefines(s, acts);
    TraceIsHistory(s, acts);
    var t, trace := Run(s, acts), Trace(s, acts);
    assert trace[..|trace| - 1] == t.hist.events;
    EffectIsUnderway(t.thread.call.req, Replay(t.hist.events, s.store));
    if t.dev.phase.Moving? {
      PartIsUnderway(t.thread.call.req, t.dev.phase.left, Replay(t.hist.events, s.store));
    }
  }

  lemma WholeSectorRequest(r: Request, capacity: nat, s: Store)
    requires r.addr % 512 == 0 && r.len % 512 == 0 && r.addr + r.len < U32
    requires capacity <= |s.disk| / 512 && r.data + r.len <= |s.ram|
    ensures Accepts(r, capacity) <==> r.addr + r.len <= capacity * 512
    ensures Accepts(r, capacity) ==> Fits(r, s) && Exec(Io(r), s) == Copy(r, s)
  {
    hide Copy;
    var a, b := r.addr / 512, r.len / 512;
    assert r.addr + r.len == (a + b) * 512;
    assert Rounded(r) == r;
  }

  /** For whole sectors and an end below 2^32 the guard is the range check it is meant to be: the
      call is refused without any effect when it would leave the disk's first `capacity` sectors,
      and otherwise adds to the trace a request that does exactly what it asks for. */
  lemma WholeSectorCall(s: Sys, r: Request, buf: nat)
    requires Inv(s) && Enabled(s, Invoke(r, buf))
    requires r.addr % 512 == 0 && r.len % 512 == 0 && r.addr + r.len < U32
    ensures if r.addr + r.len <= s.thread.capacity * 512
            then Step(s, Invoke(r, buf)).thread.pc.PutHeader?
                 && Fits(r, s.store) && Exec(Io(r), s.store) == Copy(r, s.store)
            else Step(s, Invoke(r, buf)) == s
  {
    hide Counters, Slots, Written, Flag, Interrupts, Announced, Refines, Device, Exec, Copy, Fits, Accepts;
    WholeSectorRequest(r, s.thread.capacity, s.store);
  }

  /** The range check adds in 32 bits and compares sectors, rounded down. It refuses exactly the requests
      that leave the capacity when the request stays inside it, or when what is left of its end after
      wrapping reaches at least a whole sector beyond. */
  predicate GuardHolds(r: Request, capacity: nat) {
    var n, e := r.addr + r.len, capacity * 512;
    n <= e || (if n < U32 then n >= e + 512 else n - U32 >= e + 512)
  }

  lemma GuardExactly(r: Request, capacity: nat)
    requires r.addr < U32 && r.len < U32
    ensures GuardHolds(r, capacity) <==> (Accepts(r, capacity) <==> r.addr + r.len <= capacity * 512)
  {
    var n := (r.addr + r.len) % U32;
    var q, t := n / 512, n % 512;
    assert n == q * 512 + t;
    assert Accepts(r, capacity) <==> n < (capacity + 1) * 512;
  }

  /** One byte behind the last sector: accepted, though it lies outside, and without effect. */
  lemma LastByteIsLost(s: Store, data: nat)
    requires |s.disk| == 131072 * 512 && data + 1 <= |s.ram|
    ensures var r := Request(131072 * 512, data, 1, true);
            Accepts(r, 131072) && !Fits(r, s) && Exec(Io(r), s) == s
  {
  }

  lemma StepKeepsSize(s: Sys, a: Action)
    ensures |Step(s, a).store.disk| == |s.store.disk| && Step(s, a).thread.capacity == s.thread.capacity
  {
    hide Decode, Exec, Splice;
  }

  lemma {:induction false} DiskKeepsSize(s: Sys, acts: seq<Action>)
    requires Init(s)
    ensures |Run(s, acts).store.disk| == |s.store.disk| && Run(s, acts).thread.capacity == s.thread.capacity
  {
    if acts != [] {
      var front, a := acts[..|acts| - 1], acts[|acts| - 1];
      DiskKeepsSize(s, front);
      StepKeepsSize(Run(s, front), a);
    }
  }

  /** For a disk of whole sectors, fewer than 2^32, the capacity is the disk. */
  lemma CapacityIsDisk(s: Sys, acts: seq<Action>)
    requires Init(s) && |s.store.disk| % 512 == 0 && |s.store.disk| / 512 < U32
    ensures Run(s, acts).thread.capacity * 512 == |Run(s, acts).store.disk|
  {
    RunInv(s, acts);
    DiskKeepsSize(s, acts);
    QuotientUnique(|s.store.disk| / 512, U32, 0, |s.store.disk| / 512);
  }

  /** The last sector of the 4 GiB range and one more, on a 64 MiB disk: accepted, and lost. */
  lemma WrappedCallIsLost(s: Store, data: nat)
    requires |s.disk| == 131072 * 512 && data + 1024 <= |s.ram|
    ensures var r := Request(0xffff_fe00, data, 1024, true);
            Accepts(r, 131072) && !Fits(r, s) && Exec(Io(r), s) == s
  {
  }
}
