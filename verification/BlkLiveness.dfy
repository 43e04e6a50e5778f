/** The spin loop ends: some step is always possible while it waits, and only finitely many are. */
module BlkLiveness {
  import opened Basics
  import opened SimpleDisk
  import opened BlkProtocol
  import opened BlkInvariant

  predicate Spinning(s: Sys) {
    s.thread.pc.Spin? && s.thread.call.buf in s.mem.flag && s.mem.flag[s.thread.call.buf] == 1
  }

  /** A step that brings the call in hand nearer to its end; rereading a raised flag does not. */
  predicate Progress(s: Sys, a: Action) {
    && Enabled(s, a)
    && (a.DevTake? || a.DevServe? || a.DevMove? || a.DevFinish? || a.DevPush? || a.DevBump? || a.DevSignal?
        || a.GatewayLatch?
        || a.Trap? || a.HandlerStep? || (a.ThreadStep? && !Spinning(s)))
  }

  /** The first of some bytes, looked for from `k` on. */
  function FirstOf(left: set<nat>, k: nat, len: nat): (first: nat)
    requires k <= len && exists i :: k <= i < len && i in left
    ensures first in left
    decreases len - k
  {
    if k in left then k else FirstOf(left, k + 1, len)
  }

  /** A step that is possible now; it exists whenever a call is in progress. */
  function Possible(s: Sys): Action {
    if !s.handler.phase.Out? then HandlerStep
    else if s.irq.pending || s.irq.uartPending then Trap
    else if s.irq.isr then GatewayLatch
    else if s.dev.owes then DevSignal
    else match s.dev.phase
      case Taken(_) => DevServe
      case Moving(_, op, left) =>
        if exists i :: 0 <= i < op.len && i in left then DevMove(FirstOf(left, 0, op.len), 1) else DevFinish
      case Served(_, _) => DevPush
      case Pushed => DevBump
      case _ => if s.dev.seen != s.mem.availIdx then DevTake else ThreadStep
  }

  /** No deadlock: a waiting caller always has something to wait for. */
  lemma SomeProgress(s: Sys)
    requires Inv(s) && !s.thread.pc.Idle?
    ensures Progress(s, Possible(s))
  {
  }

  // ---------------------------------------------------------------- the measure

  function DeviceWork(s: Sys): nat {
    (match s.dev.phase
     case Waiting => if s.hist.used < PublishedCount(s) then 15 else 0
     case Taken(_) => 14
     case Moving(_, _, _) => 13
     case Served(_, _) => 12
     case Pushed => 11
     case Broken => 0) + if s.dev.owes then 6 else 0
  }

  function LineWork(s: Sys): nat {
    (if s.irq.pending then 4 else if s.irq.isr && !s.handler.phase.ClearIsr? then 5 else 0)
    + if s.irq.uartPending then 3 else 0
  }

  function HandlerWork(s: Sys): int {
    (match s.handler.phase
     case ClearIsr => 3
     case Test => 2
     case Fetch => 1
     case Advance => -1
     case Complete(_) => 1
     case InUart => 2
     case _ => 0) + 4 * (s.hist.used - s.hist.drained)
  }

  function ThreadWork(s: Sys): nat {
    if s.thread.pc.Idle? then 0 else 20 * (12 - s.thread.pc.Rank()) + 1
  }

  /** The bytes the device has still to move. */
  function MoveWork(s: Sys): int {
    if s.thread.pc.Idle? || ServedCount(s) == s.hist.calls then 0
    else if s.dev.phase.Moving? then |s.dev.phase.left|
    else s.thread.call.req.len
  }

  function Work(s: Sys): int {
    ThreadWork(s) + DeviceWork(s) + MoveWork(s) + LineWork(s) + HandlerWork(s)
  }

  lemma WorkIsNatural(s: Sys)
    requires Inv(s)
    ensures Work(s) >= 0
  {
  }

  /** What a step that is not progress may add: a new call, or an interrupt nobody waits for. */
  function Cost(s: Sys, a: Action): nat {
    if !Enabled(s, a) then 0
    else match a
      case Invoke(r, _) => if Accepts(r, s.thread.capacity) then 221 + r.len else 0
      case ConfigChange => 5
      case UartRequest => 3
      case _ => 0
  }

  lemma ThreadStepWork(s: Sys)
    requires Counters(s) && Flag(s) && Enabled(s, ThreadStep)
    ensures Work(DoThread(s)) + (if Spinning(s) then 0 else 1) <= Work(s)
  {
  }

  lemma HandlerStepWork(s: Sys)
    requires Counters(s) && Interrupts(s) && Enabled(s, HandlerStep)
    ensures Work(DoHandler(s)) + 1 <= Work(s)
  {
  }

  lemma ServeWork(s: Sys)
    requires Inv(s) && Enabled(s, DevServe)
    ensures Work(DoDevice(s, DevServe)) + 1 <= Work(s)
  {
    hide Replay, Exec, Copy, Decode, Written, Flag, Announced, Refines;
    ServeEffect(s);
    SpanSize(s.thread.call.req.len);
  }

  lemma SmallerSet(a: set<nat>, b: set<nat>)
    requires a < b
    ensures |a| < |b|
  {
    assert |b| == |a| + |b - a| by {
      assert b == a + (b - a);
    }
  }

  lemma FewerLeft(left: set<nat>, from: nat, n: nat)
    requires 0 < n && Span(from, n) <= left
    ensures |left - Span(from, n)| < |left|
  {
    assert Within(from, from, n);
    assert from in Span(from, n) && from in left;
    assert left - Span(from, n) < left;
    SmallerSet(left - Span(from, n), left);
  }

  lemma TransferWork(s: Sys, a: Action)
    requires Inv(s) && Enabled(s, a) && (a.DevMove? || a.DevFinish?)
    ensures Work(DoDevice(s, a)) + 1 <= Work(s)
  {
    hide Written, Flag, Announced, Refines, Slots;
    if a.DevMove? {
      MoveEffect(s, a.from, a.n);
      FewerLeft(s.dev.phase.left, a.from, a.n);
    }
  }

  lemma RingWork(s: Sys, a: Action)
    requires Inv(s) && Enabled(s, a) && (a.DevTake? || a.DevPush? || a.DevBump? || a.DevSignal?)
    ensures Work(DoDevice(s, a)) + 1 <= Work(s)
  {
    hide Written, Flag, Announced, Refines, Slots;
  }

  lemma DeviceStepWork(s: Sys, a: Action)
    requires Inv(s) && Enabled(s, a)
    requires a.DevTake? || a.DevServe? || a.DevMove? || a.DevFinish? || a.DevPush? || a.DevBump? || a.DevSignal?
    ensures Work(DoDevice(s, a)) + 1 <= Work(s)
  {
    hide Inv, Work;
    match a
    case DevServe => ServeWork(s);
    case DevMove(_, _) => TransferWork(s, a);
    case DevFinish => TransferWork(s, a);
    case _ => RingWork(s, a);
  }

  lemma LineStepWork(s: Sys, a: Action)
    requires Counters(s) && Interrupts(s) && Enabled(s, a)
    requires a.ConfigChange? || a.UartRequest? || a.GatewayLatch? || a.Trap?
    ensures Work(Step(s, a)) + (if Progress(s, a) then 1 else 0) <= Work(s) + Cost(s, a)
  {
  }

  lemma CallerStepWork(s: Sys, a: Action)
    requires Counters(s) && Enabled(s, a) && (a.Invoke? || a.StoreBytes?)
    ensures Work(Step(s, a)) <= Work(s) + Cost(s, a)
  {
  }

  lemma StepWork(s: Sys, a: Action)
    requires Inv(s)
    ensures Work(Step(s, a)) + (if Progress(s, a) then 1 else 0) <= Work(s) + Cost(s, a)
  {
    if Enabled(s, a) {
      match a
      case ThreadStep => ThreadStepWork(s);
      case HandlerStep => HandlerStepWork(s);
      case Invoke(_, _) => CallerStepWork(s, a);
      case StoreBytes(_, _) => CallerStepWork(s, a);
      case ConfigChange => LineStepWork(s, a);
      case UartRequest => LineStepWork(s, a);
      case GatewayLatch => LineStepWork(s, a);
      case Trap => LineStepWork(s, a);
      case _ => DeviceStepWork(s, a);
    }
  }

  function ProgressCount(s: Sys, acts: seq<Action>): nat {
    if acts == [] then 0
    else
      var front := acts[..|acts| - 1];
      ProgressCount(s, front) + if Progress(Run(s, front), acts[|acts| - 1]) then 1 else 0
  }

  function TotalCost(s: Sys, acts: seq<Action>): nat {
    if acts == [] then 0
    else
      var front := acts[..|acts| - 1];
      TotalCost(s, front) + Cost(Run(s, front), acts[|acts| - 1])
  }

  lemma CountsSnoc(s: Sys, acts: seq<Action>, a: Action)
    ensures TotalCost(s, acts + [a]) == TotalCost(s, acts) + Cost(Run(s, acts), a)
    ensures ProgressCount(s, acts + [a]) == ProgressCount(s, acts) + if Progress(Run(s, acts), a) then 1 else 0
  {
    assert (acts + [a])[..|acts|] == acts;
  }

  lemma {:induction false} CountsConcat(s: Sys, first: seq<Action>, second: seq<Action>)
    ensures TotalCost(s, first + second) == TotalCost(s, first) + TotalCost(Run(s, first), second)
    ensures ProgressCount(s, first + second) == ProgressCount(s, first) + ProgressCount(Run(s, first), second)
  {
    hide Run, Cost, Progress;
    if second == [] {
      ConcatNothing(first);
    } else {
      hide TotalCost, ProgressCount;
      var front, a := second[..|second| - 1], second[|second| - 1];
      CountsConcat(s, first, front);
      RunConcat(s, first, front);
      SnocConcat(first, second);
      CountsSnoc(s, first + front, a);
      CountsSnoc(Run(s, first), front, a);
    }
  }

  /** Over any run, the steps of progress are paid for by the calls made (221 and the length each) and the
      interrupts nobody waited for (at most 5 each). With `SomeProgress`, a call that has been made
      returns under every scheduler that keeps taking steps of progress. */
  lemma {:induction false} ProgressIsPaidFor(s: Sys, acts: seq<Action>)
    requires Inv(s)
    ensures Inv(Run(s, acts))
    ensures Work(Run(s, acts)) + ProgressCount(s, acts) <= Work(s) + TotalCost(s, acts)
    ensures ProgressCount(s, acts) <= Work(s) + TotalCost(s, acts)
  {
    if acts != [] {
      var front, a := acts[..|acts| - 1], acts[|acts| - 1];
      ProgressIsPaidFor(s, front);
      StepInv(Run(s, front), a);
      StepWork(Run(s, front), a);
    }
    WorkIsNatural(Run(s, acts));
  }
}
