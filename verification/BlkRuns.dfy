/** Runs in parts: who acts in them, what they cost, what they leave alone, and what a whole call does. */
module BlkRuns {
  import opened Basics
  import opened SimpleDisk
  import opened BlkProtocol
  import opened BlkInvariant
  import opened BlkTheorems
  import opened BlkLiveness

  lemma CopyBack(s: Store, addr: nat, data: nat, len: nat, junk: seq<byte>)
    requires addr % DISK_SECTOR == 0 && len % DISK_SECTOR == 0 && Fits(Request(addr, data, len, true), s)
    ensures var w, r := Request(addr, data, len, true), Request(addr, data, len, false);
            Copy(r, Exec(Poke(data, junk), Copy(w, s))).ram[data..data + len] == s.ram[data..data + len]
  {
    var w, r := Request(addr, data, len, true), Request(addr, data, len, false);
    assert Rounded(w) == w && Rounded(r) == r;
    WriteThenRead(s, w, data, junk, r);
  }

  lemma NoSteps(s: Sys)
    ensures Run(s, []) == s && TotalCost(s, []) == 0
  {
  }

  lemma Then(s: Sys, acts: seq<Action>, a: Action)
    ensures Run(s, acts + [a]) == Step(Run(s, acts), a)
    ensures TotalCost(s, acts + [a]) == TotalCost(s, acts) + Cost(Run(s, acts), a)
  {
    RunSnoc(s, acts, a);
    CountsSnoc(s, acts, a);
  }

  /** The device and the interrupt lines: what goes on while the handler runs. */
  predicate Outside(a: Action) {
    a.DevTake? || a.DevServe? || a.DevMove? || a.DevFinish? || a.DevPush? || a.DevBump? || a.DevSignal?
    || a.ConfigChange? || a.UartRequest? || a.GatewayLatch?
  }

  predicate ByOthers(acts: seq<Action>) {
    forall a :: a in acts ==> Outside(a) || a.Trap? || a.HandlerStep?
  }

  predicate InCall(acts: seq<Action>) {
    forall a :: a in acts ==> !a.Invoke? && !a.StoreBytes?
  }

  /** Nothing the thread has done, or is doing, changes. */
  predicate Kept(s: Sys, t: Sys) {
    && t.thread == s.thread && t.hist.calls == s.hist.calls
    && t.hist.events == s.hist.events && t.hist.start == s.hist.start
  }

  lemma OthersStepKeeps(s: Sys, a: Action)
    requires Outside(a) || a.Trap? || a.HandlerStep?
    ensures Kept(s, Step(s, a))
  {
  }

  lemma {:induction false} OthersKeep(s: Sys, acts: seq<Action>)
    requires ByOthers(acts)
    ensures Kept(s, Run(s, acts))
  {
    if acts != [] {
      var front, a := acts[..|acts| - 1], acts[|acts| - 1];
      assert a in acts;
      OthersKeep(s, front);
      OthersStepKeeps(Run(s, front), a);
    }
  }

  lemma ThreadThenOthers(s: Sys, acts: seq<Action>)
    requires ByOthers(acts)
    ensures var t := Step(s, ThreadStep);
            && Run(s, [ThreadStep] + acts) == Run(t, acts)
            && TotalCost(s, [ThreadStep] + acts) == TotalCost(t, acts)
            && InCall([ThreadStep] + acts)
            && Kept(t, Run(t, acts))
  {
    Then(s, [], ThreadStep);
    RunConcat(s, [ThreadStep], acts);
    CountsConcat(s, [ThreadStep], acts);
    OthersKeep(Step(s, ThreadStep), acts);
  }

  lemma {:induction false} FirstCounts(s: Sys, acts: seq<Action>)
    requires acts != []
    ensures ProgressCount(s, acts) >= if Progress(s, acts[0]) then 1 else 0
  {
    if |acts| > 1 {
      FirstCounts(s, acts[..|acts| - 1]);
    }
  }

  /** The run `acts` used up at most the part of the budget that is gone. */
  predicate Paid(s: Sys, acts: seq<Action>, budget: nat, left: nat) {
    TotalCost(s, acts) + 5 * left <= 5 * budget
  }

  /** Steps of the others use up work, or the budget. */
  lemma OthersWork(s: Sys, acts: seq<Action>, budget: nat, left: nat)
    requires Inv(s) && ByOthers(acts) && acts != [] && Paid(s, acts, budget, left)
    requires Progress(s, acts[0]) || left < budget
    ensures var t := Run(s, acts);
            Inv(t) && Kept(s, t) && 0 <= Work(t) + 6 * left < Work(s) + 6 * budget
  {
    ProgressIsPaidFor(s, acts);
    FirstCounts(s, acts);
    OthersKeep(s, acts);
    WorkIsNatural(Run(s, acts));
  }

  lemma FlagIsThere(s: Sys)
    requires Inv(s) && s.thread.pc.Spin?
    ensures s.thread.call.buf in s.mem.flag
    ensures Work(s) >= 0
  {
    WorkIsNatural(s);
  }

  lemma {:induction false} CallRecords(s: Sys, acts: seq<Action>)
    requires InCall(acts)
    ensures var t := Run(s, acts);
            && Recorded(t) == Recorded(s) && t.hist.calls == s.hist.calls
            && t.hist.start == s.hist.start && t.thread.capacity == s.thread.capacity
  {
    if acts != [] {
      var front, a := acts[..|acts| - 1], acts[|acts| - 1];
      assert a in acts;
      CallRecords(s, front);
      StepHistory(Run(s, front), a);
    }
  }

  /** What one accepted call does, told from the outside. */
  lemma CallEffect(s: Sys, req: Request, buf: nat, acts: seq<Action>)
    requires Inv(s) && Enabled(s, Invoke(req, buf)) && Accepts(req, s.thread.capacity)
    requires InCall(acts) && Run(Step(s, Invoke(req, buf)), acts).thread.pc.Idle?
    ensures var t := Run(s, [Invoke(req, buf)] + acts);
            && t == Run(Step(s, Invoke(req, buf)), acts)
            && t.hist.events == s.hist.events + [Io(req)]
            && t.hist.calls == s.hist.calls + 1
            && t.thread.capacity == s.thread.capacity
            && t.store == Exec(Io(req), s.store)
  {
    var u := Step(s, Invoke(req, buf));
    Then(s, [], Invoke(req, buf));
    RunConcat(s, [Invoke(req, buf)], acts);
    CallRecords(u, acts);
    RunKeepsInv(s, [Invoke(req, buf)] + acts);
    ReplaySnoc(s.hist.events, Io(req), s.hist.start);
  }

  /** `first` followed by `second`, with what is known of runs made that way. */
  lemma Joined(s: Sys, first: seq<Action>, second: seq<Action>) returns (acts: seq<Action>)
    ensures acts == first + second
    ensures Run(s, acts) == Run(Run(s, first), second)
    ensures TotalCost(s, acts) == TotalCost(s, first) + TotalCost(Run(s, first), second)
  {
    acts := first + second;
    RunConcat(s, first, second);
    CountsConcat(s, first, second);
  }

  /** The device may have used more entries; nothing else in the history has changed. */
  predicate Frame(h: Hist, k: Hist) {
    k == h.(used := k.used)
  }

  predicate InHandler(acts: seq<Action>) {
    forall a :: a in acts ==> Outside(a) || a.HandlerStep?
  }

  predicate Unasked(a: Action) { a.ConfigChange? || a.UartRequest? }
}
