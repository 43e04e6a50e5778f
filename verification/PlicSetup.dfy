/** plic.c: which interrupt sources reach the supervisor context, and which of them a claim returns. */
module PlicSetup {
  import opened BlkProtocol

  const SOURCES: nat := 1024
  const WORD_BITS: nat := 32

  lemma Words(i: nat)
    ensures i / WORD_BITS == 0 <==> i < WORD_BITS
    ensures i < WORD_BITS ==> i % WORD_BITS == i
  {
  }

  /** A source's word and bit are its own. */
  lemma BitOf(i: nat, j: nat)
    ensures j - WORD_BITS * (j / WORD_BITS) == j % WORD_BITS
    ensures i / WORD_BITS == j / WORD_BITS && i % WORD_BITS == j % WORD_BITS <==> i == j
  {
  }

  /** The registers of context 1; an enable word is the set of its bits. */
  class Plic {
    const priority: array<nat>
    const enable: array<set<nat>>
    var threshold: nat

    ghost predicate Valid()
      reads this
    {
      priority.Length == SOURCES && enable.Length == SOURCES / WORD_BITS
    }

    ghost function Enabled(): set<nat>
      reads this, enable
      requires Valid()
    {
      set i: nat | i < SOURCES && i % WORD_BITS in enable[i / WORD_BITS]
    }

    /** The sources that interrupt once they are pending. */
    ghost function Deliverable(): set<nat>
      reads this, enable, priority
      requires Valid()
    {
      set i: nat | i in Enabled() && priority[i] > threshold
    }

    /** plic_init: only the UART is left enabled in the first word. */
    method Init()
      requires Valid()
      modifies this, priority, enable
      ensures Valid() && threshold == 0 && priority[..] == old(priority[..])[UART0_IRQ := 1]
      ensures Enabled() == {UART0_IRQ} + set i | i in old(Enabled()) && i >= WORD_BITS
    {
      priority[UART0_IRQ] := 1;
      threshold := 0;
      enable[0] := {UART0_IRQ};
      forall i: nat | i < SOURCES
        ensures i in Enabled() <==> i == UART0_IRQ || (i in old(Enabled()) && i >= WORD_BITS)
      {
        Words(i);
      }
    }

    /** plic_enable: this source as well, and no other. */
    method Enable(irq: nat)
      requires Valid() && irq < SOURCES
      modifies priority, enable
      ensures Valid() && threshold == old(threshold) && priority[..] == old(priority[..])[irq := 1]
      ensures Enabled() == old(Enabled()) + {irq}
    {
      priority[irq] := 1;
      var idx := irq / WORD_BITS;
      enable[idx] := enable[idx] + {irq - WORD_BITS * idx};
      forall i: nat | i < SOURCES
        ensures i in Enabled() <==> i in old(Enabled()) || i == irq
      {
        BitOf(i, irq);
      }
    }

    /** From reset, the two sources the trap handler dispatches on, at the same priority. */
    method SetUp()
      requires Valid() && Enabled() == {}
      modifies this, priority, enable
      ensures Valid() && Deliverable() == {10, 33} && {UART0_IRQ, PCIE_IRQ_PINB} == {10, 33}
      ensures priority[UART0_IRQ] == priority[PCIE_IRQ_PINB] == 1
    {
      Init();
      Enable(PCIE_IRQ_PINB);
      assert priority[UART0_IRQ] == 1;
    }
  }

  /** What a claim returns: the pending source of highest priority, the lowest number among equals; 0 for none. */
  predicate Claims(id: nat, pending: set<nat>, priority: seq<nat>)
    requires forall i :: i in pending ==> 0 < i < |priority|
  {
    if pending == {} then id == 0
    else
      id in pending &&
      forall i :: i in pending ==> priority[i] < priority[id] || (priority[i] == priority[id] && id <= i)
  }

  function PendingSources(s: Sys): set<nat> {
    (if s.irq.uartPending then {UART0_IRQ} else {}) + (if s.irq.pending then {PCIE_IRQ_PINB} else {})
  }

  /** The choice the step system makes is the only one the PLIC allows. */
  lemma TrapClaims(s: Sys, priority: seq<nat>, id: nat)
    requires |priority| == SOURCES && priority[UART0_IRQ] == priority[PCIE_IRQ_PINB]
    requires s.handler.phase.Out?
    ensures Claims(id, PendingSources(s), priority)
            <==> id == if !Enabled(s, Trap) then 0
                       else if DoTrap(s).handler.phase.InUart? then UART0_IRQ
                       else PCIE_IRQ_PINB
  {
    if s.irq.uartPending {
      assert UART0_IRQ in PendingSources(s);
    } else if s.irq.pending {
      assert PCIE_IRQ_PINB in PendingSources(s);
    }
  }
}
