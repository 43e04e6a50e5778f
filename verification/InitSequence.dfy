/**
 * virtio-pci.c's accessors over the banked common configuration, and the initialisation order of
 * virtio-pci-blk.c and virtio-pci-rng.c.
 */
module InitSequence {
  import opened Basics
  import opened FeatureMasks
  import opened PciCaps
  import opened VringLayout

  // virtio.h
  const STAT_ACKNOWLEDGE: nat := 1
  const STAT_DRIVER: nat := 2
  const STAT_DRIVER_OK: nat := 4
  const STAT_FEATURES_OK: nat := 8

  // the bits of the device status (VirtIO 1.1 section 2.1)
  const ACKNOWLEDGE: nat := 0
  const DRIVER: nat := 1
  const DRIVER_OK: nat := 2
  const FEATURES_OK: nat := 3

  /** The registers of one queue. */
  datatype Queue = Queue(size: nat, enable: nat, desc: nat, driver: nat, device: nat, msix: nat, notifyOff: nat)

  /** What passes between driver and device that the order of initialisation is about. */
  datatype Event =
    | Status(value: Bits)
    | StatusRead(value: Bits)
    | Features(accepted: Bits)
    | Size(queue: nat, size: nat)
    | Addresses(queue: nat, desc: nat, driver: nat, device: nat)
    | Enable(queue: nat)
    | Doorbell(at: nat)

  /** The two 32-bit halves of a feature word, and the word they make. */
  function Low(f: Bits): Bits { set b | b in f && b < 32 }
  function High(f: Bits): Bits { set b | b in f && b >= 32 :: b - 32 }
  function Join(low: Bits, high: Bits): Bits { low + set b | b in high :: b + 32 }

  /** A feature word written in halves and read back in halves is unchanged. */
  lemma JoinSplit(f: Bits)
    ensures Join(Low(f), High(f)) == f
  {
    forall b | b in f
      ensures b in Join(Low(f), High(f))
    {
      if b >= 32 {
        assert b - 32 in High(f);
        assert (b - 32) + 32 in Join(Low(f), High(f));
      }
    }
  }

  // ---------------------------------------------------------------- the order the standard asks for

  /** How far initialisation has come: the status last written or read, and what has been done.
      `asked` is FEATURES_OK written, `confirmed` FEATURES_OK read back after that. */
  datatype Progress = Progress(last: Bits, reset: bool, negotiated: bool, asked: bool, confirmed: bool, driven: bool,
                               sized: set<nat>, addressed: set<nat>, enabled: set<nat>)

  /** VirtIO 1.1 section 3.1.1, one event at a time: reset first; status bits are only added; DRIVER
      after ACKNOWLEDGE; only offered features, before FEATURES_OK; queues once FEATURES_OK has been
      written and read back, and before DRIVER_OK; a queue is enabled once it has a size and addresses; no
      doorbell before DRIVER_OK. */
  predicate Allowed(p: Progress, e: Event, offered: Bits) {
    match e
    case StatusRead(_) => true
    case Status(v) =>
      v == {} || (
        && p.reset && p.last <= v
        && (DRIVER in v && DRIVER !in p.last ==> ACKNOWLEDGE in p.last)
        && (FEATURES_OK in v && FEATURES_OK !in p.last ==> p.negotiated)
        && (DRIVER_OK in v ==> p.confirmed))
    case Features(f) => f <= offered && DRIVER in p.last && FEATURES_OK !in p.last
    case Size(q, _) => p.confirmed && !p.driven && q !in p.enabled
    case Addresses(q, _, _, _) => p.confirmed && !p.driven && q !in p.enabled
    case Enable(q) => p.confirmed && !p.driven && q in p.sized && q in p.addressed
    case Doorbell(_) => p.driven
  }

  const FRESH := Progress({}, false, false, false, false, false, {}, {}, {})

  function After(p: Progress, e: Event): Progress {
    match e
    case StatusRead(v) => p.(last := v, confirmed := p.asked && FEATURES_OK in v)
    case Status(v) =>
      if v == {} then FRESH.(reset := true)
      else p.(last := v, asked := p.asked || FEATURES_OK in v, driven := p.driven || DRIVER_OK in v)
    case Features(f) => p.(negotiated := true)
    case Size(q, _) => p.(sized := p.sized + {q})
    case Addresses(q, _, _, _) => p.(addressed := p.addressed + {q})
    case Enable(q) => p.(enabled := p.enabled + {q})
    case Doorbell(_) => p
  }

  /** Where a trace leaves a conforming driver; None when some event came out of order. */
  function Conforms(trace: seq<Event>, offered: Bits): Option<Progress> {
    if trace == [] then Some(FRESH)
    else
      var e := trace[|trace| - 1];
      match Conforms(trace[..|trace| - 1], offered)
      case None => None
      case Some(p) => if Allowed(p, e, offered) then Some(After(p, e)) else None
  }

  ghost predicate Wrote(trace: seq<Event>, i: nat) {
    i < |trace| && trace[i].Status? && FEATURES_OK in trace[i].value
  }

  ghost predicate ReadBack(trace: seq<Event>, j: nat) {
    j < |trace| && trace[j].StatusRead? && FEATURES_OK in trace[j].value
  }

  /** Who has written FEATURES_OK, and who has had it confirmed, has done so on the way. */
  lemma {:induction false} ConfirmedWasAsked(trace: seq<Event>, offered: Bits)
    requires Conforms(trace, offered).Some?
    ensures var p := Conforms(trace, offered).value;
            && (p.asked ==> exists i: nat :: Wrote(trace, i))
            && (p.confirmed ==> exists i: nat, j: nat :: i < j && Wrote(trace, i) && ReadBack(trace, j))
  {
    if trace != [] {
      var n := |trace| - 1;
      var front := trace[..n];
      ConfirmedWasAsked(front, offered);
      var p := Conforms(front, offered).value;
      if p.asked {
        var i: nat :| Wrote(front, i);
        assert Wrote(trace, i);
        if ReadBack(trace, n) {
          assert i < n;
        }
      }
      if p.confirmed {
        var i: nat, j: nat :| i < j && Wrote(front, i) && ReadBack(front, j);
        assert Wrote(trace, i) && ReadBack(trace, j);
      }
      if Wrote(trace, n) {
        assert Conforms(trace, offered).value.asked;
      }
    }
  }

  /** No queue is set up by a driver that has not asked for FEATURES_OK and seen it granted. */
  lemma {:induction false} QueuesComeAfter(trace: seq<Event>, offered: Bits)
    requires Conforms(trace, offered).Some?
    ensures var p := Conforms(trace, offered).value;
            p.sized != {} || p.addressed != {} || p.enabled != {} || p.driven ==>
              exists i: nat, j: nat :: i < j && Wrote(trace, i) && ReadBack(trace, j)
  {
    if trace != [] {
      var n := |trace| - 1;
      var front := trace[..n];
      QueuesComeAfter(front, offered);
      ConfirmedWasAsked(front, offered);
      if i: nat, j: nat :| i < j && Wrote(front, i) && ReadBack(front, j) {
        assert Wrote(trace, i) && ReadBack(trace, j);
      }
    }
  }

  lemma ConformsSnoc(trace: seq<Event>, e: Event, offered: Bits, p: Progress)
    requires Conforms(trace, offered) == Some(p) && Allowed(p, e, offered)
    ensures Conforms(trace + [e], offered) == Some(After(p, e))
  {
    assert (trace + [e])[..|trace|] == trace;
  }

  /** The driver's masks are the standard's bits. */
  lemma StatusBits()
    ensures BitsOf(STAT_ACKNOWLEDGE) == {ACKNOWLEDGE} && BitsOf(STAT_DRIVER) == {DRIVER}
    ensures BitsOf(STAT_DRIVER_OK) == {DRIVER_OK} && BitsOf(STAT_FEATURES_OK) == {FEATURES_OK}
  {
    OneBit(0);
    OneBit(1);
    OneBit(2);
    OneBit(3);
    assert Pow(2, 3) == 2 * Pow(2, 2) && Pow(2, 2) == 2 * Pow(2, 1) && Pow(2, 1) == 2 * Pow(2, 0);
  }

  // ---------------------------------------------------------------- the registers

  const NO_QUEUE := Queue(0, 0, 0, 0, 0, 0, 0)

  /** A queue's doorbell. The product of the 16-bit offset and the 32-bit multiplier is kept in 32 bits. */
  function DoorbellAt(notifyCfg: nat, notifyOff: nat, multiplier: nat): nat {
    (notifyCfg + notifyOff * multiplier % U32) % U64
  }

  /** It is where VirtIO 1.1 section 4.1.4.4 has it exactly if the product has not wrapped. */
  lemma DoorbellExactly(notifyCfg: nat, notifyOff: nat, multiplier: nat)
    requires notifyOff < U16 && multiplier < U32 && notifyCfg + notifyOff * multiplier < U64
    ensures DoorbellAt(notifyCfg, notifyOff, multiplier) == notifyCfg + notifyOff * multiplier
            <==> notifyOff * multiplier < U32
  {
    var n := notifyOff * multiplier;
    ModAtMost(n, U32);
    ModAtMost(notifyCfg + n % U32, U64);
    QuotientUnique(notifyCfg + n % U32, U64, 0, notifyCfg + n % U32);
  }

  /** A notification structure as large as that section demands holds it. */
  lemma DoorbellInside(notifyCfg: nat, notifyOff: nat, multiplier: nat, length: nat)
    requires notifyOff * multiplier + 2 <= length < U32 && notifyCfg + length <= U64
    ensures notifyCfg <= DoorbellAt(notifyCfg, notifyOff, multiplier) == notifyCfg + notifyOff * multiplier
    ensures DoorbellAt(notifyCfg, notifyOff, multiplier) + 2 <= notifyCfg + length
  {
    var n := notifyOff * multiplier;
    QuotientUnique(n, U32, 0, n);
    QuotientUnique(notifyCfg + n, U64, 0, notifyCfg + n);
  }

  /** Queue 2 of a device with a multiplier of 2^31 shares queue 0's doorbell. */
  lemma DoorbellWraps(notifyCfg: nat)
    requires notifyCfg < U64
    ensures DoorbellAt(notifyCfg, 2, 0x8000_0000) == notifyCfg == DoorbellAt(notifyCfg, 0, 0x8000_0000)
  {
  }

  /** The device side of `struct virtio_pci_common_cfg`. `clears` and `sets` are the bits in which
      the status it answers differs from the one written. */
  class Transport {
    const offered: FeatureWord
    const clears: Bits
    const sets: Bits
    var deviceSelect: nat
    var driverSelect: nat
    var driverWords: map<nat, Bits>
    var queueSelect: nat
    var queues: map<nat, Queue>
    var configMsix: nat
    var status: Bits
    ghost var trace: seq<Event>

    /** The window at `queueSelect`, over queue `q`. */
    function Bank(q: nat): Queue
      reads this
    {
      if q in queues then queues[q] else NO_QUEUE
    }

    function Word(i: nat): Bits
      reads this
    {
      if i in driverWords then driverWords[i] else {}
    }

    /** virtio_pci_get_device_features */
    method GetDeviceFeatures() returns (f: FeatureWord)
      modifies this`deviceSelect
      ensures f == offered
    {
      deviceSelect := 0;
      var f1 := if deviceSelect == 0 then Low(offered) else if deviceSelect == 1 then High(offered) else {};
      deviceSelect := 1;
      var f2 := if deviceSelect == 0 then Low(offered) else if deviceSelect == 1 then High(offered) else {};
      f := Join(f1, f2);
      JoinSplit(offered);
    }

    /** virtio_pci_set_driver_features */
    method SetDriverFeatures(f: Bits)
      modifies this`driverSelect, this`driverWords, this`trace
      ensures Word(0) == Low(f) && Word(1) == High(f) && trace == old(trace) + [Features(f)]
    {
      driverSelect := 0;
      driverWords := driverWords[driverSelect := Low(f)];
      driverSelect := 1;
      driverWords := driverWords[driverSelect := High(f)];
      trace := trace + [Features(f)];
    }

    /** virtio_pci_get_driver_features reads back what was set. */
    method GetDriverFeatures() returns (f: Bits)
      modifies this`driverSelect
      ensures f == Join(Word(0), Word(1))
    {
      driverSelect := 0;
      var f1 := Word(driverSelect);
      driverSelect := 1;
      var f2 := Word(driverSelect);
      f := Join(f1, f2);
    }

    method GetQueueSize(q: nat) returns (n: nat)
      modifies this`queueSelect
      ensures n == Bank(q).size
    {
      queueSelect := q;
      n := Bank(queueSelect).size;
    }

    method GetQueueEnable(q: nat) returns (n: nat)
      modifies this`queueSelect
      ensures n == Bank(q).enable
    {
      queueSelect := q;
      n := Bank(queueSelect).enable;
    }

    method SetQueueSize(q: nat, n: nat)
      modifies this`queueSelect, this`queues, this`trace
      ensures queues == old(queues)[q := old(Bank(q)).(size := n)] && trace == old(trace) + [Size(q, n)]
    {
      queueSelect := q;
      queues := queues[queueSelect := Bank(queueSelect).(size := n)];
      trace := trace + [Size(q, n)];
    }

    method SetQueueAddr(q: nat, vr: VringInfo)
      modifies this`queueSelect, this`queues, this`trace
      ensures queues == old(queues)[q := old(Bank(q)).(desc := vr.desc, driver := vr.avail, device := vr.used)]
      ensures trace == old(trace) + [Addresses(q, vr.desc, vr.avail, vr.used)]
    {
      queueSelect := q;
      queues := queues[queueSelect := Bank(queueSelect).(desc := vr.desc)];
      queues := queues[queueSelect := Bank(queueSelect).(driver := vr.avail)];
      queues := queues[queueSelect := Bank(queueSelect).(device := vr.used)];
      trace := trace + [Addresses(q, vr.desc, vr.avail, vr.used)];
    }

    method SetQueueEnable(q: nat)
      modifies this`queueSelect, this`queues, this`trace
      ensures queues == old(queues)[q := old(Bank(q)).(enable := 1)] && trace == old(trace) + [Enable(q)]
    {
      queueSelect := q;
      queues := queues[queueSelect := Bank(queueSelect).(enable := 1)];
      trace := trace + [Enable(q)];
    }

    /** virtio_pci_get_queue_notify_addr */
    method GetQueueNotifyAddr(q: nat, hw: Hw) returns (at: nat)
      modifies this`queueSelect
      ensures at == DoorbellAt(hw.notifyCfg, Bank(q).notifyOff, hw.multiplier)
    {
      queueSelect := q;
      var off := Bank(queueSelect).notifyOff;
      at := (hw.notifyCfg + off * hw.multiplier % U32) % U64;
    }

    /** virtio_pci_set_queue_notify */
    method SetQueueNotify(q: nat, hw: Hw)
      modifies this`queueSelect, this`trace
      ensures trace == old(trace) + [Doorbell(DoorbellAt(hw.notifyCfg, Bank(q).notifyOff, hw.multiplier))]
    {
      var at := GetQueueNotifyAddr(q, hw);
      trace := trace + [Doorbell(at)];
    }

    method DisableMsix(q: nat)
      modifies this`queueSelect, this`queues, this`configMsix
      ensures queues == old(queues)[q := old(Bank(q)).(msix := 0xffff)] && configMsix == 0xffff
    {
      configMsix := 0xffff;
      queueSelect := q;
      queues := queues[queueSelect := Bank(queueSelect).(msix := 0xffff)];
    }

    method SetStatus(v: Bits)
      modifies this`status, this`trace
      ensures status == v && trace == old(trace) + [Status(v)]
    {
      status := v;
      trace := trace + [Status(v)];
    }

    method GetStatus() returns (v: Bits)
      modifies this`trace
      ensures v == status - clears + sets && trace == old(trace) + [StatusRead(v)]
    {
      v := status - clears + sets;
      trace := trace + [StatusRead(v)];
    }
  }

  // ---------------------------------------------------------------- the sequence

  const GREETED := Progress({ACKNOWLEDGE, DRIVER}, true, false, false, false, false, {}, {}, {})
  const NEGOTIATED := Progress({ACKNOWLEDGE, DRIVER}, true, true, false, false, false, {}, {}, {})

  /** FEATURES_OK has been written, and the status read back is `status`. */
  function Answered(status: Bits): Progress {
    Progress(status, true, true, true, FEATURES_OK in status, false, {}, {}, {})
  }

  /** Reset, ACKNOWLEDGE, DRIVER. */
  method Greet(t: Transport) returns (status: Bits)
    requires t.trace == []
    modifies t
    ensures status == {ACKNOWLEDGE, DRIVER}
    ensures Conforms(t.trace, t.offered) == Some(GREETED)
    ensures t.queues == old(t.queues)
  {
    hide BitsOf;
    StatusBits();
    ConformsSnoc(t.trace, Status({}), t.offered, FRESH);
    t.SetStatus({});
    ghost var p := After(FRESH, Status({}));
    status := {};
    status := status + BitsOf(STAT_ACKNOWLEDGE);
    ConformsSnoc(t.trace, Status(status), t.offered, p);
    t.SetStatus(status);
    p := After(p, Status(status));
    status := status + BitsOf(STAT_DRIVER);
    ConformsSnoc(t.trace, Status(status), t.offered, p);
    t.SetStatus(status);
  }

  /** The offered features but for those turned off. */
  method NegotiateFeatures(t: Transport, off: seq<nat>)
    requires Conforms(t.trace, t.offered) == Some(GREETED) && forall i :: 0 <= i < |off| ==> off[i] < 31
    modifies t
    ensures Conforms(t.trace, t.offered) == Some(NEGOTIATED)
    ensures t.queues == old(t.queues)
    ensures var accepted := t.offered - set b | b in off; t.Word(0) == Low(accepted) && t.Word(1) == High(accepted)
  {
    var features := t.GetDeviceFeatures();
    features := TurnOff(features, off);
    ConformsSnoc(t.trace, Features(features), t.offered, GREETED);
    t.SetDriverFeatures(features);
  }

  /** FEATURES_OK, and what the device makes of it. */
  method Confirm(t: Transport, was: Bits) returns (status: Bits)
    requires Conforms(t.trace, t.offered) == Some(NEGOTIATED) && was == {ACKNOWLEDGE, DRIVER}
    modifies t
    ensures status == {ACKNOWLEDGE, DRIVER, FEATURES_OK} - t.clears + t.sets
    ensures Conforms(t.trace, t.offered) == Some(Answered(status))
    ensures t.queues == old(t.queues) && t.Word(0) == old(t.Word(0)) && t.Word(1) == old(t.Word(1))
  {
    StatusBits();
    status := was + BitsOf(STAT_FEATURES_OK);
    ConformsSnoc(t.trace, Status(status), t.offered, NEGOTIATED);
    t.SetStatus(status);
    ghost var p := After(NEGOTIATED, Status(status));
    ConformsSnoc(t.trace, StatusRead(status - t.clears + t.sets), t.offered, p);
    status := t.GetStatus();
  }

  /** The device has kept FEATURES_OK, and its queue is idle and large enough. */
  predicate Usable(status: Bits, queue: Queue, size: nat) {
    FEATURES_OK in status && queue.enable == 0 && size <= queue.size
  }

  /** What a result says about the device's answers: 0 that the queue can be used, a negative one what
      stands in the way. */
  predicate Tells(r: int, status: Bits, queue: Queue, size: nat) {
    && (r == 0 <==> Usable(status, queue, size))
    && (r == -2 <==> FEATURES_OK !in status)
    && (r == -3 <==> FEATURES_OK in status && queue.enable != 0)
    && (r == -4 <==> FEATURES_OK in status && queue.enable == 0 && queue.size == 0)
    && (r == -5 <==> FEATURES_OK in status && queue.enable == 0 && 0 < queue.size < size)
  }

  method CheckQueue(t: Transport, size: nat, status: Bits) returns (r: int)
    requires size > 0
    modifies t`queueSelect
    ensures Tells(r, status, t.Bank(0), size)
  {
    StatusBits();
    assert FEATURES_OK in status ==> FEATURES_OK in status * BitsOf(STAT_FEATURES_OK);
    if status * BitsOf(STAT_FEATURES_OK) == {} {
      return -2;
    }
    var enabled := t.GetQueueEnable(0);
    if enabled != 0 {
      return -3;
    }
    var max := t.GetQueueSize(0);
    if max == 0 {
      return -4;
    }
    if max < size {
      return -5;
    }
    return 0;
  }

  /** Everything up to the decision to set up queue 0. */
  method Agree(t: Transport, off: seq<nat>, size: nat) returns (status: Bits, r: int)
    requires t.trace == [] && size > 0 && forall i :: 0 <= i < |off| ==> off[i] < 31
    modifies t
    ensures status == {ACKNOWLEDGE, DRIVER, FEATURES_OK} - t.clears + t.sets
    ensures Conforms(t.trace, t.offered) == Some(Answered(status))
    ensures Tells(r, status, t.Bank(0), size) && t.queues == old(t.queues)
    ensures var accepted := t.offered - set b | b in off; t.Word(0) == Low(accepted) && t.Word(1) == High(accepted)
  {
    status := Greet(t);
    NegotiateFeatures(t, off);
    status := Confirm(t, status);
    r := CheckQueue(t, size, status);
  }

  /** The ring in the static buffer, where it always fits. */
  method PlaceRing(vr: VringInfo, buf: nat, size: nat) returns (r: int)
    requires (size == 8 || size == 128) && buf % PAGE == 0 && buf + 16 * U32 < U64
    modifies vr
    ensures r == 0
    ensures vr.size == size && vr.desc == buf && vr.avail == Avail(buf, size) && vr.used == Used(buf, size)
  {
    StaticBuffersSuffice(buf);
    AlignShift(buf, 0);
    r := vr.Init(buf, 3 * PAGE, size, 0);
  }

  /** Queue 0 from its size to DRIVER_OK. */
  method GoLive(t: Transport, size: nat, vr: VringInfo, status: Bits)
    requires Conforms(t.trace, t.offered) == Some(Answered(status)) && FEATURES_OK in status
    modifies t
    ensures Conforms(t.trace, t.offered)
            == Some(Progress(status + {DRIVER_OK}, true, true, true, true, true, {0}, {0}, {0}))
    ensures t.Bank(0) == old(t.Bank(0)).(size := size, enable := 1, msix := 0xffff, desc := vr.desc, driver := vr.avail,
                                         device := vr.used)
    ensures forall q :: q != 0 ==> t.Bank(q) == old(t.Bank(q))
    ensures t.driverWords == old(t.driverWords)
  {
    hide Conforms;
    ghost var p := Answered(status);
    ghost var sized, addr := Size(0, size), Addresses(0, vr.desc, vr.avail, vr.used);
    ConformsSnoc(t.trace, sized, t.offered, p);
    t.SetQueueSize(0, size);
    t.DisableMsix(0);
    p := After(p, sized);
    ConformsSnoc(t.trace, addr, t.offered, p);
    t.SetQueueAddr(0, vr);
    p := After(p, addr);
    ConformsSnoc(t.trace, Enable(0), t.offered, p);
    t.SetQueueEnable(0);
    p := After(p, Enable(0));
    StatusBits();
    ConformsSnoc(t.trace, Status(status + {DRIVER_OK}), t.offered, p);
    t.SetStatus(status + BitsOf(STAT_DRIVER_OK));
    assert p.sized == p.addressed == p.enabled == {0};
  }

  /** virtio_pci_blk_init and virtio_pci_rng_init after the device is found: the same order with their
      own unwanted features, queue size and three-page buffer. Whatever the device answers, the trace is
      in order; a failure leaves the queues alone and DRIVER_OK unset; success leaves queue 0 live,
      of the driver's size, at the addresses the layout gives. */
  method Initialise(t: Transport, off: seq<nat>, size: nat, vr: VringInfo, buf: nat) returns (r: int)
    requires t.trace == [] && (size == 8 || size == 128) && buf % PAGE == 0 && buf + 16 * U32 < U64
    requires forall i :: 0 <= i < |off| ==> off[i] < 31
    modifies t, vr
    ensures Tells(r, {ACKNOWLEDGE, DRIVER, FEATURES_OK} - t.clears + t.sets, old(t.Bank(0)), size)
    ensures var accepted := t.offered - set b | b in off; t.Word(0) == Low(accepted) && t.Word(1) == High(accepted)
    ensures Conforms(t.trace, t.offered).Some?
    ensures var p := Conforms(t.trace, t.offered).value;
            if r == 0 then p.driven && p.confirmed && p.enabled == {0}
            else !p.driven && p.enabled == {} && t.queues == old(t.queues)
    ensures r == 0 ==>
              && vr.size == size && vr.desc == buf && vr.avail == Avail(buf, size) && vr.used == Used(buf, size)
              && t.Bank(0) == old(t.Bank(0)).(size := size, enable := 1, msix := 0xffff, desc := vr.desc,
                                              driver := vr.avail, device := vr.used)
  {
    var status;
    status, r := Agree(t, off, size);
    if r != 0 {
      return;
    }
    r := PlaceRing(vr, buf, size);
    if r != 0 {
      return;
    }
    GoLive(t, size, vr, status);
  }

  /** The features the drivers turn off, in their order. */
  const BLK_OFF: seq<nat> := [5, 7, 9, 11, 12, 27, 29, 28]
  const RNG_OFF: seq<nat> := [29, 28]

  /** What the device has accepted: nothing it did not offer, nothing turned off, and everything offered
      from bit 32 up. */
  lemma AcceptedFeatures(offered: FeatureWord, off: seq<nat>)
    requires off == BLK_OFF || off == RNG_OFF
    ensures forall i :: 0 <= i < |off| ==> off[i] < 31
    ensures var unwanted := set b | b in off;
            var f := Join(Low(offered - unwanted), High(offered - unwanted));
            f <= offered && f !! unwanted && (forall b :: b in offered && b >= 32 ==> b in f)
            && f == offered - (if off == BLK_OFF then {5, 7, 9, 11, 12, 27, 28, 29} else {28, 29})
  {
    JoinSplit(offered - set b | b in off);
  }
}
