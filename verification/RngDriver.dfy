/**
 * virtio-pci-rng.c: the polling user of a ring. Here a request is one writable descriptor, and
 * descriptor, avail entry and counter share one index.
 */
module RngDriver {
  import opened Basics
  import opened Vring

  const RING: nat := 8

  datatype DevPhase = Waiting | Taken(head: nat) | Served(head: nat, len: nat) | Pushed

  class Rng {
    // gs_virtio_rng
    var availCtr: nat
    var usedCtr: nat
    // its vring
    const desc: array<Desc>
    const ring: array<nat>
    const used: array<UsedElem>
    var availIdx: nat
    var usedIdx: nat
    // the caller's memory and the device
    var ram: seq<byte>
    var phase: DevPhase
    var seen: nat
    // chains published, what the device reported for each one it has finished, reads returned
    ghost var asked: nat
    ghost var answers: seq<UsedElem>
    ghost var returned: nat
    ghost var before: seq<byte>

    ghost predicate Shape() {
      desc.Length == ring.Length == used.Length == RING
    }

    ghost function TakenCount(): nat
      reads this
    {
      if phase.Waiting? then |answers| else |answers| + 1
    }

    ghost predicate Counters()
      reads this
    {
      && availCtr == availIdx == asked % U16
      && seen == TakenCount() % U16
      && usedIdx == |answers| % U16
      && usedCtr == returned % U16
      && returned <= |answers| <= TakenCount() <= asked <= returned + 1
    }

    /** The chain that is out, as the device finds it. */
    ghost predicate Pending()
      reads this, desc, ring
      requires Shape()
    {
      asked > returned ==>
        var i := returned % RING;
        && ring[i] == i
        && desc[i].addr.Data? && HasWrite(desc[i]) && !HasNext(desc[i])
        && desc[i].addr.at + desc[i].len <= |ram|
    }

    ghost predicate Answering()
      reads this, desc, used
      requires Shape()
    {
      var i := returned % RING;
      && (phase.Taken? ==> phase.head == i)
      && (phase.Served? ==> phase.head == i && phase.len <= desc[i].len)
      && (phase.Pushed? ==> used[|answers| % RING].id == i && used[|answers| % RING].len <= desc[i].len)
      && (|answers| > returned ==> used[i] == answers[|answers| - 1] && used[i].id == i && used[i].len <= desc[i].len)
    }

    /** Memory differs from what it was when the chain was published only where the device answered. */
    ghost predicate Written()
      reads this, desc, used
      requires Shape()
    {
      && |ram| == |before|
      && (asked > returned ==>
            var i := returned % RING;
            desc[i].addr.Data?
            && var n := if phase.Served? then phase.len
                        else if phase.Pushed? then used[|answers| % RING].len
                        else if |answers| > returned then used[i].len else 0;
               forall k :: 0 <= k < |ram| && !(desc[i].addr.at <= k < desc[i].addr.at + n) ==> ram[k] == before[k])
    }

    ghost predicate Valid()
      reads this, desc, ring, used
    {
      Shape() && Counters() && Pending() && Answering() && Written()
    }

    ghost predicate Quiet()
      reads this
    {
      asked == |answers| == returned && phase.Waiting?
    }

    ghost function Rank(): nat
      reads this
    {
      match phase
      case Waiting => if |answers| < asked then 4 else 0
      case Taken(_) => 3
      case Served(_, _) => 2
      case Pushed => 1
    }

    constructor (memory: seq<byte>)
      ensures Valid() && Quiet() && asked == 0 && ram == memory
      ensures fresh(desc) && fresh(ring) && fresh(used)
    {
      desc := new Desc[RING](_ => Desc(Data(0), 0, 0, 0));
      ring := new nat[RING](_ => 0);
      used := new UsedElem[RING](_ => UsedElem(0, 0));
      availCtr, usedCtr, availIdx, usedIdx, seen := 0, 0, 0, 0, 0;
      ram, before := memory, memory;
      phase := Waiting;
      asked, answers, returned := 0, [], 0;
    }

    /** What the device leaves alone. */
    twostate predicate DriverSide()
      reads this
    {
      && asked == old(asked) && returned == old(returned) && before == old(before)
      && availCtr == old(availCtr) && usedCtr == old(usedCtr)
    }

    method DeviceTake()
      requires Valid() && phase.Waiting? && |answers| < asked
      modifies this
      ensures Valid() && phase.Taken? && DriverSide() && answers == old(answers)
    {
      WrapSlot(|answers|, RING);
      WrapAdd(|answers|, 1);
      phase := Taken(ring[seen % RING]);
      seen := (seen + 1) % U16;
    }

    /** The device reports as many bytes as it writes. */
    method DeviceServe()
      requires Valid() && phase.Taken?
      modifies this
      ensures Valid() && phase.Served? && DriverSide() && answers == old(answers)
    {
      var d := desc[phase.head];
      var bytes: seq<byte> := *;
      if |bytes| > d.len {
        bytes := bytes[..d.len];
      }
      ram := Splice(ram, d.addr.at, bytes);
      phase := Served(phase.head, |bytes|);
    }

    method DevicePush()
      requires Valid() && phase.Served?
      modifies this, used
      ensures Valid() && phase.Pushed? && DriverSide() && answers == old(answers)
    {
      WrapSlot(|answers|, RING);
      used[usedIdx % RING] := UsedElem(phase.head, phase.len);
      phase := Pushed;
    }

    method DeviceBump()
      requires Valid() && phase.Pushed?
      modifies this
      ensures Valid() && phase.Waiting? && DriverSide() && |answers| == asked
      ensures |answers| == |old(answers)| + 1 && answers[..|old(answers)|] == old(answers)
    {
      WrapAdd(|answers|, 1);
      usedIdx := (usedIdx + 1) % U16;
      phase := Waiting;
      answers := answers + [used[|answers| % RING]];
    }

    /** One step of a device that has a chain to work on. */
    method DeviceStep()
      requires Valid() && Rank() > 0
      modifies this, used
      ensures Valid() && Rank() < old(Rank()) && DriverSide()
      ensures answers == old(answers) || (|answers| == |old(answers)| + 1 && answers[..|old(answers)|] == old(answers))
    {
      hide Valid;
      match phase
      case Waiting => DeviceTake();
      case Taken(_) => DeviceServe();
      case Served(_, _) => DevicePush();
      case Pushed => DeviceBump();
    }

    /** The descriptor, then the avail entry, then the index that makes it visible. */
    method Publish(at: nat, len: nat)
      requires Valid() && Quiet() && at + len <= |ram|
      modifies this, desc, ring
      ensures Valid() && asked == old(asked) + 1 && returned == old(returned) && answers == old(answers)
      ensures before == ram == old(ram) && desc[old(asked) % RING] == Desc(Data(at), len, WRITE, 0)
    {
      WrapSlot(asked, RING);
      WrapAdd(asked, 1);
      var idx := availCtr % RING;
      availCtr := (availCtr + 1) % U16;
      desc[idx] := Desc(Data(at), len, WRITE, 0);
      ring[availIdx % RING] := idx;
      availIdx := (availIdx + 1) % U16;
      asked, before := asked + 1, ram;
    }

    method Collect() returns (n: nat)
      requires Valid() && usedCtr != usedIdx
      modifies this
      ensures Valid() && Quiet() && asked == old(asked) && answers == old(answers)
      ensures returned == old(returned) + 1 == |answers|
      ensures answers[old(returned)] == UsedElem(old(returned) % RING, n)
      ensures n <= desc[old(returned) % RING].len
      ensures ram == old(ram)
      ensures desc[old(returned) % RING].addr.Data?
      ensures |ram| == |old(before)|
      ensures var p := desc[old(returned) % RING].addr.at;
              forall k :: 0 <= k < |ram| && !(p <= k < p + n) ==> ram[k] == old(before)[k]
    {
      WrapSlot(returned, RING);
      WrapAdd(returned, 1);
      n := used[usedCtr % RING].len;
      usedCtr := (usedCtr + 1) % U16;
      returned, before := returned + 1, ram;
    }

    /** virtio_pci_rng_read: the answer is the one for the descriptor published by this call. */
    method Read(at: nat, len: nat) returns (n: nat)
      requires Valid() && Quiet() && at + len <= |ram|
      modifies this, desc, ring, used
      ensures Valid() && Quiet() && asked == old(asked) + 1
      ensures answers == old(answers) + [UsedElem(old(asked) % 8, n)]
      ensures n <= len
      ensures |ram| == |old(ram)|
      ensures forall k :: 0 <= k < |ram| && !(at <= k < at + n) ==> ram[k] == old(ram)[k]
      ensures availCtr == availIdx == usedIdx == usedCtr == asked % 65536
    {
      Publish(at, len);
      while usedCtr == usedIdx
        invariant Valid() && asked == old(asked) + 1 && returned == old(asked)
        invariant before == old(ram) && desc[old(asked) % RING] == Desc(Data(at), len, WRITE, 0)
        invariant answers == old(answers)
                  || (|answers| == |old(answers)| + 1 && answers[..|old(answers)|] == old(answers))
        decreases Rank()
      {
        DeviceStep();
      }
      n := Collect();
    }
  }
}
