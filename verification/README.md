# Verified model of the RISC-V virtio demo

A Dafny model of a bare-metal RISC-V program: its virtio block and entropy drivers over PCI, the
interrupt path they depend on, and its printf library. `dafny verify dfyconfig.toml` checks all of it.

**The block driver** (`BlkProtocol`, `BlkInvariant`, `BlkTheorems`, `BlkLiveness`, `BlkRuns`,
`BlkDriver`). A request is published through a split virtqueue, a device answers it at its own pace, and
an interrupt handler lowers the flag its caller spins on. `BlkProtocol` has thread, device, interrupt
lines and handler as one step system, one step for each statement another actor can observe; the handler
suspends the thread, the device never stops. The device may take a chain as soon as the avail index is
bumped; it moves the bytes of the request in pieces of any size and order, pushes a used element, bumps
the used index and raises its ISR, each in a step of its own. The theorems hold for every run of that
system: it refines the one-request-at-a-time disk of `SimpleDisk`, no completion is lost, and a waiting
caller always gets its answer. `BlkDriver.Machine` is the driver's code over arrays and 16-bit counters;
each method is proved to perform a run of the step system with any device steps in between, and the
whole call to have exactly one effect. Its `budget` parameter bounds only interrupts nobody waits for
(configuration changes, UART); it may be any number.

**The polling driver** (`RngDriver`) uses a ring of eight entries without interrupts.

**Layout and discovery.** `VringLayout` places a ring in a buffer, `PciCaps` walks a capability list,
`CapLists` lays one out byte by byte, `PciBars` sizes and places BARs, `PciProbe` walks the bus,
`BarAddresses` says what they then decode and what the drivers read from them, `FeatureMasks` turns
feature bits off, `InitSequence` has the banked registers and the order of initialisation, `PlicSetup`
the interrupt sources, `SlotWindows` how many requests may be in flight.

**printf.** `IntegerText` writes down what the code renders for an integer and, independently, what
section 7.21.6.1 of ISO C11 asks for, and settles exactly where they agree. `IntegerPrinter` is the code
itself, backwards in 32 cells, `Gadgets` the counting and truncating output, `FormatText` the grammar
and meaning of formats, `FormatGrammar` directives as they are written, `IsoDirectives` what ISO C makes
of them, `FormatMeaning` whole formats, `FormatEnds` where a format may end, `FormatLoop` the loop over
a format, `Snprintf` the entry points, `FormatTheorems` the laws.

**Where code and documentation disagree, the code is modelled.**

- The block driver's range check adds two 32-bit fields in 32 bits and compares whole sectors:
  `GuardExactly` says when it is right, `WrappedCallIsLost` and `LastByteIsLost` give requests outside
  the disk that are accepted and have no effect.
- The second check of `virtio_vring_init` counts one used element beyond the ring; for sizes 511 modulo
  512, which no queue has, it refuses a buffer that would hold the ring (`FullRingIsRefused`).
- In a buffer that does not start at a page boundary the avail ring can lie over the table
  (`UnalignedRingOverlaps`); `LayoutSound` says when it does not.
- BARs are placed on page boundaries only. One larger than a page may drop bits of its address and
  answer where another BAR does (`GrantsApartBarsNot`); `AllDecodeExactly` says when all answer where
  they were put.
- A function found in the first slot of the bus is answered with 0, which callers take for none
  (`FirstSlotIsNotFound`).
- `%#.0b` of 0 prints a prefix (`BinaryZeroComesOut`) and integers longer than 32 characters are cut
  (`BufferEnds`): `PrintIntegerExactly`.
- A negative precision argument counts as 0 and not as omitted, for integers
  (`NegativePrecisionComesOut`) and strings (`NegativeStringComesOut`), and a string's length is counted
  up to INT_MAX (`LongStringComesOut`): `DirectiveExactly` and `StringExactly`.
- `%p` fills its field with zeros even when a precision is given, which ISO C does not
  (`PointerComesOut`): `PointerExactly`.
- The check for the end of a format is made only after the characters that use the advance macro. A
  format that breaks off behind flags or digits, or in I16, runs past its terminator (`WidthRunsOn`,
  `SizeRunsOn`): `ContainedExactly`.

Addresses of driver arrays are symbolic in the ring modules. Registers, memory contents and device
answers are the state of a class or a parameter; what a device is assumed to do is written as its steps
(VirtIO 1.1 sections 2.6, 4.1.4 and 5.2.6).

## Model

| member | source | states |
|---|---|---|
| SimpleDisk.AsAskedExactly | src/driver/virtio/virtio-pci-blk.c:147-174 | a request copies exactly the bytes asked for, on every disk of a given size, if and only if it is empty, made of whole sectors, or refused for reaching past the end; a start inside a sector is rounded down |
| SimpleDisk.WriteThenRead | src/main.c:98-122 | reading a region back after writing it gives what was written, whatever memory held in between |
| BlkInvariant.HeaderMeans | src/driver/virtio/virtio-pci-blk.c:147-163 | the header names the sector of 512 bytes the request's first byte lies in, and its direction as 0 or 1 |
| BlkInvariant.ChainDecodes | src/driver/virtio/virtio-pci-blk.c:156-174 | whatever else the table holds, the device walks three distinct descriptors from the published slot and decodes the submitted type, sector, buffer, direction and status byte |
| SimpleDisk.CopyPieces | src/driver/virtio/virtio-pci-blk.c:160-174 | a copy made in pieces, of any sizes, in any order, some of them overlapping, is the whole copy once every byte is in one of them |
| BlkInvariant.ServeEffect | src/driver/virtio/virtio-pci-blk.c:160-174 | from the chain the device starts on exactly the request the thread waits for, or refuses one outside the disk in that request's status byte; nothing else changes |
| BlkInvariant.MoveEffect | src/driver/virtio/virtio-pci-blk.c:160-174 | a device moving any bytes it has not moved yet makes the copy of that piece of the request and touches nothing else |
| BlkInvariant.FinishEffect | src/driver/virtio/virtio-pci-blk.c:160-174 | when the device reports success the store is the request's whole effect on the store before the call, and only that request's status byte is written |
| BlkInvariant.FetchFindsWaiter | src/driver/virtio/virtio-pci-blk.c:213-223 | the used id the handler fetches indexes a non-NULL `info` entry, that of the one request still waiting, whose flag is up |
| BlkInvariant.StepInv | src/driver/virtio/virtio-pci-blk.c:143-229 | each statement of thread and handler, each device step and each interrupt event keeps the invariant: counters, slots, published chain, flag, interrupt lines, refinement of the disk |
| BlkInvariant.RunInv | src/driver/virtio/virtio-pci-blk.c:143-229 | every state reachable from initialisation satisfies that invariant |
| BlkTheorems.NeverFaults | src/driver/virtio/virtio-pci-blk.c:213-223 | in no run does the device find a malformed chain or the handler a NULL or wild `info` entry |
| BlkTheorems.QuiescentCounters | src/driver/virtio/virtio-pci-blk.c:156-158 | between requests avail, used and handler counters are n modulo 65536 and the descriptor counter 3n modulo 65536, for the unbounded number n of requests, across every wrap; the slots are those of n modulo 128 |
| BlkTheorems.InfoNamesTheCaller | src/driver/virtio/virtio-pci-blk.c:178-196 | `info` is NULL everywhere but in the slot of a call that has published its buffer and not returned |
| BlkTheorems.NoLostCompletion | src/driver/virtio/virtio-pci-blk.c:205-228 | in every reachable state an undrained used entry that has been signalled, with the handler not draining, has the ISR raised, and its interrupt is pending, can be latched, or will be once the open claim is done |
| BlkTheorems.AckIsForTheWaiter | src/driver/virtio/virtio-pci-blk.c:213-224 | the handler lowers exactly the flag of the waiting call, which is still up, and only once the device is done with its chain and has written its status |
| BlkTheorems.FlagsLoweredOnce | src/driver/virtio/virtio-pci-blk.c:213-224 | each flag is lowered exactly once: over any run that ends between calls the handler has lowered as many flags as calls were accepted |
| BlkTheorems.UnansweredIsMarked | src/driver/virtio/virtio-pci-blk.c:172 | from its marking until the entry is drained the status byte is 0xff exactly as long as the device has not answered |
| BlkTheorems.DrainIsComplete | src/driver/virtio/virtio-pci-blk.c:213-227 | the drain loop ends if and only if every entry pushed so far has been drained |
| BlkTheorems.TraceIsHistory | src/driver/virtio/virtio-pci-blk.c:143-197 | the recorded events are the accepted calls and the caller's stores in order, a call in progress last |
| BlkTheorems.RefinesSimpleDisk | src/driver/virtio/virtio-pci-blk.c:143-197 | for every run and interleaving, when no call is in progress, disk and memory are what the accepted requests make of them one after another |
| BlkTheorems.RefinesInFlight | src/driver/virtio/virtio-pci-blk.c:143-197 | at every point of a call the store differs from the one before it only inside the region the request writes, where each byte is the old or the new one; none is new before the device moves bytes, all are once it has finished, and so once the spin loop has ended |
| BlkTheorems.WholeSectorCall | src/driver/virtio/virtio-pci-blk.c:147-154 | a whole-sector request ending below 2^32 is accepted if and only if it ends within the capacity; otherwise ring, descriptors and counters are untouched |
| BlkTheorems.CapacityIsDisk | src/driver/virtio/virtio-pci-blk.c:118-125 | for a disk of whole sectors, fewer than 2^32, the capacity is the size of the disk in units of 512 bytes |
| BlkTheorems.GuardExactly | src/driver/virtio/virtio-pci-blk.c:149-154 | for every 32-bit address and length the range check accepts exactly what lies within the capacity if and only if the request does, or its end, kept in 32 bits, still lies a whole sector or more beyond it |
| BlkTheorems.LastByteIsLost | src/driver/virtio/virtio-pci-blk.c:149-154 | one byte behind the last sector is accepted and has no effect, because the comparison is in whole sectors |
| BlkTheorems.WrappedCallIsLost | src/driver/virtio/virtio-pci-blk.c:149-154 | a concrete request whose end wraps is accepted and has no effect |
| BlkLiveness.SomeProgress | src/driver/virtio/virtio-pci-blk.c:187 | no deadlock: in every reachable state with a call in progress a step that brings it nearer its end is possible |
| BlkLiveness.StepWork | src/driver/virtio/virtio-pci-blk.c:143-229 | every such step makes the measure over thread, device, line and handler smaller; only a new call or an unasked interrupt makes it larger, by a bounded cost |
| BlkLiveness.ProgressIsPaidFor | src/driver/virtio/virtio-pci-blk.c:187 | over any run the steps of progress are at most the initial measure plus 221 and the length in bytes for each accepted call, 5 for each configuration change and 3 for each UART interrupt, so the spin loop ends |
| BlkDriver.Machine.constructor | src/driver/virtio/virtio-pci-blk.c:18 | zeroed static memory and a fresh device satisfy the step system's initial predicate and the invariant |
| BlkDriver.Machine.FillDesc | src/driver/virtio/virtio-ring.c:50-58 | one descriptor is written, the others are unchanged |
| BlkDriver.Machine.ClearIsr | src/driver/virtio/virtio-pci.c:311-315 | a handler step that lowers the ISR, then any steps of the device |
| BlkDriver.Machine.DrainOne | src/driver/virtio/virtio-pci-blk.c:213-227 | one turn of the drain loop is a run of the step system that drains exactly one entry |
| BlkDriver.Machine.Drain | src/driver/virtio/virtio-pci-blk.c:213-227 | the drain loop is a run of the step system, ends, and leaves the driver's index at the device's |
| BlkDriver.Machine.Intr | src/driver/virtio/virtio-pci-blk.c:205-229 | clear ISR, then drain: a run of the step system, total, with every device interleaving |
| BlkDriver.Machine.Claim | src/platform/plic.c:34-38 | the claim returns the lowest pending source or 0 and takes the trap step |
| BlkDriver.Machine.PlicComplete | src/platform/plic.c:41-44 | completion is the handler's last step |
| BlkDriver.Machine.HandleExternalTrap | src/cpu/trap-handler.c:46-68 | claim, dispatch and completion are a run of the step system; a claim of 0 does nothing |
| BlkDriver.Machine.DrawSlots | src/driver/virtio/virtio-pci-blk.c:156-158 | three consecutive slots of the wrapping counter, which moves on by three |
| BlkDriver.Machine.TakeSlots | src/driver/virtio/virtio-pci-blk.c:156-158 | entering the call is the step system's accepted invocation |
| BlkDriver.Machine.WriteHeader | src/driver/virtio/virtio-pci-blk.c:160-163 | a run whose first step writes the header |
| BlkDriver.Machine.WriteDesc0 | src/driver/virtio/virtio-pci-blk.c:165-167 | a run whose first step writes the header's descriptor |
| BlkDriver.Machine.WriteDesc1 | src/driver/virtio/virtio-pci-blk.c:168-170 | a run whose first step writes the data descriptor |
| BlkDriver.Machine.WriteStatus | src/driver/virtio/virtio-pci-blk.c:172 | a run whose first step marks the status byte |
| BlkDriver.Machine.WriteDesc2 | src/driver/virtio/virtio-pci-blk.c:173-174 | a run whose first step writes the status descriptor |
| BlkDriver.Machine.BuildChain | src/driver/virtio/virtio-pci-blk.c:160-174 | header, descriptors and status byte, with the others interleaved, leave the invariant and the call as they were |
| BlkDriver.Machine.RaiseFlag | src/driver/virtio/virtio-pci-blk.c:177 | a run whose first step raises the flag |
| BlkDriver.Machine.WriteInfo | src/driver/virtio/virtio-pci-blk.c:178 | a run whose first step sets `info` |
| BlkDriver.Machine.WriteAvail | src/driver/virtio/virtio-ring.c:63 | a run whose first step writes the avail entry |
| BlkDriver.Machine.PublishAvail | src/driver/virtio/virtio-ring.c:66 | a run whose first step makes the entry visible |
| BlkDriver.Machine.AddAvail | src/driver/virtio/virtio-ring.c:60-68 | entry before index, with the device free to act in between |
| BlkDriver.Machine.RingDoorbell | src/driver/virtio/virtio-pci-blk.c:182 | the doorbell as a step of the thread, which the device need not wait for; where it is written is `SetQueueNotify`'s matter |
| BlkDriver.Machine.Publish | src/driver/virtio/virtio-pci-blk.c:177-182 | flag and `info` before the avail ring, then the doorbell |
| BlkDriver.Machine.SpinOnce | src/driver/virtio/virtio-pci-blk.c:187 | while the flag is read as 1 the others make progress: the measure falls |
| BlkDriver.Machine.SpinWait | src/driver/virtio/virtio-pci-blk.c:184-187 | the spin loop ends, with the call's answer in |
| BlkDriver.Machine.ForgetBuffer | src/driver/virtio/virtio-pci-blk.c:196 | a run whose first step clears `info` and ends the call |
| BlkDriver.Machine.Perform | src/driver/virtio/virtio-pci-blk.c:156-196 | an accepted call returns after exactly one effect of its request on disk and memory, whatever device and handler do meanwhile |
| BlkDriver.Machine.Rw | src/driver/virtio/virtio-pci-blk.c:143-197 | the whole call: one effect if its range check passes, no change of any state otherwise |
| BlkDriver.Machine.RwSectors | src/driver/virtio/virtio-pci-blk.c:143-197 | for whole sectors inside the capacity, the effect is the copy asked for |
| BlkDriver.Machine.WriteReadBack | src/main.c:100-122 | one round of virtio_pci_blk_test, write, overwrite and read back, ends with its comparison true |
| SlotWindows.WindowDisjoint | src/driver/virtio/virtio-pci-blk.c:156-158 | for every power-of-two ring from 4 to 32768 and any counter value, the descriptors of any floor(q/3) consecutive requests are pairwise disjoint, across every wrap |
| SlotWindows.WindowIsTight | src/driver/virtio/virtio-pci-blk.c:156-158 | one more request always meets a descriptor of the first |
| Vring.WalkThree | src/driver/virtio/virtio-pci-blk.c:165-174 | a chain of three descriptors is walked in order, whatever the rest of the table holds |
| RngDriver.Rng.Publish | src/driver/virtio/virtio-pci-rng.c:125-134 | descriptor, entry and index of one request; nothing else of the ring's state changes |
| RngDriver.Rng.Collect | src/driver/virtio/virtio-pci-rng.c:147-150 | the length is that of the used element for the descriptor this call published |
| RngDriver.Rng.Read | src/driver/virtio/virtio-pci-rng.c:117-151 | over any number of calls each returns its own answer, at most the length asked for, memory outside the bytes reported is untouched, and all four indices agree modulo 65536 at the end; the poll ends |
| VringLayout.VringInfo.Init | src/driver/virtio/virtio-ring.c:23-48 | returns 0 exactly when both checks pass, -1 or -2 for the check that failed, and sets the fields as the checks passed |
| VringLayout.AcceptedExactly | src/driver/virtio/virtio-ring.c:23-48 | for a page-aligned buffer the ring is accepted if and only if its size fits, except that a tight buffer is refused for sizes 511 modulo 512 |
| VringLayout.FullRingIsRefused | src/driver/virtio/virtio-ring.c:42-45 | a ring of 511 entries fits four pages and is refused |
| VringLayout.PowerOfTwoAccepted | src/driver/virtio/virtio-ring.c:42-45 | for the powers of two up to 32768 the second check never fires |
| VringLayout.LayoutSound | src/driver/virtio/virtio-ring.c:32-39 | in any buffer, aligned or not, the parts of an accepted ring are page-aligned, in order, inside the buffer, and as large as VirtIO 1.1 section 2.6 asks, event fields included; the table stays clear of the avail ring if and only if the buffer is page-aligned, the ring has 256 entries or more, or the table reaches into the buffer's second page |
| VringLayout.UnalignedRingOverlaps | src/driver/virtio/virtio-ring.c:32-39 | eight entries in a buffer one byte behind a page boundary: the ring is accepted and its avail ring begins where its table does |
| VringLayout.StaticBuffersSuffice | src/driver/virtio/virtio-pci-blk.c:16 | three pages hold a ring of 128 or 8 entries, and not of 512 |
| PciCaps.PlaceIs | src/driver/virtio/virtio-pci.c:71-76 | get_cfg_addr reads the two words at 0x10 and 0x14 plus four for each BAR before it, the least significant byte first, drops four flag bits and adds the offset |
| PciCaps.AcyclicExactly | src/driver/virtio/virtio-pci.c:84-138 | the capability list ends if and only if following it never meets an offset twice |
| PciCaps.LastOfMeans | src/driver/virtio/virtio-pci.c:106-135 | what `LastOf` names is an entry of the type with none of that type behind it, and there is none if it names none |
| PciCaps.ConfigRead | src/driver/pcie/pci.c:49-58 | the bytes are copied in place, the rest of the destination is unchanged |
| PciCaps.Hw.Visit | src/driver/virtio/virtio-pci.c:89-137 | one turn of the walk takes the pointers from those after a prefix of the list to those after one entry more |
| PciCaps.Hw.ReadCaps | src/driver/virtio/virtio-pci.c:78-154 | the walk ends; each pointer is computed from the last entry of its type, or kept, the multiplier from the last notify entry; the result says whether all four are there |
| CapLists.EntryRead | src/driver/virtio/virtio-pci.h:30-50 | from the bytes of a virtio capability, written from its fields as VirtIO 1.1 section 4.1.4 lays them out, the code takes exactly its type, BAR, offset, multiplier and the next entry's offset; any other capability is not taken for one |
| CapLists.ListFound | src/driver/virtio/virtio-pci.c:84-138 | a configuration space that holds a list of such entries from 0x34 on has a list that ends, with just these entries |
| CapLists.StructuresFound | src/driver/virtio/virtio-pci.c:78-138 | on it the common configuration, notification, ISR and device pointers are where the last virtio entry of type 1, 2, 3 and 4 says, or keep their values if there is none, and the multiplier is that of the last entry of type 2 |
| PciBars.Size32Recovered | src/driver/pcie/pci.c:135-139 | ones written and read back give the size of every 32-bit BAR |
| PciBars.Size64Recovered | src/driver/pcie/pci.c:111-116 | and of every 64-bit BAR, through both registers |
| PciBars.PlanSound | src/driver/pcie/pci.c:90-151 | the window's plan grants each implemented BAR one page-aligned interval of its size, all disjoint, and a 64-bit BAR consumes two slots |
| PciBars.RetainedExactly | src/driver/virtio/virtio-pci.c:71-76 | a 64-bit BAR written a page-aligned address reads back that address if and only if it is naturally aligned for the BAR's size |
| PciBars.Retained32Exactly | src/driver/virtio/virtio-pci.c:71-76 | read through the same 64-bit view, a 32-bit BAR reads back the address written if and only if that is naturally aligned and the next register holds its upper half |
| PciBars.SmallBarsRetain | src/driver/pcie/pci.c:238-246 | a BAR of at most a page retains its address wherever it is put |
| PciProbe.Pci.AllocMmio | src/driver/pcie/pci.c:239-246 | the next address of the window, which moves on by whole pages |
| PciProbe.Pci.Configure32 | src/driver/pcie/pci.c:132-149 | a 32-bit BAR is sized and given its place; an absent one only reads 0 |
| PciProbe.Pci.Configure64 | src/driver/pcie/pci.c:109-130 | a 64-bit BAR is sized and given its place in both registers |
| PciProbe.Pci.ConfigureBar | src/driver/pcie/pci.c:90-151 | one turn of the BAR loop: the right kind is recognised, and no other register changes |
| PciProbe.Pci.ConfigureBars | src/driver/pcie/pci.c:90-151 | the BAR loop leaves every register holding its grant of the plan |
| PciProbe.Pci.ProbeSlot | src/driver/pcie/pci.c:69-152 | one device slot: configured and switched on if its id matches, untouched if not |
| PciProbe.Pci.Probe | src/driver/pcie/pci.c:60-158 | every function of the vendor and kind asked for is configured in bus order, switched on (command register 7) and left in a state to be probed again, the others, whatever their registers, are untouched, and the answer is the place of the last one: its bus from bit 20 and its device from bit 15 up, zeros below, or 0 if there is none |
| PciProbe.Pci.ProbeBoth | src/main.c:59-87 | the two probes of start-up: both drivers' functions are configured, the second's from where the first left the window, and the first's stay as they are |
| PciProbe.IdMatches | src/driver/pcie/pci.c:62-76 | the word compared is that of a function if and only if vendor, in the lower half, and device, in the upper one, are those asked for |
| PciProbe.ProbeAnswers | src/driver/pcie/pci.c:64-78 | the offset kept while walking the bus is the place of the last match, or 0 |
| PciProbe.PlacesApart | src/driver/pcie/pci.c:72-73 | the places of two slots are at least 4 KiB apart, in the order of the slots |
| PciProbe.FirstSlotIsNotFound | src/driver/pcie/pci.c:72-78 | a match in the first slot alone is answered with 0, which callers take for none |
| PciProbe.FunctionsApart | src/driver/pcie/pci.c:68-153 | intervals granted to different functions of one probe are disjoint |
| PciProbe.ProbesApart | src/driver/pcie/pci.c:60-158 | whatever ids two probes look for, all that the later one grants lies behind all that the earlier one granted |
| BarAddresses.AllDecodeExactly | src/driver/pcie/pci.c:90-151 | after a probe every BAR answers to the interval it was granted if and only if every granted address is a multiple of its size, below 4 GiB for a 32-bit BAR |
| BarAddresses.DecodedApart | src/driver/pcie/pci.c:90-151 | then the intervals any two BARs answer to are disjoint |
| BarAddresses.GrantsApartBarsNot | src/driver/pcie/pci.c:90-151 | a 4 KiB BAR before a 16 KiB one is granted a disjoint interval and answers to overlapping addresses |
| BarAddresses.CfgAddrExactly | src/driver/virtio/virtio-pci.c:71-76 | from the configuration bytes of a probed function get_cfg_addr makes the granted address plus the capability's offset if and only if the grant of that 64-bit BAR is naturally aligned |
| BarAddresses.CfgAddr32Exactly | src/driver/virtio/virtio-pci.c:71-76 | through a 32-bit BAR if and only if the grant is naturally aligned and the next register holds the upper half of its address |
| BarAddresses.ReadCapsFinds | src/driver/virtio/virtio-pci.c:78-154 | so the pointer for a type is the naturally aligned address granted to the BAR, 64-bit or 32-bit, of the last capability of that type plus its offset |
| InitSequence.JoinSplit | src/driver/virtio/virtio-pci.c:166 | a 64-bit feature word split in halves and joined is unchanged |
| InitSequence.Transport.GetDeviceFeatures | src/driver/virtio/virtio-pci.c:156-167 | the word offered, through the select register |
| InitSequence.Transport.SetDriverFeatures | src/driver/virtio/virtio-pci.c:182-192 | both halves land in their own banks |
| InitSequence.Transport.GetDriverFeatures | src/driver/virtio/virtio-pci.c:169-180 | what was written is read back |
| InitSequence.Transport.GetQueueSize | src/driver/virtio/virtio-pci.c:194-202 | a read of the map keyed by queue |
| InitSequence.Transport.SetQueueSize | src/driver/virtio/virtio-pci.c:204-212 | a write to the map keyed by queue: that field of that queue and no other |
| InitSequence.Transport.SetQueueAddr | src/driver/virtio/virtio-pci.c:214-224 | the three addresses of that queue and nothing else |
| InitSequence.Transport.SetQueueEnable | src/driver/virtio/virtio-pci.c:254-262 | that queue is enabled and no other |
| InitSequence.Transport.GetQueueEnable | src/driver/virtio/virtio-pci.c:264-272 | a read of the map keyed by queue |
| InitSequence.Transport.GetQueueNotifyAddr | src/driver/virtio/virtio-pci.c:236-245 | the doorbell of that queue, from the notification structure, the queue's offset and the multiplier |
| InitSequence.Transport.SetQueueNotify | src/driver/virtio/virtio-pci.c:247-252 | one doorbell more, at that address |
| InitSequence.DoorbellExactly | src/driver/virtio/virtio-pci.c:236-245 | the address is the structure's plus offset times multiplier if and only if that product, kept in 32 bits, has not wrapped |
| InitSequence.DoorbellInside | src/driver/virtio/virtio-pci.c:236-245 | for a structure as long as VirtIO 1.1 section 4.1.4.4 demands it has not, and the doorbell lies inside the structure |
| InitSequence.DoorbellWraps | src/driver/virtio/virtio-pci.c:236-245 | with a multiplier of 2^31 queue 2 gets the doorbell of queue 0 |
| InitSequence.Transport.DisableMsix | src/driver/virtio/virtio-pci.c:274-301 | the vectors are cleared, of that queue and of the device |
| InitSequence.Greet | src/driver/virtio/virtio-pci-blk.c:36-46 | reset, ACKNOWLEDGE, DRIVER, in that order |
| FeatureMasks.MaskBits | src/driver/virtio/virtio-pci-blk.c:50-57 | the int `~(1 << b)`, converted to 64 bits, has every bit but `b`, the upper half included |
| FeatureMasks.UnsignedMaskBits | src/driver/virtio/virtio-pci-blk.c:50-57 | converted to 32 bits first it would also lose bits 32 to 63 |
| FeatureMasks.TurnOff | src/driver/virtio/virtio-pci-blk.c:50-57 | combining a 64-bit word with the masks one after the other removes exactly the bits listed |
| InitSequence.NegotiateFeatures | src/driver/virtio/virtio-pci-blk.c:48-60 | the offered features but for those turned off are written, in both halves, before FEATURES_OK |
| InitSequence.Confirm | src/driver/virtio/virtio-pci-blk.c:62-67 | FEATURES_OK and the device's answer to it |
| InitSequence.CheckQueue | src/driver/virtio/virtio-pci-blk.c:68-92 | 0 if and only if FEATURES_OK was kept and queue 0 is idle and at least as large as the driver's; each negative result if and only if its own cause stands in the way and no earlier one does |
| InitSequence.Agree | src/driver/virtio/virtio-pci-blk.c:36-92 | everything up to the queue's set-up follows the order, the result says whether queue 0 can be used, and no queue register has been written |
| InitSequence.PlaceRing | src/driver/virtio/virtio-pci-blk.c:95-100 | the ring always fits its static buffer, at the addresses of the layout |
| InitSequence.GoLive | src/driver/virtio/virtio-pci-blk.c:102-116 | size and addresses precede queue enable, which precedes DRIVER_OK; only queue 0 changes |
| InitSequence.Initialise | src/driver/virtio/virtio-pci-blk.c:36-116 | for every answer of the device the trace follows VirtIO 1.1 section 3.1.1; the result is 0 if and only if the device kept FEATURES_OK and offers a usable queue, which is then live at the layout's addresses; no negative result has enabled a queue or set DRIVER_OK |
| InitSequence.ConfirmedWasAsked | src/driver/virtio/virtio-pci-blk.c:62-72 | in a trace in order, FEATURES_OK counts as granted only if it was written and read back afterwards |
| InitSequence.QueuesComeAfter | src/driver/virtio/virtio-pci-blk.c:62-116 | and no queue register or DRIVER_OK is written before that |
| InitSequence.AcceptedFeatures | src/driver/virtio/virtio-pci-blk.c:50-60 | what is accepted is what was offered without bits 5, 7, 9, 11, 12, 27, 28 and 29, for the entropy driver without 28 and 29; every offered bit from 32 up is kept |
| InitSequence.StatusBits | src/driver/virtio/virtio.h:7-10 | the driver's status masks are the bits of VirtIO 1.1 section 2.1 |
| PlicSetup.Plic.Init | src/platform/plic.c:14-21 | the first enable word holds the UART alone, the others are unchanged |
| PlicSetup.Plic.Enable | src/platform/plic.c:23-31 | exactly this source is added to those enabled |
| PlicSetup.Plic.SetUp | src/platform/plic.c:14-31 | from reset, UART and PCIe INTB, 10 and 33, are the sources that can interrupt |
| PlicSetup.TrapClaims | src/platform/plic.c:34-38 | with equal priorities the claim the step system makes is the only one the PLIC allows |
| PrintfText.DigitsMean | src/library/printf/printf.c:545-549 | the digits written stand for the value |
| PrintfText.NoLeadingZero | src/library/printf/printf.c:545-549 | and do not start with a zero |
| PrintfText.DigitsBound | src/library/printf/printf.c:545-549 | a value below base^n has at most n digits |
| IntegerText.Numeral | src/library/printf/printf.c:545-549 | the digits the code writes are the numeral in 0123456789abcdef, or 0123456789ABCDEF for capitals, that ISO C asks for |
| IntegerText.PrintIntegerExactly | src/library/printf/printf.c:431-553 | for all values, bases, widths, precisions and flags the format loop can pass, `%p` with a precision included, the text is that of ISO C if and only if the 32 cells hold it (or lose only a blank sign that padding makes up for), it is not a binary zero with a prefix, and not a right-aligned `%p` whose precision leaves part of its field to fill |
| IntegerText.PrintIntegerIsIso | src/library/printf/printf.c:431-553 | hence for every 64-bit value in base 8, 10 and 16, and 30 bits in base 2, precision up to 30, zero-filled width up to 32, any width of blanks |
| IntegerText.BinaryZeroComesOut | src/library/printf/printf.c:530-543 | `%#.0b` of 0 comes out as "0b", where nothing is asked for |
| IntegerText.BufferEnds | src/library/printf/printf.c:468-470 | `%033u` of 5 comes out one character short |
| Gadgets.Gadget.ToBuffer | src/library/printf/printf.c:373-383 | an empty gadget over a buffer, its size capped at INT_MAX, or discarding everything for NULL |
| Gadgets.Gadget.ToFunction | src/library/printf/printf.c:385-392 | an empty gadget over a function, with room for INT_MAX characters |
| Gadgets.Gadget.Put | src/library/printf/printf.c:322-339 | one character more has been put; it is kept, where it belongs, exactly if there is room, and nothing else changes |
| Gadgets.Gadget.Terminate | src/library/printf/printf.c:342-352 | the terminator goes behind the text kept, or over its last character |
| IntegerPrinter.PadBefore | src/library/printf/printf.c:436-440 | the blanks in front, as many as the field has left |
| IntegerPrinter.PutBackwards | src/library/printf/printf.c:442-445 | the cells in reverse order |
| IntegerPrinter.PadAfter | src/library/printf/printf.c:447-452 | the blanks behind, counted through the wrapping position |
| IntegerPrinter.OutRev | src/library/printf/printf.c:431-453 | the text of the cells, read backwards, in its field |
| IntegerPrinter.FillDigits | src/library/printf/printf.c:545-549 | the last 32 digits, least significant cell first |
| IntegerPrinter.Zeros | src/library/printf/printf.c:468-475 | zeros up to the target or the end of the cells |
| IntegerPrinter.LeadingZeros | src/library/printf/printf.c:463-475 | the padding, a cell left for the sign where zeros fill the width |
| IntegerPrinter.TakeBack | src/library/printf/printf.c:485-494 | the zeros given back for the prefix |
| IntegerPrinter.WritePrefix | src/library/printf/printf.c:495-506 | the prefix, as far as there are cells |
| IntegerPrinter.WriteSign | src/library/printf/printf.c:509-519 | the sign, if there is a cell |
| IntegerPrinter.StartDigits | src/library/printf/printf.c:530-550 | digits and hash flag before the finalisation, zero included |
| IntegerPrinter.Finalize | src/library/printf/printf.c:458-522 | what is put is the rendering of the conversion |
| IntegerPrinter.PrintInteger | src/library/printf/printf.c:525-553 | in-place printing puts exactly the rendering that `PrintIntegerExactly` compares with ISO C |
| FormatTheorems.DirectiveAppend | src/library/printf/printf.c:1057-1150 | a complete directive is read the same whatever follows it |
| FormatGrammar.DirectiveRead | src/library/printf/printf.c:1057-1150 | every directive written as flags of 0, -, +, blank and # in any order, width, precision, length (h, hh, l, ll, t, j, z, I8, I16, I32, I64) and specifier is read back as exactly those, and parsing stops behind it |
| FormatGrammar.FlagsRead | src/library/printf/printf.c:1024-1037 | a flag is raised if and only if its character occurs among the flags in front |
| FormatTheorems.ArgumentRead | src/library/printf/printf.c:1191-1235 | an argument in the range of the type that length and specifier name is read as its value, from any slot that holds it in its low bits |
| FormatEnds.OverrunExactly | src/library/printf/printf.c:1042-1150 | what stands behind a `%` makes the loop step over the terminator if and only if it is flags, a width and a precision, not empty and not ending in a star or a point, or an unfinished directive that ends in I16 |
| FormatEnds.StopExactly | src/library/printf/printf.c:1042-1150 | and makes the loop return at the terminator if and only if it is any other unfinished directive |
| FormatEnds.DirectiveSplits | src/library/printf/printf.c:1057-1150 | a directive is a text of its own, read the same without what follows it |
| FormatEnds.ContainedExactly | src/library/printf/printf.c:1043-1348 | a format is run past its terminator if and only if it is a complete format, a `%`, and a text of the first kind |
| FormatEnds.WidthRunsOn | src/library/printf/printf.c:1343-1346 | `%5` is run past its terminator |
| FormatEnds.SizeRunsOn | src/library/printf/printf.c:1104-1107 | and so is `%I16` |
| FormatEnds.EarlyReturnExactly | src/library/printf/printf.c:1043-1348 | and left early, at its terminator, if and only if it is a complete format, a `%`, and a text of the second kind |
| FormatTheorems.FormatsCompose | src/library/printf/printf.c:1048-1348 | two formats in one, with both argument lists, come out as the two outputs in a row |
| FormatTheorems.CompleteFormatsCompose | src/library/printf/printf.c:1048-1348 | completeness, and the number of arguments, carry over to the combined format |
| FormatTheorems.AtouReads | src/library/printf/printf.c:420-427 | a run of digits is read as its value modulo 2^32 |
| FormatTheorems.PrintThenRead | src/library/printf/printf.c:420-427 | reading what was printed in base 10 gives the value, modulo 2^32, and stops at the first character that is no digit |
| FormatTheorems.StringWidth | src/library/printf/printf.c:1278-1308 | `%s` emits max(width, min(length, precision)) characters: the start of the string, and blanks on the side asked for |
| FormatTheorems.CharWidth | src/library/printf/printf.c:1258-1276 | `%c` emits max(width, 1) characters: the character and blanks on the side asked for |
| FormatTheorems.DirectiveExactly | src/library/printf/printf.c:1153-1238 | a d, i, u, x, X, o or b directive with any flags, length, width and precision comes out as ISO C says if and only if the cells hold it, it is not a binary zero with a prefix, and it has no negative precision argument where that shows |
| FormatTheorems.DirectiveIsIso | src/library/printf/printf.c:1153-1238 | hence for every argument within the bounds of `PrintIntegerIsIso` |
| FormatTheorems.NegativePrecisionComesOut | src/library/printf/printf.c:1086-1090 | `%.*d` of -1 and 0 comes out empty, where ISO C takes the precision as omitted |
| FormatTheorems.StringExactly | src/library/printf/printf.c:1278-1308 | a `%s` with any flags, width and precision comes out as ISO C says if and only if its precision is no negative argument, or the string is blank and fills no more than its field; and, without a precision, string and width are not both beyond INT_MAX |
| FormatTheorems.NegativeStringComesOut | src/library/printf/printf.c:1294-1298 | `%.*s` of -1 and abc comes out empty, where ISO C takes the precision as omitted |
| FormatTheorems.LongStringComesOut | src/library/printf/printf.c:1284-1304 | 2^31 characters in a field of 2^32 - 1 come out one character too long |
| FormatTheorems.CharIsIso | src/library/printf/printf.c:1258-1276 | `%c` always comes out as ISO C says |
| FormatTheorems.PointerExactly | src/library/printf/printf.c:1310-1319 | `%p` of a pointer comes out as its hexadecimal number in 18 characters, prefixed and filled with zeros, if and only if the cells hold it and, for a right-aligned one, no precision leaves part of the field to fill; so always without a precision |
| FormatTheorems.PointerComesOut | src/library/printf/printf.c:1310-1319 | `%.3p` of 1 comes out in 20 characters, where ISO C asks for 18 |
| FormatTheorems.PointerWidth | src/library/printf/printf.c:1310-1319 | a plain `%p` is 0x and sixteen digits of abcdef, zeros in front |
| FormatTheorems.NullsComeOut | src/library/printf/printf.c:1279-1315 | NULL is (null) or (nil), in its field unless zeros were to fill that |
| FormatTheorems.OthersComeOut | src/library/printf/printf.c:1321-1347 | `%%`, and any character the code does not know, stands for itself |
| FormatMeaning.FormatMeans | src/library/printf/printf.c:1048-1348 | every format written as characters and directives, with the arguments each directive asks for, comes out as the characters and the directives' texts in order; no argument is skipped or read twice |
| FormatMeaning.FormatIsIso | src/library/printf/printf.c:1048-1348 | and as ISO C says, if none of its directives is one of those where `DirectiveExactly`, `StringExactly` or `PointerExactly` finds a difference |
| FormatLoop.ReadNumber | src/library/printf/printf.c:420-427 | the loop reads the number the parser's specification reads, and stops where it stops |
| FormatLoop.ReadFlags | src/library/printf/printf.c:1024-1037 | all flags in front, and nothing else, are read |
| FormatLoop.ReadWidth | src/library/printf/printf.c:1061-1076 | width, direction and argument use as specified, and an early return at the terminator |
| FormatLoop.ReadPrecision | src/library/printf/printf.c:1083-1090 | a precision's value and argument use as specified, and an early return at the terminator |
| FormatLoop.ReadPoint | src/library/printf/printf.c:1078-1091 | a precision is read if and only if there is a point |
| FormatLoop.ReadBits | src/library/printf/printf.c:1096-1118 | the sizes behind I |
| FormatLoop.ReadLength | src/library/printf/printf.c:1093-1150 | the length modifiers, with an early return at the terminator |
| FormatLoop.ReadDirective | src/library/printf/printf.c:1057-1150 | a directive's parts as the grammar reads them, with the arguments of its stars |
| FormatLoop.ReadInteger | src/library/printf/printf.c:1191-1235 | the argument at the width and signedness of the directive |
| FormatLoop.PutInteger | src/library/printf/printf.c:1154-1238 | an integer directive puts the rendering of its conversion |
| FormatLoop.PutChar | src/library/printf/printf.c:1258-1276 | `%c` puts its text |
| FormatLoop.StrNLen | src/library/printf/printf.c:403-408 | the length, or the limit if that is less |
| FormatLoop.PutString | src/library/printf/printf.c:1294-1298 | the string up to the precision |
| FormatLoop.PutText | src/library/printf/printf.c:1284-1304 | `%s` puts its text |
| FormatLoop.PutPointer | src/library/printf/printf.c:1310-1319 | `%p` puts its text, `(nil)` for NULL |
| FormatLoop.PutDirective | src/library/printf/printf.c:1152-1347 | every specifier puts its directive's text |
| FormatLoop.PutParsed | src/library/printf/printf.c:1057-1347 | from behind a `%`, a directive's text is put and the loop moves behind it, or nothing is put and it returns |
| FormatLoop.PutNext | src/library/printf/printf.c:1056-1347 | a directive's turn of the loop puts its piece of the output and leaves the rest to come |
| FormatLoop.PutOne | src/library/printf/printf.c:1048-1348 | one turn of the loop puts one piece of the output and leaves the rest to come |
| FormatLoop.FormatStringLoop | src/library/printf/printf.c:1039-1349 | for every format the loop puts exactly the text of the format and then stands at its terminator, where it ends, or behind it, if and only if the format is not contained |
| FormatLoop.FormatMemory | src/library/printf/printf.c:1039-1349 | behind a terminator it has run past the loop goes on with the strings that follow in memory, puts their texts with the arguments that are left, and ends at the first contained one |
| FormatLoop.ReachedExactly | src/library/printf/printf.c:1043-1348 | a string behind the format is read if and only if the format and all strings before it are not contained |
| Snprintf.Impl | src/library/printf/printf.c:1352-1363 | text, terminator and count, for either kind of gadget |
| Snprintf.Vsnprintf | src/library/printf/printf.c:1373-1377 | the result is the full length whatever the buffer, NULL included; the buffer holds the first min(T, n-1) characters and a terminator and is unchanged behind it |
| Snprintf.Vprintf | src/library/printf/printf.c:1367-1371 | every character goes to the console, in order, and is counted |
| Snprintf.TruncatedReads | src/library/printf/printf.c:342-352 | what a reader finds in the buffer is the longest prefix that leaves room for the terminator; all of it if and only if it is shorter than the buffer; later cells are unchanged |

## Left out

- UART driver, console input, shutdown, start-up code and the demo program around the drivers: device glue; the console is the sequence of characters sent.
- Weak memory and compiler reordering: steps are sequentially consistent, so barriers are no steps of their own.
- A device that violates VirtIO, or answers a well-formed request inside the disk with an error: the handler only prints such a status.
- The exception branch of `handle_trap` and its timer and unknown sources: they print and return, or stop.
- MSI-X, APLIC and IMSIC code: not built.
- Printing inside the drivers: the messages have no effect on the state modelled.
- The model of `virtio_pci_blk_init` starts at a device that has been found; reading `capacity` and the final `plic_enable` appear as the initial state of the step system and in `PlicSetup.Plic.SetUp`.
- Floating point, exponents and `%n` in printf: compiled out.
- Signed overflow in `ABS_FOR_PRINTING(LLONG_MIN)` and in `-w` for a width of INT_MIN: negation is taken to wrap, which gives the magnitude.
- Too few or mistyped arguments for a format: undefined in C, excluded by `FormatText.Supplied`.
- PciCaps.Hw.ReadCaps: only for lists that end, because the code does not return on a cyclic one.
- Snprintf.Impl: only for formats the loop does not run past, because what lies behind the terminator is unknown; `FormatEnds.ContainedExactly` says which those are, and `FormatLoop.FormatMemory` what comes out for a given memory.
- Snprintf.Vsnprintf: as Snprintf.Impl, and the result only for outputs of at most INT_MAX characters, because the count returned is an int.
- Snprintf.Vprintf: as Snprintf.Vsnprintf.
- PciProbe.Pci.Probe: only while the window's end stays below 2^64, and with functions that do not share registers.
- RngDriver.Rng.Read: lengths are not negative, because the descriptor's length is unsigned.
