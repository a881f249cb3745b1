# Virtine clean-up co-processor: a verified model

The repository emulates, in QEMU, a PCI co-processor that restores used virtines to a
snapshot, and drives it from a Linux kernel module. The host writes the addresses of dirty
virtines into a request queue (RQ) and rings a doorbell; a processing thread pops them, copies
the snapshot over each, and inserts them into a completion queue (CQ), raising an MSI after
every batch; the driver's interrupt handler reads the CQ until it gets a zero. This project
models that path and proves what it keeps, for every schedule of the parties involved.

## How it is built

* `Words.dfy` has the unsigned types, the C operators the split registers use, and bytes.
* `RingQueue.dfy` has the ring queue. `Ring` is the value of one queue (slots, HEAD, TAIL) and
  its operations accept every argument, 0 included. `Sound` is the sentinel invariant.
  Class `RingQueue` updates the buffer in place and is proved against the value operations.
* `Device.dfy` has the register map, the device state, every MMIO access and one clean-up pass
  as functions. Class `VirtineFpgaDevice` (`VirtineFpga.dfy`) is the QEMU object: the same state
  in fields, MMIO callbacks, the DMA loop and the clean-up loop, proved against them.
* `Protocol.dfy` is the transition system. Its actions are single steps of the thread, host
  register reads and writes, the signal that ends a doorbell write, spurious wake-ups, guest
  stores and the three shutdown steps. The thread holds the processing lock according to its
  program counter; other critical sections are one step. A disabled action changes nothing, so
  each sequence of actions is a schedule, and `Reachable` ranges over all of them.
* `Conservation.dfy`, `Doorbell.dfy`, `Progress.dfy`, `ZeroAddress.dfy`, `LostAddress.dfy`,
  `CleanMemory.dfy` and `Interrupts.dfy` prove the invariants and run theorems of that system;
  `Reachability.dfy` shows that the states they warn of occur, `RestoredBytes.dfy` which bytes a
  pass leaves in guest memory, and `Registers.dfy` what every register reads.
* `Mmio.dfy`, `CharDevice.dfy` and `DrainLoop.dfy` are the driver's loops, proved for every
  memory-mapped device. `Bus.dfy` makes the running system such a device: before each 32-bit
  access the rest of the system takes an arbitrary turn. `SplitWords.dfy`, `Paths.dfy`,
  `Handler.dfy`, `HandlerBounds.dfy` and `HandlerExact.dfy` prove what the driver then gets.

The queue size is a parameter; the code uses 100. `Sound` is what the code relies on without
checking: slots are zeroed when QEMU allocates the device, and nobody gets a 0 into a queue.

## Where the code falls short

* Nothing rejects an address of 0. `InsertKeepsSoundIff` and `SubmissionKeepsOrderIff` say
  which inserts keep the sentinel invariant. What that means for rung work: a pass, under every
  interleaving, pops all that is queued if and only if no used slot lies behind a free one when
  it starts (`NothingLeftIff`), and of two addresses submitted and rung for, the second is
  forgotten if and only if the first is 0 and there was room for both (`RungWorkForgottenIff`).
  A 0 can also make the RQ lose addresses it has accepted, with no refusal: a submission followed
  by non-zero ones makes an RQ that took no 0 so far lose some if and only if it is a 0, meets an
  empty RQ, and more of them follow than the RQ has slots (`AcceptedAddressesLostIff`, and
  `FreshDeviceLosesFirst` for every fresh device). What was submitted stays accounted for in every case (`NonZeroAddressesAccountedFor`).
  Theorems that need it carry the condition that the RQ took no 0; a 0 it refused is harmless.
* A doorbell write sets its flag and signals without the lock. `RingIsServedIff` says exactly
  which writes lead to a pass under every schedule: all but those whose flag and signal both fall
  between the thread's test and its wait, where every device's thread gets at once
  (`GapIsReachable`). Such a write is made up for by whatever wakes the thread later
  (`LaterWakeServes`).
* The interrupt handler stores into an array as long as one queue and reads until it gets a zero.
  `HandlerCanGetIff` says exactly how many addresses it can get when at most q are submitted
  while it runs, and `HandlerOverrunsIff` when that is more than fits. Nothing keeps a host from
  submitting meanwhile, and with more than one queue's worth of such submissions every running
  device whose RQ took no 0 can overrun the array. Without any, a handler entered during the drain
  that raised the interrupt fits (`HandlerDuringDrainFits`), and so does one entered with one
  queue's worth outstanding (`OutstandingFitsHandler`); with a full CQ and one address more it
  need not (`OverrunIsReachable`).
* Rewriting the batch factor can put the counter out of step (`BatchWriteKeepsSteadyIff`): the next
  interrupt then announces more than a batch, or fewer if it was about to be raised when the
  factor was raised (`FirstAnnouncesIff`). Both occur (`OutOfStepIsReachable`). From that
  interrupt on the accounts are in step again.
* `reset_queue_pointers` clears no slot; `ResetKeepsSoundIff` says when that is harmless.
* The comments on `next_element` and `peek_previous_element` promise NULL for a position
  outside the queue. The code overwrites that result, and the model follows the code
  (`NextElementStaysWithin`).
* The driver's header calls the batch factor a design-time constant (fpga-char/fpga_char_main.h:20-23)
  while an ioctl rewrites it. Interrupt accounting is proved for both.

## Model

| member | source | states |
|---|---|---|
| RingQueue.NextElementStaysWithin | qemu-fpga-char/virtine_fpga.c:573-624 | moving a position inside the buffer stays inside and is undone by the previous-element step; outside positions are moved too, and only base-1 comes in |
| RingQueue.MeetingPointersDecide | qemu-fpga-char/virtine_fpga.c:633-660 | under the sentinel invariant, HEAD = TAIL means all slots free or all used, so the one-slot tests of pop and insert decide empty and full exactly |
| RingQueue.PopIsFifo | qemu-fpga-char/virtine_fpga.c:629-644 | on a sound queue pop returns and removes the oldest element, or returns 0 and changes nothing exactly when empty |
| RingQueue.InsertIsFifo | qemu-fpga-char/virtine_fpga.c:650-667 | on a sound queue a non-zero insert appends exactly when there is room and changes nothing when full |
| RingQueue.InsertKeepsSoundIff | qemu-fpga-char/virtine_fpga.c:658-664 | an insert keeps the sentinel invariant if and only if the value is non-zero or it is refused (or there is a single slot) |
| RingQueue.SoundNeverDisplaces | qemu-fpga-char/virtine_fpga.c:658-662 | on a sound queue no accepted insert overwrites a used slot |
| RingQueue.ResetKeepsSoundIff | qemu-fpga-char/virtine_fpga.c:547-553 | resetting the pointers of a sound queue leaves a sound queue if and only if it was empty or full |
| RingQueue.ResetGoesToBase | qemu-fpga-char/virtine_fpga.c:547-553 | both pointers go to the base: after a reset a full queue lists its slots from the first on, and an empty one takes its next element there |
| RingQueue.ReturnedTailTells | qemu-fpga-char/virtine_fpga.c:646-667 | the returned TAIL has moved exactly when a slot was free, for two or more slots |
| RingQueue.RingRefinesFifo | qemu-fpga-char/virtine_fpga.c:629-667 | over every sequence of pops and non-zero inserts the ring and a bounded FIFO show the same results and end with the same contents |
| RingQueue.RingQueue.constructor | qemu-fpga-char/virtine_fpga.c:421-424 | a fresh queue is the empty ring of n zeroed slots |
| RingQueue.RingQueue.ResetQueuePointers | qemu-fpga-char/virtine_fpga.c:547-553 | only the pointers move, whatever the slots hold |
| RingQueue.RingQueue.PopHead | qemu-fpga-char/virtine_fpga.c:629-644 | in place, for every state, and on sound queues the FIFO effect |
| RingQueue.RingQueue.InsertTail | qemu-fpga-char/virtine_fpga.c:650-667 | in place, for every state and value, and on sound queues the FIFO effect |
| Device.PassDrains | qemu-fpga-char/virtine_fpga.c:348-393 | a pass ends with the RQ empty, every waiting address restored (RestoredBytes says with which bytes) and counted once in order, the CQ extended by the longest prefix that fits, and nothing else changed |
| RestoredBytes.PassRestoresByte | qemu-fpga-char/virtine_fpga.c:355-361 | whatever regions wait: byte j of guest memory ends up as the byte that the last waiting virtine covering j has there, which is the emulator's byte that far behind the snapshot address, 0 past its end |
| RestoredBytes.PassRestoresRegion | qemu-fpga-char/virtine_fpga.c:355-361 | if the waiting regions are the same or apart, byte i of each of them ends up as the emulator's byte i behind the snapshot address |
| RestoredBytes.PassLeavesByte | qemu-fpga-char/virtine_fpga.c:355-361 | a byte that no waiting virtine covers is the same after a pass |
| RestoredBytes.FreshDeviceRestoresEightBytes | qemu-fpga-char/virtine_fpga.c:438-441 | with nothing configured, the pass over one virtine replaces its first eight bytes by the eight at the clean state, changes no other, completes it and raises one interrupt for it |
| VirtineFpga.VirtineFpgaDevice.Realize | qemu-fpga-char/virtine_fpga.c:421-441 | the initial device state |
| Registers.FreshRegisters | qemu-fpga-char/virtine_fpga.c:421-441 | what every register of a fresh device reads: batch factor 1, snapshot size 8 and the clean state's address, the number of entries, and 0 elsewhere |
| Registers.FreshAssembled | qemu-fpga-char/virtine_fpga.c:232-251 | a first write of an upper half alone assembles that half over zeros |
| VirtineFpga.VirtineFpgaDevice.MmioRead | qemu-fpga-char/virtine_fpga.c:129-221 | value and effect of a read at any address; only the CQ_HEAD pair has an effect |
| Registers.RegisterMap | qemu-fpga-char/virtine_fpga.c:38-53 | which register is at which byte address, for every queue size |
| Registers.InertAccesses | qemu-fpga-char/virtine_fpga.c:141-217 | a read of anything but the CQ_HEAD pair and a write to a register without effect change nothing, and where nothing is read the answer is all ones |
| Registers.BatchReadsBack | qemu-fpga-char/virtine_fpga.c:191-194 | the batch factor reads back modulo 2^32 over every run that does not rewrite it |
| Registers.SnapshotReadsBack | qemu-fpga-char/virtine_fpga.c:203-213 | size and address written in one 64-bit access each read back in full over every run that does not rewrite them |
| Registers.UpperHalfBits | qemu-fpga-char/virtine_fpga.c:248-251 | bit by bit, for all 64-bit values: an upper-half write of RQ_TAIL or of the snapshot address has the bits held before and those of the low word written, shifted up |
| Registers.MaxNumVirtinesReads | fpga-char/chardev.c:290-295 | the driver reads the number of entries modulo 2^32, whatever happens before |
| Registers.DoorbellReadsOne | qemu-fpga-char/virtine_fpga.c:195-198 | over every run, the doorbell reads 1 from a doorbell write until a pass begins |
| Registers.DoorbellReadsZero | qemu-fpga-char/virtine_fpga.c:348-349 | and 0 from the beginning of a pass until the next doorbell write |
| Registers.DoorbellReadsZeroAtFirst | qemu-fpga-char/virtine_fpga.c:426 | and 0 from power-up until the first one |
| Registers.ProcessingReads | qemu-fpga-char/virtine_fpga.c:187-190 | is_card_processing reads 1 after the start of a pass, 0 after a completion, and otherwise what it read before |
| Registers.ProcessingAfterPass | qemu-fpga-char/virtine_fpga.c:348-393 | so it reads 1 after a pass that found nothing and 0 after any other |
| Registers.QueueRegisters | qemu-fpga-char/virtine_fpga.c:151-186 | with sound queues the HEAD registers show the oldest element or 0, CQ_TAIL a free slot unless the CQ is full, CQ_BASE what is in the first slot |
| Registers.RqHeadFetched | fpga-char/chardev.c:196-206 | an undisturbed 8-byte read at RQ_HEAD gives the oldest entry of the RQ, or 0 |
| VirtineFpga.VirtineFpgaDevice.MmioWrite | qemu-fpga-char/virtine_fpga.c:226-309 | effect of a write at any address, the ignored ones included |
| VirtineFpga.VirtineFpgaDevice.PciDmaWrite | qemu-fpga-char/virtine_fpga.c:358-361 | exactly the bytes of the target region change: byte i of it becomes the byte i behind the snapshot address |
| VirtineFpga.VirtineFpgaDevice.CleanVirtine | qemu-fpga-char/virtine_fpga.c:355-390 | one iteration: restore, count, complete, and an interrupt when the batch is reached |
| VirtineFpga.VirtineFpgaDevice.CleanupPass | qemu-fpga-char/virtine_fpga.c:348-393 | the loop ends for every RQ content and computes the pass of which PassDrains speaks |
| Conservation.EveryAddressAccountedFor | qemu-fpga-char/virtine_fpga.c:354-392 | in every reachable state in which the RQ has taken no 0, submitted addresses are, as a multiset, those reaped, in the CQ, in flight, in the RQ or refused by a queue, and the first four in a row are an in-order subsequence of the submitted ones |
| Conservation.NonZeroAddressesAccountedFor | qemu-fpga-char/virtine_fpga.c:354-392 | in every reachable state, whatever zeros the RQ took: the non-zero submitted addresses are, as a multiset, those reaped, in the CQ, in flight, in used RQ slots, refused by a queue or overwritten in the RQ |
| Conservation.CqRefusesExactlyWhenFull | qemu-fpga-char/virtine_fpga.c:367-370 | a cleaned virtine is discarded exactly by an insert that meets a CQ with every slot in use |
| Conservation.RqRefusesExactlyWhenFull | qemu-fpga-char/virtine_fpga.c:254-256 | as long as the RQ took no 0, a submission is discarded exactly when it meets an RQ with every slot in use |
| Conservation.FifoExactlyOnce | qemu-fpga-char/virtine_fpga.c:248-257 | with at most one queue's worth outstanding along the run and no 0 taken by the RQ, nothing is refused, and reaped followed by outstanding equals submitted |
| Doorbell.PassesArePaidFor | qemu-fpga-char/virtine_fpga.c:332-354 | passes never exceed doorbell writes, spurious wake-ups included, and entries leave the RQ only inside a pass |
| Doorbell.NoRungWorkForgotten | qemu-fpga-char/virtine_fpga.c:332-355 | as long as the RQ took no 0: while it holds an address inserted before a doorbell write, the doorbell is set or the thread is in its drain (what a 0 changes is the matter of the ZeroAddress rows) |
| ZeroAddress.PassEmptiesIff | qemu-fpga-char/virtine_fpga.c:354-392 | for every device, whatever its queues hold, a pass leaves the RQ without a used slot if and only if no used slot lies behind a free one in the order from HEAD |
| ZeroAddress.NothingLeftIff | qemu-fpga-char/virtine_fpga.c:332-393 | the same for the thread's steps under every interleaving, from the start of the pass to the release of the lock |
| ZeroAddress.RungWorkForgottenIff | qemu-fpga-char/virtine_fpga.c:248-257 | v and then x != 0 are submitted to an RQ that took no 0 so far, and rung for: the pass ends with x queued and the doorbell clear if and only if v is 0 and there was room for both |
| ZeroAddress.ZeroHidesRungWork | qemu-fpga-char/virtine_fpga.c:354-355 | so on every fresh device the run that submits 0 and x and rings ends with x still queued, the doorbell clear and the thread back at its lock |
| ZeroAddress.SubmissionKeepsOrderIff | qemu-fpga-char/virtine_fpga.c:248-257 | a submission to an RQ that took no 0 so far keeps the sentinel invariant if and only if the assembled address is non-zero or the RQ is full |
| LostAddress.DisplacedExactly | qemu-fpga-char/virtine_fpga.c:650-667 | of a run of inserts v, xs (xs non-zero) into a sound queue of any size n, exactly the first min(len(xs) - n, n - 1) of xs are overwritten if v is 0, the queue is empty and len(xs) > n, and nothing otherwise |
| LostAddress.AcceptedAddressesLostIff | qemu-fpga-char/virtine_fpga.c:248-257 | the same for submissions from every reachable state with the lock free whose RQ took no 0: accepted addresses are overwritten if and only if the first submission is 0, meets an empty RQ of two or more slots, and more addresses than it has slots follow; for up to 2n - 1 of them none is refused |
| LostAddress.FreshDeviceLosesFirst | qemu-fpga-char/virtine_fpga.c:650-667 | on every fresh device with n >= 2 slots, 0 and then n + 1 addresses are all accepted, none refused, and the first of them is overwritten |
| Progress.LockHoldIsBounded | qemu-fpga-char/virtine_fpga.c:332-393 | whatever others do and whatever the RQ holds, the thread releases the lock within a bound linear in the used RQ slots |
| Progress.UninterruptedPassIsPass | qemu-fpga-char/virtine_fpga.c:348-393 | the thread's single steps, left alone, compute exactly the pass of the device object |
| Progress.RingIsServedIff | qemu-fpga-char/virtine_fpga.c:274-280 | whatever anyone does between the flag of a doorbell write and its signal, short of shutdown: after the signal every schedule without shutdown and with a bounded number of the thread's steps leads to a pass if and only if flag and signal do not both fall between the test at 335 and the wait at 336; if they do, the thread left alone never begins another pass |
| Progress.LaterWakeServes | qemu-fpga-char/virtine_fpga.c:335-337 | a thread asleep on a set doorbell is brought to a pass, under every schedule without shutdown, by the next signal or spurious wake-up |
| Progress.GapIsReachable | qemu-fpga-char/virtine_fpga.c:332-336 | the thread of every device is between that test and that wait after its first two steps |
| Progress.StoppedStaysQuiet | qemu-fpga-char/virtine_fpga.c:482-485 | once stopping is set, no pop, DMA, completion, pass or interrupt under any schedule; guest memory changes only by the guest's stores |
| Progress.ThreadExits | qemu-fpga-char/virtine_fpga.c:487-488 | after the shutdown signal the thread exits within three of its steps under every schedule, and the join then succeeds |
| Progress.ShutdownCompletes | qemu-fpga-char/virtine_fpga.c:482-488 | from every state of a running device, a bounded number of thread steps frees the lock and the shutdown sequence ends joined |
| CleanMemory.OnlySubmittedRegionsChange | qemu-fpga-char/virtine_fpga.c:358-361 | a byte of guest memory changes only by the guest's own store or, by the thread, inside a submitted region |
| CleanMemory.CleanBeforeComplete | qemu-fpga-char/virtine_fpga.c:354-367 | with a disciplined host every address in the CQ, and the one being reaped, names memory equal to the snapshot, for every interleaving |
| CleanMemory.ReportedBytes | qemu-fpga-char/virtine_fpga.c:354-367 | byte by byte: under the same discipline byte i of a region in the CQ, or just reaped, is the emulator's byte i behind the snapshot address, 0 past its end |
| Interrupts.InterruptsAccountForAll | qemu-fpga-char/virtine_fpga.c:363-390 | whatever is written to the batch factor: announced plus counted equals cleaned, the 32-bit counter never wraps, and the CQ is non-empty at every interrupt |
| Interrupts.ConstantBatchAccounting | qemu-fpga-char/virtine_fpga.c:378-390 | from every reachable state, while the batch factor b is constant: every interrupt after the first announces max(b, 1), the first announces that if and only if the counter was in step at the start, fewer if and only if it was about to be raised for fewer, and more otherwise; cleaned is what was announced plus the change of the counter, and after an interrupt the counter is below max(b, 1) outside an iteration |
| Reachability.OutOfStepIsReachable | qemu-fpga-char/virtine_fpga.c:270-273 | every device reaches a state with the counter ahead of a lowered batch factor, and one about to announce fewer than a raised one |
| Interrupts.SteadyBatchAccounting | qemu-fpga-char/virtine_fpga.c:378-390 | with the counter in step at the start, cleaned = interrupts * max(b, 1) + change of the counter, and the counter is below max(b, 1) outside an iteration |
| Interrupts.BatchWriteKeepsSteadyIff | qemu-fpga-char/virtine_fpga.c:270-273 | a rewrite of the batch factor leaves the counter in step exactly when what is counted so far fits the new batch (one less outside an iteration, equal at an interrupt) |
| Interrupts.BatchSetAtOnce | qemu-fpga-char/virtine_fpga.c:270-273 | with a batch factor b set first of all and left alone, cleaned = interrupts * max(b, 1) + counter over every run from power-up |
| SplitWords.WrittenHalvesSubmit | qemu-fpga-char/virtine_fpga.c:244-257 | an address written in two halves is submitted as itself, whatever happens in between but another write to the pair |
| SplitWords.ReadHalvesJoin | qemu-fpga-char/virtine_fpga.c:169-179 | two words read from CQ_HEAD make up the popped address, whatever happens in between but another read of the pair |
| SplitWords.WrittenHalvesConfigure | qemu-fpga-char/virtine_fpga.c:288-297 | the snapshot address takes a full 64-bit value whatever it held before |
| Mmio.PlainMemoryRoundTrip | fpga-char/chardev.c:196-206 | over plain word memory, reading back what was written gives the same bytes |
| Mmio.WritesAscend | fpga-char/chardev.c:259-269 | on every device a write of any length is one access per word at ascending addresses, and nothing else |
| Mmio.ReadsAscend | fpga-char/chardev.c:196-206 | so is a read, and word i is the value that its access finds |
| Mmio.WritesRecorded | fpga-char/chardev.c:259-269 | the list of accesses that a recording device sees for a write |
| Mmio.ReadsRecorded | fpga-char/chardev.c:196-206 | and for a read |
| Words.WordBytesAscend | fpga-char/chardev.c:204 | byte k of a word in memory is its k-th digit to the base 256 |
| Words.OrBitByBit | qemu-fpga-char/virtine_fpga.c:251 | a bit of an OR is set exactly when it is set in one of the operands or in both |
| CharDevice.FpgaCharRead | fpga-char/chardev.c:182-209 | for every device: ceil(length/4) ascending word reads, their bytes in the buffer, nothing for a misaligned offset |
| CharDevice.FpgaCharWrite | fpga-char/chardev.c:243-277 | for every device: ceil(length/4) ascending word writes of the user's bytes, nothing for a misaligned offset |
| CharDevice.FpgaCharIoctl | fpga-char/chardev.c:279-320 | the exact list of register accesses and the return value of each command, on every device |
| CharDevice.SnapshotRecorded | fpga-char/chardev.c:303-315 | SET_SNAPSHOT makes exactly four accesses: the two words of the size, then the two of the address |
| Paths.SubmittedThroughDriver | fpga-char/chardev.c:259-269 | an 8-byte write at RQ_TAIL submits exactly that address once, with arbitrary turns of the system before and between the halves |
| Paths.FetchedThroughDriver | fpga-char/chardev.c:196-206 | an 8-byte read at CQ_HEAD pops one address and returns exactly it |
| Paths.FetchChangesNothingElse | qemu-fpga-char/virtine_fpga.c:169-179 | undisturbed, that read pops the CQ, clears the kept upper half and changes nothing else |
| Paths.ConfiguredThroughDriver | fpga-char/chardev.c:303-315 | after SET_SNAPSHOT the device holds the full address and the size modulo 2^32 |
| Paths.ConfigurationChangesNothingElse | fpga-char/chardev.c:303-315 | undisturbed, SET_SNAPSHOT leaves the whole system as it was but for the snapshot size and address |
| Paths.SizeReadsBack | qemu-fpga-char/virtine_fpga.c:203-206 | the size register then reads the size modulo 2^32, with arbitrary turns in between that leave the snapshot registers alone |
| Paths.ConfigurationReadsBack | fpga-char/chardev.c:196-206 | an 8-byte read of the snapshot address pair gives the configured address |
| DrainLoop.FetchCleanVirtines | fpga-char/fpga_char_main.c:207-237 | the handler's loop ends on every device that runs dry, stores what it fetched in order, and overruns its array exactly when it fetched more than fits; what it fetches is the Drained of DrainIsBounded |
| DrainLoop.DrainIsBounded | fpga-char/fpga_char_main.c:223-234 | the loop's values are at most as many as the device had left, none is zero, and they are exactly what the device gave away |
| Handler.DeviceRunsDry | fpga-char/fpga_char_main.c:223-234 | the virtine device runs dry beside anything but a second reader of the CQ, submissions and 0 included |
| Handler.HandlerIsBounded | fpga-char/fpga_char_main.c:211-234 | beside a live thread and a host that may go on submitting, the handler gets the next addresses in completion order: at most as many as there were used RQ slots, in-flight and CQ addresses at entry, plus the submissions made while it runs |
| Handler.FetchableIsOutstanding | fpga-char/fpga_char_main.c:211-224 | if the RQ took no 0, those at entry are exactly RQ, in-flight and CQ together |
| Handler.OutstandingFitsHandler | fpga-char/fpga_char_main.c:211-224 | after a run with at most one queue's worth outstanding, the handler gets at most one queue's worth plus what is submitted while it runs |
| HandlerBounds.IdleHandlerGetsCq | fpga-char/fpga_char_main.c:211-234 | with the thread idle the handler gets exactly the CQ and leaves it empty, submissions meanwhile or not |
| HandlerBounds.HandlerDuringDrainFits | fpga-char/fpga_char_main.c:211-234 | entered while the thread is on its way through a drain, as at the interrupt itself, and with the RQ sound, the handler gets at most one queue's worth plus what is submitted while it runs, however much is outstanding |
| HandlerExact.HandlerCanGetIff | fpga-char/fpga_char_main.c:211-234 | with the handler as the only reader, an RQ that took no 0 and at most q submissions while it runs, some schedule makes it get m addresses if and only if m is at most its yield plus q; the yield is everything outstanding, or one queue of it when a drain comes first |
| HandlerExact.HandlerOverrunsIff | fpga-char/fpga_char_main.c:211-234 | so some schedule with at most q submissions makes it store past its array if and only if yield + q exceeds one queue: without submissions if and only if the two queues hold more and no drain comes first, with more than one queue of them from every running state (again with no 0 taken by the RQ) |
| Reachability.EveryLoadIsReachable | qemu-fpga-char/virtine_fpga.c:244-257 | every number of addresses in the CQ and the RQ up to their size occurs in a running device with the lock free |
| HandlerExact.OverrunIsReachable | fpga-char/fpga_char_main.c:211-234 | a device of any size reaches a state, CQ full and one address in the RQ, in which the handler can store past its array with no submission meanwhile |

## Left out

- QEMU's iothread lock: the thread takes it while holding the processing lock (qemu-fpga-char/virtine_fpga.c:380), and its use around MMIO callbacks is not part of this model, so no freedom from deadlock of the whole emulator is claimed; the MSI is one event.
- Two MMIO writes racing on the upper half of RQ_TAIL: assembling, locking and inserting is one step here.
- Fairness: how long a thread asleep on a set doorbell waits for the next signal or wake-up is the environment's matter; what follows one is proved (LaterWakeServes).
- The outer endless loop of the processing thread as a method: it exists as the thread's steps in the transition system; the class has one critical section.
- `is_card_processing` as a status: what it reads is proved (Registers.ProcessingReads), but it does not say whether a pass is going on, because the code clears it after the first virtine and leaves it set after an empty pass.
- Bus errors: DMA is an ideal byte copy, the snapshot is read from emulator memory that reads 0 beyond its end, and a target outside guest memory is dropped.
- `copy_from_user` and `copy_to_user` failures, and user reads longer than 8 bytes, which the driver stages in one local word.
- Device set-up and removal in the kernel (`fpga_probe`, `fpga_remove`, character-device creation, open and release), PCI configuration, QOM registration and printing.
- CharDevice.FpgaCharRead: asks for a buffer with room for the length rounded up to whole words, as the copy of whole words in the source does.
- Device.PassDrains: asks for a counter below 2^32 - 1, which InterruptsAccountForAll shows for every reachable state.
- The sample drivers, test programs and build files of the repository.
