/** The QEMU device object: the state of module Device held in fields, two ring queues and
    guest memory, and updated in place by the MMIO callbacks and the clean-up pass. */
module VirtineFpga {
  import opened Words
  import opened RingQueue
  import opened Device

  class VirtineFpgaDevice {
    const rq: RingQueue
    const cq: RingQueue
    const mem: array<u8>
    const emulator: seq<u8>
    var doorbell: bool
    var isCardProcessing: bool
    var stopping: bool
    var batchFactor: u32
    var numVirtinesCleanedAlready: u32
    var snapshotSize: u64
    var snapshotAddr: u64
    var splitReturn: u64
    var splitWrite: u64
    var msis: seq<nat>

    ghost function Repr(): set<object> {
      {this, rq, cq, rq.buffer, cq.buffer, mem}
    }

    ghost predicate Valid()
      reads Repr()
    {
      && rq != cq && rq.buffer != cq.buffer
      && mem as object !in {rq.buffer as object, cq.buffer as object}
      && rq.Valid() && cq.Valid()
      && rq.buffer.Length == cq.buffer.Length
    }

    ghost function State(): Device
      reads Repr()
      requires Valid()
    {
      Device(rq.State(), cq.State(), doorbell, isCardProcessing, stopping,
             batchFactor, numVirtinesCleanedAlready, snapshotSize, snapshotAddr,
             splitReturn, splitWrite, mem[..], emulator, msis)
    }

    /** The device as it is realized, over the guest memory given and with queues of n entries. */
    constructor Realize(n: nat, mem: array<u8>, emulator: seq<u8>, cleanState: u64)
      requires n > 0
      ensures Valid() && fresh(Repr() - {mem}) && this.mem == mem
      ensures State() == Realized(n, mem[..], emulator, cleanState)
    {
      rq := new RingQueue(n);
      cq := new RingQueue(n);
      this.mem, this.emulator := mem, emulator;
      doorbell, isCardProcessing, stopping := false, false, false;
      batchFactor, numVirtinesCleanedAlready := 1, 0;
      snapshotSize, snapshotAddr := 8, cleanState;
      splitReturn, splitWrite, msis := 0, 0, [];
    }

    method MmioRead(addr: nat) returns (val: u64)
      requires Valid()
      modifies Repr()
      ensures Valid()
      ensures val == ReadValue(old(State()), Decode(rq.buffer.Length, addr))
      ensures State() == AfterRead(old(State()), Decode(rq.buffer.Length, addr))
    {
      var n := rq.buffer.Length;
      val := ALL_ONES;
      if addr == RQ_HEAD_OFFSET_REG {
        val := rq.buffer[rq.head];
      } else if addr == RQ_HEAD_OFFSET_REG + 4 {
        val := Shr32(rq.buffer[rq.head]);
      } else if addr == CqBaseAddr(n) {
        val := cq.buffer[0];
      } else if addr == CqBaseAddr(n) + 4 {
        val := Shr32(cq.buffer[0]);
      } else if addr == CqHeadOffsetReg(n) {
        splitReturn := cq.PopHead();
        val := splitReturn;
      } else if addr == CqHeadOffsetReg(n) + 4 {
        val := Shr32(splitReturn);
        splitReturn := 0;
      } else if addr == CqTailOffsetReg(n) {
        val := cq.buffer[cq.tail];
      } else if addr == CqTailOffsetReg(n) + 4 {
        val := Shr32(cq.buffer[cq.tail]);
      } else if addr == IsProcessingReg(n) {
        val := Flag(isCardProcessing);
      } else if addr == BatchFactorReg(n) {
        val := batchFactor;
      } else if addr == DoorbellReg(n) {
        val := Flag(doorbell);
      } else if addr == MaxNumVirtinesReg(n) {
        val := n % TWO64;
      } else if addr == SnapshotSizeReg(n) {
        val := snapshotSize;
      } else if addr == SnapshotAddrReg(n) {
        val := snapshotAddr;
      } else if addr == SnapshotAddrReg(n) + 4 {
        val := Shr32(snapshotAddr);
      }
    }

    /** The upper half of an address: it is put together and offered to the RQ. */
    method InsertAssembled(val: u64)
      requires Valid()
      modifies this`splitWrite, rq, rq.buffer
      ensures Valid() && State() == AfterWrite(old(State()), RqTailHi, val)
    {
      splitWrite := Or64(Shl32(val), splitWrite);
      var _ := rq.InsertTail(splitWrite);
    }

    /** An MMIO write. Signalling the condition variable is not device state: the protocol has a step for it. */
    method MmioWrite(addr: nat, val: u64)
      requires Valid()
      modifies Repr()
      ensures Valid() && State() == AfterWrite(old(State()), Decode(rq.buffer.Length, addr), val)
    {
      var n := rq.buffer.Length;
      if addr == RQ_TAIL_OFFSET_REG {
        splitWrite := val;
      } else if addr == RQ_TAIL_OFFSET_REG + 4 {
        InsertAssembled(val);
      } else if addr == BatchFactorReg(n) {
        batchFactor := Low32(val);
      } else if addr == DoorbellReg(n) {
        doorbell := true;
      } else if addr == SnapshotSizeReg(n) {
        snapshotSize := val;
      } else if addr == SnapshotAddrReg(n) {
        snapshotAddr := val;
      } else if addr == SnapshotAddrReg(n) + 4 {
        snapshotAddr := Or64(Shl32(val), snapshotAddr);
      }
    }

    /** The DMA of the snapshot over one virtine. */
    method PciDmaWrite(addr: u64)
      requires Valid()
      modifies mem
      ensures Valid() && State() == old(State()).(mem := Dma(old(mem[..]), addr, Snapshot(old(State()))))
      ensures forall k :: 0 <= k < mem.Length ==>
        mem[k] == if !(addr <= k < addr + snapshotSize) then old(mem[k])
                  else if snapshotAddr + (k - addr) < |emulator| then emulator[snapshotAddr + (k - addr)] else 0
    {
      ghost var before, data := mem[..], Snapshot(State());
      var i := 0;
      while i < snapshotSize && addr + i < mem.Length
        invariant 0 <= i <= snapshotSize
        invariant Valid() && State() == old(State()).(mem := mem[..])
        invariant forall k :: 0 <= k < mem.Length ==>
          mem[k] == if addr <= k < addr + i then data[k - addr] else before[k]
      {
        mem[addr + i] := if snapshotAddr + i < |emulator| then emulator[snapshotAddr + i] else 0;
        i := i + 1;
      }
      assert mem[..] == Dma(before, addr, data);
    }

    /** The body of the clean-up loop for an address popped from the RQ. */
    method CleanVirtine(virtineToClean: u64)
      requires Valid()
      modifies this, mem, cq, cq.buffer
      ensures Valid() && State() == CleanOne(old(State()), virtineToClean)
    {
      PciDmaWrite(virtineToClean);
      numVirtinesCleanedAlready := (numVirtinesCleanedAlready + 1) % TWO32;
      var _ := cq.InsertTail(virtineToClean);
      isCardProcessing := false;
      if numVirtinesCleanedAlready >= batchFactor {
        msis := msis + [numVirtinesCleanedAlready];
        numVirtinesCleanedAlready := 0;
      }
    }

    /** The processing thread's critical section from the moment it has found the doorbell rung. */
    method CleanupPass()
      requires Valid()
      modifies Repr()
      ensures Valid() && State() == Pass(old(State()))
    {
      ghost var goal := Pass(State());
      isCardProcessing := true;
      doorbell := false;
      var virtineToClean := rq.PopHead();
      while virtineToClean != 0
        invariant Valid()
        invariant CleanFrom(State(), virtineToClean) == goal
        decreases Used(rq.State().buffer), virtineToClean
      {
        CleanVirtine(virtineToClean);
        UsedAfterPop(rq.State());
        virtineToClean := rq.PopHead();
      }
    }
  }
}
