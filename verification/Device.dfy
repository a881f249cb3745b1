/** The clean-up co-processor as one device: its registers, what each MMIO access does to
    them, and one clean-up pass of the processing thread. Device is the value of the whole
    device; class VirtineFpga updates the same state in place. */
module Device {
  import opened Words
  import opened RingQueue

  // ----- The register map, for queues of n entries -----

  datatype Reg =
    | RqHead | RqHeadHi | RqTail | RqTailHi | RqBase | RqBaseHi
    | Doorbell | IsProcessing
    | CqHead | CqHeadHi | CqTail | CqTailHi | CqBase | CqBaseHi
    | BatchFactor | MaxNumVirtines | SnapshotSize | SnapshotAddr | SnapshotAddrHi
    | Unmapped

  const RQ_HEAD_OFFSET_REG: nat := 0
  const RQ_TAIL_OFFSET_REG: nat := RQ_HEAD_OFFSET_REG + 8
  const RQ_BASE_ADDR: nat := RQ_TAIL_OFFSET_REG + 8

  function DoorbellReg(n: nat): nat { RQ_BASE_ADDR + 8 * n }
  function IsProcessingReg(n: nat): nat { DoorbellReg(n) + 8 }
  function CqHeadOffsetReg(n: nat): nat { IsProcessingReg(n) + 8 }
  function CqTailOffsetReg(n: nat): nat { CqHeadOffsetReg(n) + 8 }
  function CqBaseAddr(n: nat): nat { CqTailOffsetReg(n) + 8 }
  function BatchFactorReg(n: nat): nat { CqBaseAddr(n) + 8 * n }
  function MaxNumVirtinesReg(n: nat): nat { BatchFactorReg(n) + 8 }
  function SnapshotSizeReg(n: nat): nat { MaxNumVirtinesReg(n) + 8 }
  function SnapshotAddrReg(n: nat): nat { SnapshotSizeReg(n) + 8 }

  function AddressOf(n: nat, r: Reg): nat
    requires r != Unmapped
  {
    match r
    case RqHead => RQ_HEAD_OFFSET_REG
    case RqHeadHi => RQ_HEAD_OFFSET_REG + 4
    case RqTail => RQ_TAIL_OFFSET_REG
    case RqTailHi => RQ_TAIL_OFFSET_REG + 4
    case RqBase => RQ_BASE_ADDR
    case RqBaseHi => RQ_BASE_ADDR + 4
    case Doorbell => DoorbellReg(n)
    case IsProcessing => IsProcessingReg(n)
    case CqHead => CqHeadOffsetReg(n)
    case CqHeadHi => CqHeadOffsetReg(n) + 4
    case CqTail => CqTailOffsetReg(n)
    case CqTailHi => CqTailOffsetReg(n) + 4
    case CqBase => CqBaseAddr(n)
    case CqBaseHi => CqBaseAddr(n) + 4
    case BatchFactor => BatchFactorReg(n)
    case MaxNumVirtines => MaxNumVirtinesReg(n)
    case SnapshotSize => SnapshotSizeReg(n)
    case SnapshotAddr => SnapshotAddrReg(n)
    case SnapshotAddrHi => SnapshotAddrReg(n) + 4
  }

  /** The register an MMIO address selects. */
  function Decode(n: nat, addr: nat): Reg {
    if addr == RQ_HEAD_OFFSET_REG then RqHead
    else if addr == RQ_HEAD_OFFSET_REG + 4 then RqHeadHi
    else if addr == RQ_TAIL_OFFSET_REG then RqTail
    else if addr == RQ_TAIL_OFFSET_REG + 4 then RqTailHi
    else if addr == RQ_BASE_ADDR then RqBase
    else if addr == RQ_BASE_ADDR + 4 then RqBaseHi
    else if addr == DoorbellReg(n) then Doorbell
    else if addr == IsProcessingReg(n) then IsProcessing
    else if addr == CqHeadOffsetReg(n) then CqHead
    else if addr == CqHeadOffsetReg(n) + 4 then CqHeadHi
    else if addr == CqTailOffsetReg(n) then CqTail
    else if addr == CqTailOffsetReg(n) + 4 then CqTailHi
    else if addr == CqBaseAddr(n) then CqBase
    else if addr == CqBaseAddr(n) + 4 then CqBaseHi
    else if addr == BatchFactorReg(n) then BatchFactor
    else if addr == MaxNumVirtinesReg(n) then MaxNumVirtines
    else if addr == SnapshotSizeReg(n) then SnapshotSize
    else if addr == SnapshotAddrReg(n) then SnapshotAddr
    else if addr == SnapshotAddrReg(n) + 4 then SnapshotAddrHi
    else Unmapped
  }

  /** No two registers share an address, whatever the queue size. */
  lemma DecodeInvertsAddressOf(n: nat, r: Reg, addr: nat)
    requires n > 0
    ensures r != Unmapped ==> Decode(n, AddressOf(n, r)) == r
    ensures Decode(n, addr) != Unmapped ==> AddressOf(n, Decode(n, addr)) == addr
  {
  }

  // ----- The device state -----

  /** mem is guest memory as DMA sees it, emulator the memory the snapshot is read from,
      and msis the interrupts raised so far, each with the number of virtines it announced. */
  datatype Device = Device(
    rq: Ring, cq: Ring,
    doorbell: bool, processing: bool, stopping: bool,
    batch: u32, counter: u32,
    snapSize: u64, snapAddr: u64,
    splitReturn: u64, splitWrite: u64,
    mem: seq<u8>, emulator: seq<u8>, msis: seq<nat>)

  /** The state in which virtine_fpga_realize leaves a zero-initialised device. */
  function Realized(n: nat, mem: seq<u8>, emulator: seq<u8>, cleanState: u64): Device
    requires n > 0
  {
    Device(EmptyRing(n), EmptyRing(n), false, false, false, 1, 0, 8, cleanState, 0, 0, mem, emulator, [])
  }

  function Flag(b: bool): u64 {
    if b then 1 else 0
  }

  /** The value an MMIO read of register r yields. */
  function ReadValue(d: Device, r: Reg): u64 {
    match r
    case RqHead => d.rq.buffer[d.rq.head]
    case RqHeadHi => Shr32(d.rq.buffer[d.rq.head])
    case CqBase => d.cq.buffer[0]
    case CqBaseHi => Shr32(d.cq.buffer[0])
    case CqHead => PopValue(d.cq)
    case CqHeadHi => Shr32(d.splitReturn)
    case CqTail => d.cq.buffer[d.cq.tail]
    case CqTailHi => Shr32(d.cq.buffer[d.cq.tail])
    case IsProcessing => Flag(d.processing)
    case Doorbell => Flag(d.doorbell)
    case BatchFactor => d.batch
    case MaxNumVirtines => |d.rq.buffer| % TWO64
    case SnapshotSize => d.snapSize
    case SnapshotAddr => d.snapAddr
    case SnapshotAddrHi => Shr32(d.snapAddr)
    case _ => ALL_ONES
  }

  function AfterRead(d: Device, r: Reg): Device {
    match r
    case CqHead => d.(cq := PopRing(d.cq), splitReturn := PopValue(d.cq))
    case CqHeadHi => d.(splitReturn := 0)
    case _ => d
  }

  /** The address the upper-half write to RQ_TAIL puts together. */
  function Assembled(d: Device, val: u64): u64 {
    Or64(Shl32(val), d.splitWrite)
  }

  function AfterWrite(d: Device, r: Reg, val: u64): Device {
    match r
    case RqTail => d.(splitWrite := val)
    case RqTailHi => d.(splitWrite := Assembled(d, val), rq := InsertRing(d.rq, Assembled(d, val)))
    case BatchFactor => d.(batch := Low32(val))
    case Doorbell => d.(doorbell := true)
    case SnapshotSize => d.(snapSize := val)
    case SnapshotAddr => d.(snapAddr := val)
    case SnapshotAddrHi => d.(snapAddr := Or64(Shl32(val), d.snapAddr))
    case _ => d
  }

  // ----- Cleaning -----

  /** The bytes a DMA of the configured snapshot carries. Emulator memory is total here: it reads 0 beyond its end. */
  function Snapshot(d: Device): (data: seq<u8>)
    ensures |data| == d.snapSize
  {
    seq(d.snapSize, i requires 0 <= i < d.snapSize =>
      if d.snapAddr + i < |d.emulator| then d.emulator[d.snapAddr + i] else 0)
  }

  /** Guest memory after a DMA; what falls outside of it is dropped. */
  function Dma(mem: seq<u8>, addr: u64, data: seq<u8>): (mem': seq<u8>)
    ensures |mem'| == |mem|
  {
    seq(|mem|, i requires 0 <= i < |mem| => if addr <= i < addr + |data| then data[i - addr] else mem[i])
  }

  /** Restore and count one virtine. */
  function Restored(d: Device, v: u64): Device {
    d.(mem := Dma(d.mem, v, Snapshot(d)), counter := (d.counter + 1) % TWO32)
  }

  /** Announce the virtines counted so far. */
  function Notified(d: Device): Device {
    d.(msis := d.msis + [d.counter], counter := 0)
  }

  /** One iteration of the clean-up loop for the address v popped from the RQ. */
  function CleanOne(d: Device, v: u64): Device {
    var d' := Restored(d, v).(cq := InsertRing(d.cq, v), processing := false);
    if d'.counter >= d'.batch then Notified(d') else d'
  }

  /** The number of used slots: it bounds the clean-up loop even for a queue that 0 was inserted into. */
  function Used(buffer: seq<u64>): nat {
    if buffer == [] then 0 else (if buffer[0] != 0 then 1 else 0) + Used(buffer[1..])
  }

  lemma {:induction false} UsedAfterClearing(buffer: seq<u64>, k: nat)
    requires k < |buffer| && buffer[k] != 0
    ensures Used(buffer[k := 0]) == Used(buffer) - 1
  {
    if k == 0 {
      assert buffer[k := 0][1..] == buffer[1..];
    } else {
      UsedAfterClearing(buffer[1..], k - 1);
      assert buffer[k := 0][1..] == buffer[1..][k - 1 := 0];
    }
  }

  lemma UsedAfterPop(r: Ring)
    ensures Used(PopRing(r).buffer) == Used(r.buffer) - (if PopValue(r) != 0 then 1 else 0)
  {
    if PopValue(r) != 0 {
      UsedAfterClearing(r.buffer, r.head);
    } else {
      assert r.buffer[r.head := 0] == r.buffer;
    }
  }

  /** The clean-up loop from the point where v has just been popped. */
  function CleanFrom(d: Device, v: u64): Device
    decreases Used(d.rq.buffer), v
  {
    if v == 0 then d
    else
      var d' := CleanOne(d, v);
      UsedAfterPop(d'.rq);
      CleanFrom(d'.(rq := PopRing(d'.rq)), PopValue(d'.rq))
  }

  /** What one pass of the processing thread does while nothing interferes. */
  function Pass(d: Device): Device {
    CleanFrom(d.(processing := true, doorbell := false, rq := PopRing(d.rq)), PopValue(d.rq))
  }

  function Sum(ms: seq<nat>): nat {
    if ms == [] then 0 else Sum(ms[..|ms| - 1]) + ms[|ms| - 1]
  }

  /** Restoring a list of virtines one after the other. */
  function RestoreAll(mem: seq<u8>, vs: seq<u64>, data: seq<u8>): seq<u8>
    decreases vs
  {
    if vs == [] then mem else RestoreAll(Dma(mem, vs[0], data), vs[1..], data)
  }

  /** A queue c of capacity n after it was offered the elements of r: c and the longest prefix of r that fits. */
  function Filled(n: nat, c: seq<u64>, r: seq<u64>): seq<u64>
    requires |c| <= n
  {
    if |c| + |r| <= n then c + r else c + r[..n - |c|]
  }

  lemma FillOneByOne(n: nat, c: seq<u64>, v: u64, r: seq<u64>)
    requires |c| <= n
    ensures Filled(n, c, [v] + r) == Filled(n, if |c| < n then c + [v] else c, r)
  {
  }

  /** What the clean-up loop still has to clean once v has been popped. */
  function Backlog(d: Device, v: u64): seq<u64> {
    if v == 0 then [] else [v] + Contents(d.rq)
  }

  /** One step of the loop: the next address popped is the next one waiting. */
  lemma NextBacklog(d: Device, v: u64)
    requires Sound(d.rq) && v != 0
    ensures Sound(PopRing(d.rq)) && (PopValue(d.rq) == 0 ==> Contents(PopRing(d.rq)) == [])
    ensures Backlog(d, v) == [v] + Backlog(d.(rq := PopRing(d.rq)), PopValue(d.rq))
    ensures Backlog(d, v)[1..] == Backlog(d.(rq := PopRing(d.rq)), PopValue(d.rq))
  {
    PopIsFifo(d.rq);
  }

  lemma CleanOneEffect(d: Device, v: u64)
    requires Sound(d.cq) && v != 0
    ensures var d', n := CleanOne(d, v), |d.cq.buffer|;
            && Sound(d'.cq) && |d'.cq.buffer| == n && d'.rq == d.rq
            && Contents(d'.cq) == if |Contents(d.cq)| < n then Contents(d.cq) + [v] else Contents(d.cq)
  {
    InsertIsFifo(d.cq, v);
  }

  lemma CleanOneCounts(d: Device, v: u64)
    requires d.counter < TWO32 - 1
    ensures var d' := CleanOne(d, v);
            Sum(d'.msis) + d'.counter == Sum(d.msis) + d.counter + 1 && d'.counter < TWO32 - 1
  {
    var d' := CleanOne(d, v);
    assert d'.msis == d.msis || d'.msis[..|d'.msis| - 1] == d.msis;
  }

  lemma {:induction false} LoopMovesQueues(d: Device, v: u64)
    requires Sound(d.rq) && Sound(d.cq)
    requires v == 0 ==> Contents(d.rq) == []
    ensures var d', r, c := CleanFrom(d, v), Backlog(d, v), Contents(d.cq);
            && Sound(d'.rq) && Contents(d'.rq) == []
            && Sound(d'.cq) && Contents(d'.cq) == Filled(|d.cq.buffer|, c, r)
    decreases Used(d.rq.buffer), v
  {
    if v != 0 {
      NextBacklog(d, v);
      UsedAfterPop(d.rq);
      CleanOneEffect(d, v);
      var d', v' := CleanOne(d, v), PopValue(d.rq);
      var d'' := d'.(rq := PopRing(d'.rq));
      FillOneByOne(|d.cq.buffer|, Contents(d.cq), v, Backlog(d'', v'));
      LoopMovesQueues(d'', v');
    }
  }

  lemma {:induction false} LoopRestoresMemory(d: Device, v: u64)
    requires Sound(d.rq)
    ensures CleanFrom(d, v).mem == RestoreAll(d.mem, Backlog(d, v), Snapshot(d))
    decreases Used(d.rq.buffer), v
  {
    if v != 0 {
      NextBacklog(d, v);
      UsedAfterPop(d.rq);
      var d' := CleanOne(d, v);
      var d'' := d'.(rq := PopRing(d'.rq));
      LoopRestoresMemory(d'', PopValue(d'.rq));
      assert Snapshot(d'') == Snapshot(d);
    }
  }

  lemma {:induction false} LoopCounts(d: Device, v: u64)
    requires Sound(d.rq) && d.counter < TWO32 - 1
    ensures var d' := CleanFrom(d, v);
            && Sum(d'.msis) + d'.counter == Sum(d.msis) + d.counter + |Backlog(d, v)|
            && d'.counter < TWO32 - 1
    decreases Used(d.rq.buffer), v
  {
    if v != 0 {
      NextBacklog(d, v);
      UsedAfterPop(d.rq);
      CleanOneCounts(d, v);
      var d' := CleanOne(d, v);
      LoopCounts(d'.(rq := PopRing(d'.rq)), PopValue(d'.rq));
    }
  }

  lemma {:induction false} LoopKeepsTheRest(d: Device, v: u64)
    ensures var d' := CleanFrom(d, v);
            d' == d.(rq := d'.rq, cq := d'.cq, mem := d'.mem, msis := d'.msis,
                     counter := d'.counter, processing := d'.processing)
    decreases Used(d.rq.buffer), v
  {
    if v != 0 {
      UsedAfterPop(d.rq);
      var d' := CleanOne(d, v);
      LoopKeepsTheRest(d'.(rq := PopRing(d'.rq)), PopValue(d'.rq));
    }
  }

  /** One pass on queues r and c: the RQ ends empty, every element of r is restored and
      counted once, in order, and the CQ is c followed by the longest prefix of r that fits.
      Only the queues, guest memory, the two flags and the interrupt accounts change. */
  lemma PassDrains(d: Device)
    requires Sound(d.rq) && Sound(d.cq) && d.counter < TWO32 - 1
    ensures var d', r, c := Pass(d), Contents(d.rq), Contents(d.cq);
            && Sound(d'.rq) && Contents(d'.rq) == []
            && Sound(d'.cq) && Contents(d'.cq) == Filled(|d.cq.buffer|, c, r)
            && d'.mem == RestoreAll(d.mem, r, Snapshot(d))
            && Sum(d'.msis) + d'.counter == Sum(d.msis) + d.counter + |r|
            && d' == d.(rq := d'.rq, cq := d'.cq, mem := d'.mem, msis := d'.msis,
                        counter := d'.counter, processing := d'.processing, doorbell := false)
  {
    PopIsFifo(d.rq);
    var d1, v := d.(processing := true, doorbell := false, rq := PopRing(d.rq)), PopValue(d.rq);
    assert Snapshot(d1) == Snapshot(d);
    assert Backlog(d1, v) == Contents(d.rq);
    LoopMovesQueues(d1, v);
    LoopRestoresMemory(d1, v);
    LoopCounts(d1, v);
    LoopKeepsTheRest(d1, v);
  }
}
