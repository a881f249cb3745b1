/** What the device's registers read, over every schedule. */
module Registers {
  import opened Words
  import opened RingQueue
  import opened Device
  import opened Protocol
  import opened Interrupts
  import opened SplitWords
  import opened DrainLoop
  import opened Bus
  import opened Paths

  // ----- Where they are -----

  /** The register map in bytes, for queues of n entries. */
  lemma RegisterMap(n: nat)
    requires n > 0
    ensures Decode(n, 0) == RqHead && Decode(n, 4) == RqHeadHi
    ensures Decode(n, 8) == RqTail && Decode(n, 12) == RqTailHi
    ensures Decode(n, 16) == RqBase && Decode(n, 20) == RqBaseHi
    ensures Decode(n, 8 * n + 16) == Reg.Doorbell && Decode(n, 8 * n + 24) == IsProcessing
    ensures Decode(n, 8 * n + 32) == CqHead && Decode(n, 8 * n + 36) == CqHeadHi
    ensures Decode(n, 8 * n + 40) == CqTail && Decode(n, 8 * n + 44) == CqTailHi
    ensures Decode(n, 8 * n + 48) == CqBase && Decode(n, 8 * n + 52) == CqBaseHi
    ensures Decode(n, 16 * n + 48) == BatchFactor && Decode(n, 16 * n + 56) == MaxNumVirtines
    ensures Decode(n, 16 * n + 64) == SnapshotSize
    ensures Decode(n, 16 * n + 72) == SnapshotAddr && Decode(n, 16 * n + 76) == SnapshotAddrHi
  {
  }

  // ----- What accesses leave alone -----

  /** The registers that a write has an effect on. */
  predicate IsWritten(r: Reg) {
    r in {RqTail, RqTailHi, Reg.Doorbell, BatchFactor, SnapshotSize, SnapshotAddr, SnapshotAddrHi}
  }

  /** A read of anything but CQ_HEAD changes nothing, a write to a register that is not written to
      changes nothing, and where there is nothing to read the device answers with all ones. */
  lemma InertAccesses(s: System, r: Reg, val: u64)
    ensures r != CqHead && r != CqHeadHi ==> Step(s, Read(r)) == s
    ensures !IsWritten(r) ==> Step(s, Write(r, val)) == s
    ensures r in {RqTail, RqTailHi, RqBase, RqBaseHi, Unmapped} ==> ReadValue(s.dev, r) == 0xFFFF_FFFF_FFFF_FFFF
  {
  }

  // ----- A fresh device -----

  /** Every register of a fresh device. */
  lemma FreshRegisters(n: nat, mem: seq<u8>, emulator: seq<u8>, cleanState: u64)
    requires n > 0
    ensures var d := Boot(n, mem, emulator, cleanState).dev;
            && ReadValue(d, RqHead) == ReadValue(d, RqHeadHi) == 0
            && ReadValue(d, CqHead) == ReadValue(d, CqHeadHi) == ReadValue(d, CqTail) == ReadValue(d, CqTailHi) == 0
            && ReadValue(d, CqBase) == ReadValue(d, CqBaseHi) == 0
            && ReadValue(d, Reg.Doorbell) == ReadValue(d, IsProcessing) == 0
            && ReadValue(d, BatchFactor) == 1 && ReadValue(d, MaxNumVirtines) == n % TWO64
            && ReadValue(d, SnapshotSize) == 8 && ReadValue(d, SnapshotAddr) == cleanState
            && ReadValue(d, SnapshotAddrHi) == cleanState / TWO32
  {
  }

  /** The address a fresh device assembles when only its upper half is written. */
  lemma FreshAssembled(n: nat, mem: seq<u8>, emulator: seq<u8>, cleanState: u64, hi: u32)
    requires n > 0
    ensures Assembled(Boot(n, mem, emulator, cleanState).dev, hi) == hi * TWO32
  {
    ShiftedWord(hi);
    Or64OfHalves(0, hi);
  }

  // ----- Configuration, over runs -----

  /** The batch factor reads back modulo 2^32 as long as it is not rewritten. */
  lemma BatchReadsBack(s: System, val: u64, acts: seq<Action>)
    requires forall a :: a in acts ==> LeavesBatch(a)
    ensures ReadValue(Exec(Step(s, Write(BatchFactor, val)), acts).dev, BatchFactor) == val % TWO32
  {
    BatchSurvives(Step(s, Write(BatchFactor, val)), acts);
  }

  lemma {:induction false} BatchSurvives(s: System, acts: seq<Action>)
    requires forall a :: a in acts ==> LeavesBatch(a)
    ensures Exec(s, acts).dev.batch == s.dev.batch
    decreases acts
  {
    if acts != [] {
      assert LeavesBatch(acts[0]);
      if acts[0].Work? {
        assert WorkStep(s).dev.batch == s.dev.batch;
      } else {
        OthersKeepAccounts(s, acts[0]);
      }
      BatchSurvives(Step(s, acts[0]), acts[1..]);
    }
  }

  /** The snapshot registers take and give back whole 64-bit values in one access. */
  lemma SnapshotReadsBack(s: System, size: u64, addr: u64, acts: seq<Action>)
    requires forall a :: a in acts ==> LeavesSnapshot(a)
    ensures var d := Exec(Step(Step(s, Write(SnapshotSize, size)), Write(SnapshotAddr, addr)), acts).dev;
            && ReadValue(d, SnapshotSize) == size
            && ReadValue(d, SnapshotAddr) == addr && ReadValue(d, SnapshotAddrHi) == addr / TWO32
  {
    SnapshotSurvives(Step(Step(s, Write(SnapshotSize, size)), Write(SnapshotAddr, addr)), acts);
  }

  /** The upper-half writes, bit by bit, for any 64-bit values: what they put together has exactly
      the bits of what the register held and those of the low word written, shifted up. */
  lemma UpperHalfBits(s: System, v: u64, mid: seq<Action>, val: u64, k: nat)
    requires forall a :: a in mid ==> LeavesRqTail(a)
    ensures BitAt(Assembled(Exec(Step(s, Write(RqTail, v)), mid).dev, val), k)
       <==> BitAt(val % TWO32 * TWO32, k) || BitAt(v, k)
    ensures BitAt(Step(s, Write(SnapshotAddrHi, val)).dev.snapAddr, k)
       <==> BitAt(val % TWO32 * TWO32, k) || BitAt(s.dev.snapAddr, k)
  {
    SplitWriteSurvives(Step(s, Write(RqTail, v)), mid);
    OrBitByBit(val % TWO32 * TWO32, v, k);
    OrBitByBit(val % TWO32 * TWO32, s.dev.snapAddr, k);
  }

  /** The word that the driver reads for the number of virtines is the number of entries modulo
      2^32, whatever happens before. */
  lemma MaxNumVirtinesReads(l: Line)
    ensures WordAt(l, MaxNumVirtinesReg(Entries(l.sys))) == Entries(l.sys) % TWO32
  {
    DecodeInvertsAddressOf(Entries(l.sys), MaxNumVirtines, 0);
    EntriesStay(l.sys, Meanwhile(l, false));
    LowOfWide(Entries(l.sys));
  }

  lemma LowOfWide(n: nat)
    ensures Low32(n % TWO64) == n % TWO32
  {
    assert n == n / TWO64 * TWO64 + n % TWO64;
    assert n / TWO64 * TWO64 == n / TWO64 * TWO32 * TWO32;
  }

  // ----- The flags, over runs -----

  lemma DoorbellStep(s: System, a: Action)
    ensures var s' := Step(s, a);
            && s'.h.passes >= s.h.passes && s'.h.rings >= s.h.rings
            && (s.dev.doorbell && s'.h.passes == s.h.passes ==> s'.dev.doorbell)
            && (!s.dev.doorbell && s'.h.rings == s.h.rings ==> !s'.dev.doorbell)
            && (s'.h.passes > s.h.passes ==> !s'.dev.doorbell)
  {
    match a
    case Work =>
      var s' := WorkStep(s);
      assert s'.h.rings == s.h.rings && (s.pc.Clearing? || s'.h.passes == s.h.passes);
      assert s'.dev.doorbell == if s.pc.Clearing? then false else s.dev.doorbell;
    case Read(r) => assert ReadStep(s, r).dev.doorbell == s.dev.doorbell && ReadStep(s, r).h.passes == s.h.passes;
    case Write(r, val) =>
    case _ =>
  }

  lemma {:induction false} DoorbellAlong(s: System, acts: seq<Action>)
    ensures var t := Exec(s, acts);
            && t.h.passes >= s.h.passes && t.h.rings >= s.h.rings
            && (s.dev.doorbell && t.h.passes == s.h.passes ==> t.dev.doorbell)
            && (!s.dev.doorbell && t.h.rings == s.h.rings ==> !t.dev.doorbell)
    decreases acts
  {
    if acts != [] {
      DoorbellStep(s, acts[0]);
      DoorbellAlong(Step(s, acts[0]), acts[1..]);
    }
  }

  /** The doorbell reads 1 from a doorbell write until a pass begins. */
  lemma DoorbellReadsOne(s: System, val: u64, acts: seq<Action>)
    requires Exec(Step(s, Write(Reg.Doorbell, val)), acts).h.passes == s.h.passes
    ensures ReadValue(Exec(Step(s, Write(Reg.Doorbell, val)), acts).dev, Reg.Doorbell) == 1
  {
    DoorbellAlong(Step(s, Write(Reg.Doorbell, val)), acts);
  }

  /** It reads 0 from the beginning of a pass until the next doorbell write. */
  lemma DoorbellReadsZero(s: System, a: Action, acts: seq<Action>)
    requires Step(s, a).h.passes > s.h.passes && Exec(Step(s, a), acts).h.rings == Step(s, a).h.rings
    ensures ReadValue(Exec(Step(s, a), acts).dev, Reg.Doorbell) == 0
  {
    DoorbellStep(s, a);
    DoorbellAlong(Step(s, a), acts);
  }

  /** And from power-up until the first one. */
  lemma DoorbellReadsZeroAtFirst(n: nat, mem: seq<u8>, emulator: seq<u8>, cleanState: u64, acts: seq<Action>)
    requires n > 0 && Exec(Boot(n, mem, emulator, cleanState), acts).h.rings == 0
    ensures ReadValue(Exec(Boot(n, mem, emulator, cleanState), acts).dev, Reg.Doorbell) == 0
  {
    DoorbellAlong(Boot(n, mem, emulator, cleanState), acts);
  }

  /** is_card_processing reads 1 from the start of a pass until its first virtine is complete. */
  lemma ProcessingReads(s: System, a: Action)
    ensures var before, after := ReadValue(s.dev, IsProcessing), ReadValue(Step(s, a).dev, IsProcessing);
            after == if a.Work? && s.pc.Marking? then 1 else if a.Work? && s.pc.Lowering? then 0 else before
  {
    match a
    case Work =>
      assert WorkStep(s).dev.processing == if s.pc.Marking? then true else !s.pc.Lowering? && s.dev.processing;
    case Read(r) => assert ReadStep(s, r).dev.processing == s.dev.processing;
    case Write(r, val) => assert WriteStep(s, r, val).dev.processing == s.dev.processing;
    case _ =>
  }

  /** So it still reads 1 after a pass that found nothing, and 0 after any other, for every device. */
  lemma ProcessingAfterPass(d: Device)
    ensures ReadValue(Pass(d), IsProcessing) == if PopValue(d.rq) == 0 then 1 else 0
  {
    ProcessingAfterLoop(d.(processing := true, doorbell := false, rq := PopRing(d.rq)), PopValue(d.rq));
  }

  lemma {:induction false} ProcessingAfterLoop(d: Device, v: u64)
    ensures CleanFrom(d, v).processing == (v == 0 && d.processing)
    decreases Used(d.rq.buffer), v
  {
    if v != 0 {
      UsedAfterPop(d.rq);
      var d' := CleanOne(d, v);
      ProcessingAfterLoop(d'.(rq := PopRing(d'.rq)), PopValue(d'.rq));
    }
  }

  // ----- The queue registers -----

  function OldestOrZero(q: seq<u64>): u64 {
    if q == [] then 0 else q[0]
  }

  /** With sound queues: the HEAD registers show the oldest element or 0, CQ_TAIL a free slot
      unless the CQ is full, and CQ_BASE the element in the first slot, if any. */
  lemma QueueRegisters(d: Device)
    requires Sound(d.rq) && Sound(d.cq)
    ensures var r, c, n := Contents(d.rq), Contents(d.cq), |d.cq.buffer|;
            var first := if d.cq.head == 0 then 0 else n - d.cq.head;
            && ReadValue(d, RqHead) == OldestOrZero(r) && ReadValue(d, RqHeadHi) == OldestOrZero(r) / TWO32
            && ReadValue(d, CqHead) == OldestOrZero(c)
            && ReadValue(d, CqTail) == (if |c| < n then 0 else c[0])
            && ReadValue(d, CqTailHi) == ReadValue(d, CqTail) / TWO32
            && ReadValue(d, CqBase) == (if first < |c| then c[first] else 0)
            && ReadValue(d, CqBaseHi) == ReadValue(d, CqBase) / TWO32
  {
    PopIsFifo(d.rq);
    PopIsFifo(d.cq);
    TailShows(d.cq);
    BaseShows(d.cq);
  }

  lemma TailShows(q: Ring)
    requires Sound(q)
    ensures q.buffer[q.tail] == if |Contents(q)| < |q.buffer| then 0 else Contents(q)[0]
  {
    MeetingPointersDecide(q);
    SoundNeverDisplaces(q);
    if |Contents(q)| == |q.buffer| {
      assert Slot(|q.buffer|, q.head, 0) == q.head == q.tail;
    }
  }

  lemma BaseShows(q: Ring)
    requires Sound(q)
    ensures var first := if q.head == 0 then 0 else |q.buffer| - q.head;
            q.buffer[0] == if first < |Contents(q)| then Contents(q)[first] else 0
  {
    var first := if q.head == 0 then 0 else |q.buffer| - q.head;
    assert Slot(|q.buffer|, q.head, first) == 0;
  }

  /** An 8-byte read of a register pair that nobody is touching gives the 64-bit value behind it. */
  lemma PairFetched(l: Line, lo: Reg, hi: Reg)
    requires IsPair(Entries(l.sys), lo, hi) && lo != CqHead && lo != CqHeadHi && hi != CqHead && l.turns == []
    requires ReadValue(l.sys.dev, hi) == ReadValue(l.sys.dev, lo) / TWO32
    ensures Fetched(VirtineRegion(), l, AddressOf(Entries(l.sys), lo)) == ReadValue(l.sys.dev, lo)
  {
    PairRead(l, lo, hi);
    NothingMeanwhile(l);
    var l1 := AfterReadl(l, AddressOf(Entries(l.sys), lo));
    NothingMeanwhile(l1);
    InertAccesses(l.sys, lo, 0);
    JoinedQuotient(ReadValue(l.sys.dev, lo), ReadValue(l.sys.dev, hi));
  }

  lemma JoinedQuotient(v: u64, hi: u64)
    requires hi == v / TWO32
    ensures Joined64(Low32(v), Low32(hi)) == v
  {
  }

  /** So the driver sees the oldest entry of the RQ, or 0, at RQ_HEAD. */
  lemma RqHeadFetched(l: Line)
    requires Sound(l.sys.dev.rq) && Sound(l.sys.dev.cq) && l.turns == []
    ensures Fetched(VirtineRegion(), l, 0) == OldestOrZero(Contents(l.sys.dev.rq))
  {
    QueueRegisters(l.sys.dev);
    PairFetched(l, RqHead, RqHeadHi);
  }
}
