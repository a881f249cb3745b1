/** Whole driver-to-device paths: an address submitted, an address reaped and a snapshot
    configured through 32-bit accesses, with the rest of the system running in between. */
module Paths {
  import opened Words
  import opened RingQueue
  import opened Device
  import opened Protocol
  import opened SplitWords
  import opened Mmio
  import opened CharDevice
  import opened DrainLoop
  import opened Bus

  /** No access changes the size of the queues. */
  lemma EntriesKept(l: Line, r: Reg, w: u32, needsLock: bool)
    ensures Entries(Step(Before(l, needsLock), Read(r))) == Entries(l.sys)
    ensures Entries(Step(Before(l, needsLock), Write(r, w))) == Entries(l.sys)
  {
    EntriesStay(l.sys, Meanwhile(l, needsLock));
  }

  lemma RegionWritesTwice(l: Line, addr: nat, w0: u32, w1: u32)
    ensures AfterWrites(VirtineRegion(), l, addr, [w0, w1]) == AfterIowrite(AfterIowrite(l, addr, w0), addr + 4, w1)
  {
    TwoWrites(VirtineRegion(), l, addr, w0, w1);
  }

  lemma RegionReadsTwice(l: Line, addr: nat)
    ensures AfterReads(VirtineRegion(), l, addr, 2) == AfterReadl(AfterReadl(l, addr), addr + 4)
    ensures WordsRead(VirtineRegion(), l, addr, 2) == [WordAt(l, addr), WordAt(AfterReadl(l, addr), addr + 4)]
  {
    TwoReads(VirtineRegion(), l, addr);
  }

  /** A first word written at addr selects lo; the second, written above it, selects hi. */
  lemma WritesAsSteps(l: Line, addr: nat, lo: Reg, hi: Reg, w0: u32, w1: u32)
    requires Decode(Entries(l.sys), addr) == lo && Decode(Entries(l.sys), addr + 4) == hi
    ensures var l1 := Line(Step(Before(l, lo == RqTailHi), Write(lo, w0)), Rest(l.turns));
            && AfterIowrite(l, addr, w0) == l1
            && AfterIowrite(l1, addr + 4, w1) == Line(Step(Before(l1, hi == RqTailHi), Write(hi, w1)), Rest(l1.turns))
            && Entries(l1.sys) == Entries(l.sys)
  {
    EntriesKept(l, lo, w0, lo == RqTailHi);
  }

  /** Registers of which hi is the word above lo. */
  predicate IsPair(n: nat, lo: Reg, hi: Reg) {
    lo != Unmapped && hi != Unmapped && AddressOf(n, hi) == AddressOf(n, lo) + 4
  }

  /** The system when the second word of a pair is about to be written. */
  function BeforeHigh(l: Line, lo: Reg, hi: Reg, v: u64): System
    requires lo != Unmapped
  {
    Before(AfterIowrite(l, AddressOf(Entries(l.sys), lo), Low32(v)), hi == RqTailHi)
  }

  /** Writing a 64-bit value at a register pair: two steps with what happens meanwhile between them. */
  lemma PairWritten(l: Line, lo: Reg, hi: Reg, v: u64)
    requires IsPair(Entries(l.sys), lo, hi)
    ensures var addr := AddressOf(Entries(l.sys), lo);
            var l1 := AfterIowrite(l, addr, Low32(v));
            && l1 == Line(Step(Before(l, lo == RqTailHi), Write(lo, Low32(v))), Rest(l.turns))
            && AfterWrites(VirtineRegion(), l, addr, [Low32(v), Shr32(v)]) ==
               Line(Step(BeforeHigh(l, lo, hi, v), Write(hi, Shr32(v))), Rest(l1.turns))
  {
    var addr := AddressOf(Entries(l.sys), lo);
    DecodeInvertsAddressOf(Entries(l.sys), lo, 0);
    DecodeInvertsAddressOf(Entries(l.sys), hi, 0);
    WritesAsSteps(l, addr, lo, hi, Low32(v), Shr32(v));
    RegionWritesTwice(l, addr, Low32(v), Shr32(v));
  }

  // ----- Submitting -----

  /** The write of a 64-bit address at the RQ_TAIL register pair submits exactly that address,
      once, and offers it to the RQ as it is at that moment. The rest of the system may do
      anything before and between the halves but write to the same pair. */
  lemma SubmittedThroughDriver(l: Line, v: u64)
    requires AllTurns(l.turns, LeavesRqTail)
    ensures var s' := AfterWrites(VirtineRegion(), l, RQ_TAIL_OFFSET_REG, AsWords(Bytes64(v))).sys;
            var s := BeforeHigh(l, RqTail, RqTailHi, v);
            && s'.h.submitted == l.sys.h.submitted + [v]
            && s'.dev.rq == InsertRing(s.dev.rq, v)
            && s'.h.accepted == if Accepts(s.dev.rq) then s.h.accepted + [v] else s.h.accepted
  {
    PairWritten(l, RqTail, RqTailHi, v);
    WordsOfBytes([Low32(v), Shr32(v)]);
    var l1 := AfterIowrite(l, RQ_TAIL_OFFSET_REG, Low32(v));
    MeanwhileObeys(l, false, LeavesRqTail);
    MeanwhileObeys(l1, true, LeavesRqTail);
    BeforeIsFree(l1);
    SplitWriteSurvives(l.sys, Meanwhile(l, false));
    WrittenHalvesSubmit(Before(l, false), Meanwhile(l1, true), v);
  }

  // ----- Reaping -----

  /** The address an 8-byte read at the CQ_HEAD register pair yields. */
  function FetchedAddress(l: Line): u64 {
    Fetched(VirtineRegion(), l, CqHeadOffsetReg(Entries(l.sys)))
  }

  function AfterFetching(l: Line): Line {
    AfterFetch(VirtineRegion(), l, CqHeadOffsetReg(Entries(l.sys)))
  }

  /** The same for reads: a first word read at addr selects lo, the one above it hi. */
  lemma ReadsAsSteps(l: Line, addr: nat, lo: Reg, hi: Reg)
    requires Decode(Entries(l.sys), addr) == lo && Decode(Entries(l.sys), addr + 4) == hi
    ensures var l1 := Line(Step(Before(l, lo == CqHead), Read(lo)), Rest(l.turns));
            && AfterReadl(l, addr) == l1
            && AfterReadl(l1, addr + 4) == Line(Step(Before(l1, hi == CqHead), Read(hi)), Rest(l1.turns))
            && WordAt(l, addr) == Low32(ReadValue(Before(l, lo == CqHead).dev, lo))
            && WordAt(l1, addr + 4) == Low32(ReadValue(Before(l1, hi == CqHead).dev, hi))
  {
    EntriesKept(l, lo, 0, lo == CqHead);
  }

  /** Reading 64 bits at a register pair. */
  lemma PairRead(l: Line, lo: Reg, hi: Reg)
    requires IsPair(Entries(l.sys), lo, hi)
    ensures var addr := AddressOf(Entries(l.sys), lo);
            var l1 := AfterReadl(l, addr);
            && l1 == Line(Step(Before(l, lo == CqHead), Read(lo)), Rest(l.turns))
            && AfterFetch(VirtineRegion(), l, addr) == Line(Step(Before(l1, hi == CqHead), Read(hi)), Rest(l1.turns))
            && Fetched(VirtineRegion(), l, addr) == Joined64(Low32(ReadValue(Before(l, lo == CqHead).dev, lo)),
                                                             Low32(ReadValue(Before(l1, hi == CqHead).dev, hi)))
  {
    var n := Entries(l.sys);
    var addr := AddressOf(n, lo);
    DecodeInvertsAddressOf(n, lo, 0);
    DecodeInvertsAddressOf(n, hi, 0);
    ReadsAsSteps(l, addr, lo, hi);
    RegionReadsTwice(l, addr);
  }

  lemma FetchAsSteps(l: Line)
    ensures var l1 := AfterReadl(l, CqHeadOffsetReg(Entries(l.sys)));
            && l1 == Line(Step(Before(l, true), Read(CqHead)), Rest(l.turns))
            && AfterFetching(l) == Line(Step(Before(l1, false), Read(CqHeadHi)), Rest(l1.turns))
            && FetchedAddress(l) == Joined64(Low32(ReadValue(Before(l, true).dev, CqHead)),
                                             Low32(ReadValue(Before(l1, false).dev, CqHeadHi)))
  {
    PairRead(l, CqHead, CqHeadHi);
  }

  /** It is exactly the address popped from the CQ by the first half, and no other is popped. */
  lemma FetchedThroughDriver(l: Line)
    requires AllTurns(l.turns, LeavesCqHead)
    ensures FetchedAddress(l) == PopValue(Before(l, true).dev.cq)
    ensures AfterFetching(l).sys.h.reaped == l.sys.h.reaped + Got(FetchedAddress(l))
    ensures AllTurns(AfterFetching(l).turns, LeavesCqHead)
  {
    FetchAsSteps(l);
    var l1 := AfterReadl(l, CqHeadOffsetReg(Entries(l.sys)));
    BeforeIsFree(l);
    MeanwhileObeys(l, true, LeavesCqHead);
    MeanwhileObeys(l1, false, LeavesCqHead);
    ReadHalvesJoin(Before(l, true), Meanwhile(l1, false));
    SplitReturnSurvives(l.sys, Meanwhile(l, true));
    SplitReturnSurvives(l1.sys, Meanwhile(l1, false));
  }

  // ----- Configuring -----

  lemma UnmappedWriteDoesNothing(s: System, w: u32)
    ensures Step(s, Write(Unmapped, w)) == s
  {
  }

  lemma SizeAsSteps(l: Line, size: u64)
    ensures var addr := SnapshotSizeReg(Entries(l.sys));
            var l1 := AfterIowrite(l, addr, Low32(size));
            && l1 == Line(Step(Before(l, false), Write(SnapshotSize, Low32(size))), Rest(l.turns))
            && AfterWrites(VirtineRegion(), l, addr, [Low32(size), Shr32(size)]) ==
               Line(Before(l1, false), Rest(l1.turns))
            && Entries(l1.sys) == Entries(l.sys)
  {
    var n := Entries(l.sys);
    var addr := SnapshotSizeReg(n);
    DecodeInvertsAddressOf(n, SnapshotSize, 0);
    assert Decode(n, addr + 4) == Unmapped;
    WritesAsSteps(l, addr, SnapshotSize, Unmapped, Low32(size), Shr32(size));
    RegionWritesTwice(l, addr, Low32(size), Shr32(size));
    UnmappedWriteDoesNothing(Before(AfterIowrite(l, addr, Low32(size)), false), Shr32(size));
  }

  lemma LowSizeWrite(s: System, w: u32)
    ensures Step(s, Write(SnapshotSize, w)).dev.snapSize == w
  {
  }

  /** One 8-byte write of the ioctl: the size, whose upper half maps no register. */
  lemma SizeConfigured(l: Line, size: u64)
    requires AllTurns(l.turns, LeavesSnapshot)
    ensures var l' := AfterWrites(VirtineRegion(), l, SnapshotSizeReg(Entries(l.sys)), [Low32(size), Shr32(size)]);
            && l'.sys.dev.snapSize == Low32(size)
            && Entries(l'.sys) == Entries(l.sys) && AllTurns(l'.turns, LeavesSnapshot)
  {
    SizeAsSteps(l, size);
    LowSizeWrite(Before(l, false), Low32(size));
    var l1 := AfterIowrite(l, SnapshotSizeReg(Entries(l.sys)), Low32(size));
    MeanwhileObeys(l, false, LeavesSnapshot);
    MeanwhileObeys(l1, false, LeavesSnapshot);
    EntriesStay(l1.sys, Meanwhile(l1, false));
    SnapshotSurvives(l1.sys, Meanwhile(l1, false));
  }

  lemma AddressConfigured(l: Line, addr: u64)
    requires AllTurns(l.turns, LeavesSnapshot)
    ensures var l' := AfterWrites(VirtineRegion(), l, SnapshotAddrReg(Entries(l.sys)), [Low32(addr), Shr32(addr)]);
            && l'.sys.dev.snapAddr == addr && l'.sys.dev.snapSize == l.sys.dev.snapSize
            && Entries(l'.sys) == Entries(l.sys) && AllTurns(l'.turns, LeavesSnapshot)
  {
    PairWritten(l, SnapshotAddr, SnapshotAddrHi, addr);
    var l1 := AfterIowrite(l, SnapshotAddrReg(Entries(l.sys)), Low32(addr));
    MeanwhileObeys(l, false, LeavesSnapshot);
    MeanwhileObeys(l1, false, LeavesSnapshot);
    SnapshotSurvives(l.sys, Meanwhile(l, false));
    WrittenHalvesConfigure(Before(l, false), Meanwhile(l1, false), addr);
    EntriesKept(l, SnapshotAddr, Low32(addr), false);
    EntriesKept(l1, SnapshotAddrHi, Shr32(addr), false);
  }

  /** After SET_SNAPSHOT the device holds the full address and the size modulo 2^32, whatever
      it held before and whatever runs in between, short of other writes to the snapshot registers. */
  lemma ConfiguredThroughDriver(l: Line, addr: u64, size: u64)
    requires AllTurns(l.turns, LeavesSnapshot)
    ensures var l' := SnapshotWrites(VirtineRegion(), l, Entries(l.sys), addr, size);
            && l'.sys.dev.snapAddr == addr && l'.sys.dev.snapSize == size % TWO32
            && Entries(l'.sys) == Entries(l.sys) && AllTurns(l'.turns, LeavesSnapshot)
  {
    SizeConfigured(l, size);
    var words := [Low32(size), Shr32(size)];
    AddressConfigured(AfterWrites(VirtineRegion(), l, SnapshotSizeReg(Entries(l.sys)), words), addr);
  }

  /** The words of the pair, when the stored address is the same at both reads. */
  lemma SnapshotWords(d0: Device, d1: Device)
    requires d0.snapAddr == d1.snapAddr
    ensures Joined64(Low32(ReadValue(d0, SnapshotAddr)), Low32(ReadValue(d1, SnapshotAddrHi))) == d0.snapAddr
  {
    JoinedHalves(d0.snapAddr);
  }

  lemma ReadKeepsSnapshot(s: System)
    ensures Step(s, Read(SnapshotAddr)).dev.snapAddr == s.dev.snapAddr
  {
  }

  /** The 8-byte read at the address pair of the snapshot gives the configured address, under
      the same condition: with ConfiguredThroughDriver, what was set is read back. */
  lemma ConfigurationReadsBack(l: Line)
    requires AllTurns(l.turns, LeavesSnapshot)
    ensures Fetched(VirtineRegion(), l, SnapshotAddrReg(Entries(l.sys))) == l.sys.dev.snapAddr
  {
    PairRead(l, SnapshotAddr, SnapshotAddrHi);
    var l1 := AfterReadl(l, SnapshotAddrReg(Entries(l.sys)));
    MeanwhileObeys(l, false, LeavesSnapshot);
    MeanwhileObeys(l1, false, LeavesSnapshot);
    SnapshotSurvives(l.sys, Meanwhile(l, false));
    ReadKeepsSnapshot(Before(l, false));
    SnapshotSurvives(l1.sys, Meanwhile(l1, false));
    SnapshotWords(Before(l, false).dev, Before(l1, false).dev);
  }

  lemma SizeRead(l: Line, n: nat, size: u32)
    requires AllTurns(l.turns, LeavesSnapshot) && Entries(l.sys) == n && l.sys.dev.snapSize == size
    ensures WordAt(l, SnapshotSizeReg(n)) == size
  {
    DecodeInvertsAddressOf(n, SnapshotSize, 0);
    MeanwhileObeys(l, false, LeavesSnapshot);
    SnapshotSurvives(l.sys, Meanwhile(l, false));
  }

  /** The size too: the word at its register is then the size modulo 2^32. */
  lemma SizeReadsBack(l: Line, addr: u64, size: u64)
    requires AllTurns(l.turns, LeavesSnapshot)
    ensures var l' := SnapshotWrites(VirtineRegion(), l, Entries(l.sys), addr, size);
            WordAt(l', SnapshotSizeReg(Entries(l.sys))) == size % TWO32
  {
    ConfiguredThroughDriver(l, addr, size);
    SizeRead(SnapshotWrites(VirtineRegion(), l, Entries(l.sys), addr, size), Entries(l.sys), size % TWO32);
  }

  // ----- With nothing else going on -----

  lemma NothingMeanwhile(l: Line)
    requires l.turns == []
    ensures Before(l, false) == l.sys && Rest(l.turns) == []
    ensures !HoldsLock(l.sys.pc) ==> Before(l, true) == l.sys
  {
    assert Works(0) == [];
    assert Meanwhile(l, false) == [] && (!HoldsLock(l.sys.pc) ==> Meanwhile(l, true) == []);
  }

  lemma SnapshotWritten(s: System, addr: u64, size: u32)
    ensures var s1 := Step(s, Write(SnapshotSize, size));
            var s2 := Step(s1, Write(SnapshotAddr, Low32(addr)));
            Step(s2, Write(SnapshotAddrHi, Shr32(addr))) == s.(dev := s.dev.(snapSize := size, snapAddr := addr))
  {
    SplitThenJoin(addr);
  }

  /** SET_SNAPSHOT changes the two snapshot registers and nothing else: alone on the bus, it leaves
      every other part of the system as it was. */
  lemma ConfigurationChangesNothingElse(l: Line, addr: u64, size: u64)
    requires l.turns == []
    ensures SnapshotWrites(VirtineRegion(), l, Entries(l.sys), addr, size) ==
            Line(l.sys.(dev := l.sys.dev.(snapSize := size % TWO32, snapAddr := addr)), [])
  {
    var n := Entries(l.sys);
    SizeAsSteps(l, size);
    NothingMeanwhile(l);
    var l1 := AfterIowrite(l, SnapshotSizeReg(n), Low32(size));
    NothingMeanwhile(l1);
    assert l1.sys == Step(l.sys, Write(SnapshotSize, Low32(size)));
    PairWritten(l1, SnapshotAddr, SnapshotAddrHi, addr);
    var l2 := AfterIowrite(l1, SnapshotAddrReg(n), Low32(addr));
    NothingMeanwhile(l2);
    SnapshotWritten(l.sys, addr, Low32(size));
  }

  lemma BothHalvesRead(s: System)
    requires !HoldsLock(s.pc)
    ensures var v := PopValue(s.dev.cq);
            Step(Step(s, Read(CqHead)), Read(CqHeadHi)) ==
            s.(dev := s.dev.(cq := PopRing(s.dev.cq), splitReturn := 0),
               h := if v != 0 then s.h.(reaped := s.h.reaped + [v]) else s.h)
  {
    var s1 := Step(s, Read(CqHead));
    assert Step(s1, Read(CqHeadHi)) == s1.(dev := s1.dev.(splitReturn := 0));
  }

  lemma FetchAlone(l: Line)
    requires l.turns == [] && !HoldsLock(l.sys.pc)
    ensures AfterFetching(l) == Line(Step(Step(l.sys, Read(CqHead)), Read(CqHeadHi)), [])
  {
    FetchAsSteps(l);
    NothingMeanwhile(l);
    NothingMeanwhile(Line(Step(l.sys, Read(CqHead)), []));
  }

  /** Likewise an 8-byte read at CQ_HEAD of a free device: it pops the CQ, and no trace of the
      address is left for a further read of the upper half. */
  lemma FetchChangesNothingElse(l: Line)
    requires l.turns == [] && !HoldsLock(l.sys.pc)
    ensures var s, v := l.sys, PopValue(l.sys.dev.cq);
            FetchedAddress(l) == v && AfterFetching(l) ==
            Line(s.(dev := s.dev.(cq := PopRing(s.dev.cq), splitReturn := 0),
                    h := if v != 0 then s.h.(reaped := s.h.reaped + [v]) else s.h), [])
  {
    FetchedThroughDriver(l);
    NothingMeanwhile(l);
    FetchAlone(l);
    BothHalvesRead(l.sys);
  }
}
