/** 64-bit values through 32-bit registers: what the two halves of an access amount to when
    the rest of the system runs in between. */
module SplitWords {
  import opened Words
  import opened RingQueue
  import opened Device
  import opened Protocol

  lemma JoinedHalves(v: u64)
    ensures Joined64(Low32(v), Shr32(v)) == v
  {
  }

  predicate LeavesRqTail(a: Action) {
    a.Write? ==> a.r != RqTail && a.r != RqTailHi
  }

  predicate LeavesCqHead(a: Action) {
    a.Read? ==> a.r != CqHead && a.r != CqHeadHi
  }

  predicate LeavesSnapshot(a: Action) {
    a.Write? ==> a.r != SnapshotSize && a.r != SnapshotAddr && a.r != SnapshotAddrHi
  }

  lemma StepLeavesSplitWrite(s: System, a: Action)
    requires LeavesRqTail(a)
    ensures Step(s, a).dev.splitWrite == s.dev.splitWrite && Step(s, a).h.submitted == s.h.submitted
  {
    if a.Work? {
      assert WorkStep(s).dev.splitWrite == s.dev.splitWrite;
    }
  }

  lemma StepLeavesSplitReturn(s: System, a: Action)
    requires LeavesCqHead(a)
    ensures Step(s, a).dev.splitReturn == s.dev.splitReturn && Step(s, a).h.reaped == s.h.reaped
  {
    if a.Work? {
      assert WorkStep(s).dev.splitReturn == s.dev.splitReturn;
    }
  }

  lemma WorkLeavesSnapshot(s: System)
    ensures WorkStep(s).dev.snapSize == s.dev.snapSize && WorkStep(s).dev.snapAddr == s.dev.snapAddr
  {
  }

  lemma StepLeavesSnapshot(s: System, a: Action)
    requires LeavesSnapshot(a)
    ensures Step(s, a).dev.snapSize == s.dev.snapSize && Step(s, a).dev.snapAddr == s.dev.snapAddr
  {
    if a.Work? {
      WorkLeavesSnapshot(s);
    }
  }

  lemma {:induction false} SplitWriteSurvives(s: System, acts: seq<Action>)
    requires forall a :: a in acts ==> LeavesRqTail(a)
    ensures Exec(s, acts).dev.splitWrite == s.dev.splitWrite
    ensures Exec(s, acts).h.submitted == s.h.submitted
    decreases acts
  {
    if acts != [] {
      assert LeavesRqTail(acts[0]);
      StepLeavesSplitWrite(s, acts[0]);
      SplitWriteSurvives(Step(s, acts[0]), acts[1..]);
    }
  }

  lemma {:induction false} SplitReturnSurvives(s: System, acts: seq<Action>)
    requires forall a :: a in acts ==> LeavesCqHead(a)
    ensures Exec(s, acts).dev.splitReturn == s.dev.splitReturn
    ensures Exec(s, acts).h.reaped == s.h.reaped
    decreases acts
  {
    if acts != [] {
      assert LeavesCqHead(acts[0]);
      StepLeavesSplitReturn(s, acts[0]);
      SplitReturnSurvives(Step(s, acts[0]), acts[1..]);
    }
  }

  lemma {:induction false} SnapshotSurvives(s: System, acts: seq<Action>)
    requires forall a :: a in acts ==> LeavesSnapshot(a)
    ensures Exec(s, acts).dev.snapSize == s.dev.snapSize && Exec(s, acts).dev.snapAddr == s.dev.snapAddr
    decreases acts
  {
    if acts != [] {
      assert LeavesSnapshot(acts[0]);
      StepLeavesSnapshot(s, acts[0]);
      SnapshotSurvives(Step(s, acts[0]), acts[1..]);
    }
  }

  lemma HighHalfSubmits(s: System, v: u64)
    requires s.dev.splitWrite == Low32(v) && !HoldsLock(s.pc)
    ensures var s' := Step(s, Write(RqTailHi, Shr32(v)));
            && s'.h.submitted == s.h.submitted + [v]
            && s'.dev.rq == InsertRing(s.dev.rq, v)
            && s'.h.accepted == if Accepts(s.dev.rq) then s.h.accepted + [v] else s.h.accepted
  {
    SplitThenJoin(v);
  }

  /** An address written in two halves is submitted as exactly that address, whatever anyone
      does between the halves, short of another write to the same register pair. */
  lemma WrittenHalvesSubmit(s: System, mid: seq<Action>, v: u64)
    requires forall a :: a in mid ==> LeavesRqTail(a)
    requires var s1 := Exec(Step(s, Write(RqTail, Low32(v))), mid); !HoldsLock(s1.pc)
    ensures var s1 := Exec(Step(s, Write(RqTail, Low32(v))), mid);
            var s2 := Step(s1, Write(RqTailHi, Shr32(v)));
            && s2.h.submitted == s.h.submitted + [v]
            && s2.dev.rq == InsertRing(s1.dev.rq, v)
            && s2.h.accepted == if Accepts(s1.dev.rq) then s1.h.accepted + [v] else s1.h.accepted
  {
    SplitWriteSurvives(Step(s, Write(RqTail, Low32(v))), mid);
    HighHalfSubmits(Exec(Step(s, Write(RqTail, Low32(v))), mid), v);
  }

  /** The two words read from CQ_HEAD make up exactly the address popped by the first read,
      whatever anyone does in between, short of another read of the same pair. */
  lemma ReadHalvesJoin(s: System, mid: seq<Action>)
    requires forall a :: a in mid ==> LeavesCqHead(a)
    requires !HoldsLock(s.pc)
    ensures var lo := Low32(ReadValue(s.dev, CqHead));
            var s1 := Exec(Step(s, Read(CqHead)), mid);
            var hi := Low32(ReadValue(s1.dev, CqHeadHi));
            Joined64(lo, hi) == PopValue(s.dev.cq)
  {
    SplitReturnSurvives(Step(s, Read(CqHead)), mid);
  }

  lemma HighHalfConfigures(s: System, addr: u64)
    requires s.dev.snapAddr == Low32(addr)
    ensures var d := Step(s, Write(SnapshotAddrHi, Shr32(addr))).dev;
            d.snapAddr == addr && d.snapSize == s.dev.snapSize
  {
    SplitThenJoin(addr);
  }

  /** The address pair of the snapshot takes a whole 64-bit address whatever it held before,
      because the low half overwrites and only the high half is OR-ed in. */
  lemma WrittenHalvesConfigure(s: System, mid: seq<Action>, addr: u64)
    requires forall a :: a in mid ==> LeavesSnapshot(a)
    ensures var s1 := Exec(Step(s, Write(SnapshotAddr, Low32(addr))), mid);
            var d := Step(s1, Write(SnapshotAddrHi, Shr32(addr))).dev;
            d.snapAddr == addr && d.snapSize == s.dev.snapSize
  {
    var s0 := Step(s, Write(SnapshotAddr, Low32(addr)));
    SnapshotSurvives(s0, mid);
    HighHalfConfigures(Exec(s0, mid), addr);
  }
}
