/** What the clean-up does to guest memory: what is reported complete has been restored, and
    nothing else is touched. */
module CleanMemory {
  import opened Words
  import opened RingQueue
  import opened Device
  import opened Protocol
  import opened Conservation

  // ----- Nothing outside submitted regions -----

  /** Every used RQ slot and everything the thread took came from a host write. */
  ghost predicate Provenance(s: System) {
    && (forall k :: 0 <= k < |s.dev.rq.buffer| ==> s.dev.rq.buffer[k] == 0 || s.dev.rq.buffer[k] in s.h.submitted)
    && (forall x :: x in InFlight(s.pc) ==> x in s.h.submitted)
  }

  lemma WorkHasProvenance(s: System)
    requires Provenance(s)
    ensures Provenance(WorkStep(s))
  {
    assert s.pc.Popping? ==> PopValue(s.dev.rq) == 0 || PopValue(s.dev.rq) in s.h.submitted;
  }

  lemma WriteHasProvenance(s: System, r: Reg, val: u64)
    requires Provenance(s)
    ensures Provenance(WriteStep(s, r, val))
  {
    var s' := WriteStep(s, r, val);
    if r == RqTailHi && !HoldsLock(s.pc) {
      assert s'.h.submitted == s.h.submitted + [Assembled(s.dev, val)];
    } else {
      assert s'.h.submitted == s.h.submitted && s'.dev.rq == s.dev.rq;
    }
  }

  lemma ProvenanceStep(s: System, a: Action)
    requires Provenance(s)
    ensures Provenance(Step(s, a))
  {
    match a
    case Work => WorkHasProvenance(s);
    case Write(r, val) => WriteHasProvenance(s, r, val);
    case _ =>
      var s' := Step(s, a);
      assert s'.dev.rq == s.dev.rq && InFlight(s'.pc) == InFlight(s.pc) && s'.h.submitted == s.h.submitted;
  }

  lemma {:induction false} ProvenanceAlways(s: System, acts: seq<Action>)
    requires Provenance(s)
    ensures Provenance(Exec(s, acts))
    decreases acts
  {
    if acts != [] {
      ProvenanceStep(s, acts[0]);
      ProvenanceAlways(Step(s, acts[0]), acts[1..]);
    }
  }

  lemma ReachableHasProvenance(s: System)
    requires Reachable(s)
    ensures Provenance(s)
  {
    var n: nat, mem, emulator, cleanState, acts :| n > 0 && s == Exec(Boot(n, mem, emulator, cleanState), acts);
    ProvenanceAlways(Boot(n, mem, emulator, cleanState), acts);
  }

  /** A byte of guest memory changes by the guest's own store to it, or by the thread and then
      inside the region of an address the host submitted. This needs no assumption on the host. */
  lemma OnlySubmittedRegionsChange(s: System, a: Action, i: nat)
    requires Reachable(s) && i < |s.dev.mem|
    ensures |Step(s, a).dev.mem| == |s.dev.mem|
    ensures Step(s, a).dev.mem[i] != s.dev.mem[i] ==>
      || (a.Store? && a.addr == i)
      || (a.Work? && s.pc.Cleaning? && s.pc.v in s.h.submitted && s.pc.v <= i < s.pc.v + s.dev.snapSize)
  {
    ReachableHasProvenance(s);
    if !a.Store? && !(a.Work? && s.pc.Cleaning?) {
      assert Step(s, a).dev.mem == s.dev.mem;
    }
  }

  // ----- Clean before complete -----

  /** The region named by v holds the snapshot, byte by byte, as far as it lies in guest memory. */
  ghost predicate CleanAt(d: Device, v: u64) {
    forall k :: v <= k < v + d.snapSize && k < |d.mem| ==>
      d.mem[k] == if d.snapAddr + (k - v) < |d.emulator| then d.emulator[d.snapAddr + (k - v)] else 0
  }

  /** Regions that are the same or do not overlap. */
  predicate Compatible(v: u64, w: u64, size: nat) {
    v == w || v + size <= w || w + size <= v
  }

  /** v has been submitted and accepted, and not yet reaped or refused. */
  predicate IsOut(s: System, v: u64) {
    v in Contents(s.dev.cq) || v in InFlight(s.pc) || v in Contents(s.dev.rq)
  }

  /** The address a step newly puts out, if any. */
  predicate Submits(s: System, a: Action, v: u64) {
    a.Write? && a.r == RqTailHi && !HoldsLock(s.pc) && Accepts(s.dev.rq) && v == Assembled(s.dev, a.val)
  }

  /** What a host must respect to get clean virtines back: it leaves the regions it has handed
      over alone, hands over only regions that are equal to or apart from those, and does not
      reconfigure the snapshot while any are out. */
  ghost predicate Disciplined(s: System, a: Action) {
    match a
    case Store(i, _) => forall v: u64 :: IsOut(s, v) ==> !(v <= i < v + s.dev.snapSize)
    case Write(r, val) =>
      && (r == SnapshotSize || r == SnapshotAddr || r == SnapshotAddrHi ==> forall v: u64 :: !IsOut(s, v))
      && (Submits(s, a, Assembled(s.dev, val)) ==>
            && Assembled(s.dev, val) != 0
            && forall w: u64 :: IsOut(s, w) ==> Compatible(Assembled(s.dev, val), w, s.dev.snapSize))
    case _ => true
  }

  ghost predicate DisciplinedRun(s: System, acts: seq<Action>)
    decreases acts
  {
    acts != [] ==> Disciplined(s, acts[0]) && DisciplinedRun(Step(s, acts[0]), acts[1..])
  }

  ghost predicate QueuesInOrder(s: System) {
    CqInOrder(s) && 0 !in s.h.accepted && RqInOrder(s)
  }

  lemma QueuesStayInOrder(s: System, a: Action)
    requires QueuesInOrder(s) && Disciplined(s, a)
    ensures QueuesInOrder(Step(s, a))
  {
    CqStaysInOrder(s, a);
    RqStaysInOrder(s, a);
    StepDecidesOnce(s, a);
  }

  /** Members of a queue after a pop or an insert. */
  lemma MembersMove(q: Ring, x: u64, v: u64)
    requires Sound(q) && x != 0
    ensures v in Contents(PopRing(q)) ==> v in Contents(q)
    ensures v in Contents(InsertRing(q, x)) ==> v in Contents(q) || v == x
    ensures PopValue(q) != 0 ==> PopValue(q) in Contents(q)
  {
    PopIsFifo(q);
    InsertIsFifo(q, x);
  }

  /** The address a step newly makes complete, if any. */
  predicate Restores(s: System, a: Action, v: u64) {
    a.Work? && s.pc.Cleaning? && v == s.pc.v
  }

  /** What has been restored and not yet reaped. */
  predicate IsDone(s: System, v: u64) {
    v in Contents(s.dev.cq) || (s.pc.Completing? && v == s.pc.v)
  }

  /** Outstanding addresses only move on through the queues. */
  ghost predicate MovesOn(s: System, a: Action, v: u64) {
    && (IsOut(Step(s, a), v) ==> IsOut(s, v) || Submits(s, a, v))
    && (IsDone(Step(s, a), v) ==> IsDone(s, v) || Restores(s, a, v))
  }

  lemma QueueWorkMovesOn(s: System, v: u64)
    requires QueuesInOrder(s) && (s.pc.Popping? || s.pc.Completing?)
    ensures MovesOn(s, Work, v)
  {
    if s.pc.Popping? {
      MembersMove(s.dev.rq, 1, v);
    } else {
      MembersMove(s.dev.cq, s.pc.v, v);
    }
  }

  lemma WorkMovesOn(s: System, v: u64)
    requires QueuesInOrder(s)
    ensures MovesOn(s, Work, v)
  {
    if s.pc.Popping? || s.pc.Completing? {
      QueueWorkMovesOn(s, v);
    } else {
      var s' := WorkStep(s);
      assert s'.dev.cq == s.dev.cq && s'.dev.rq == s.dev.rq;
    }
  }

  lemma ReadMovesOn(s: System, r: Reg, v: u64)
    requires QueuesInOrder(s)
    ensures MovesOn(s, Read(r), v)
  {
    MembersMove(s.dev.cq, 1, v);
    var s' := ReadStep(s, r);
    assert s'.pc == s.pc && s'.dev.rq == s.dev.rq && (s'.dev.cq == s.dev.cq || s'.dev.cq == PopRing(s.dev.cq));
  }

  lemma WriteMovesOn(s: System, r: Reg, val: u64, v: u64)
    requires QueuesInOrder(s) && Disciplined(s, Write(r, val))
    ensures MovesOn(s, Write(r, val), v)
  {
    var s' := WriteStep(s, r, val);
    assert s'.pc == s.pc && s'.dev.cq == s.dev.cq;
    if Submits(s, Write(r, val), Assembled(s.dev, val)) {
      MembersMove(s.dev.rq, Assembled(s.dev, val), v);
    } else {
      assert s'.dev.rq == s.dev.rq;
    }
  }

  lemma StepMovesOn(s: System, a: Action, v: u64)
    requires QueuesInOrder(s) && Disciplined(s, a)
    ensures MovesOn(s, a, v)
  {
    match a
    case Work => WorkMovesOn(s, v);
    case Read(r) => ReadMovesOn(s, r, v);
    case Write(r, val) => WriteMovesOn(s, r, val, v);
    case _ =>
      assert Step(s, a).dev.cq == s.dev.cq && Step(s, a).dev.rq == s.dev.rq;
      assert InFlight(Step(s, a).pc) == InFlight(s.pc) && Step(s, a).pc.Completing? == s.pc.Completing?;
  }

  // ----- The invariant -----

  ghost predicate SameImage(d: Device, d': Device) {
    d'.snapSize == d.snapSize && d'.snapAddr == d.snapAddr && d'.emulator == d.emulator
  }

  ghost predicate PairwiseCompatible(s: System) {
    forall v: u64, w: u64 :: IsOut(s, v) && IsOut(s, w) ==> Compatible(v, w, s.dev.snapSize)
  }

  ghost predicate DoneIsClean(s: System) {
    forall v: u64 :: IsDone(s, v) ==> CleanAt(s.dev, v)
  }

  ghost predicate CleanSoFar(s: System) {
    QueuesInOrder(s) && PairwiseCompatible(s) && DoneIsClean(s)
  }

  /** While anything is out, no disciplined step changes the snapshot. */
  lemma WorkKeepsImage(s: System)
    ensures SameImage(s.dev, WorkStep(s).dev)
  {
  }

  lemma ImageIsStable(s: System, a: Action, v: u64)
    requires Disciplined(s, a) && IsOut(s, v)
    ensures SameImage(s.dev, Step(s, a).dev)
  {
    match a
    case Work => WorkKeepsImage(s);
    case Read(r) => assert SameImage(s.dev, ReadStep(s, r).dev);
    case Write(_, _) =>
      assert a.r != SnapshotSize && a.r != SnapshotAddr && a.r != SnapshotAddrHi;
      assert SameImage(s.dev, WriteStep(s, a.r, a.val).dev);
    case _ =>
  }

  lemma PairsStayCompatible(s: System, a: Action)
    requires CleanSoFar(s) && Disciplined(s, a)
    ensures PairwiseCompatible(Step(s, a))
  {
    var s' := Step(s, a);
    forall v: u64, w: u64 | IsOut(s', v) && IsOut(s', w)
      ensures Compatible(v, w, s'.dev.snapSize)
    {
      StepMovesOn(s, a, v);
      StepMovesOn(s, a, w);
      if IsOut(s, v) {
        ImageIsStable(s, a, v);
      } else if IsOut(s, w) {
        ImageIsStable(s, a, w);
      }
    }
  }

  /** A restore leaves regions that are the same or apart clean. */
  lemma RestoreKeepsClean(d: Device, w: u64, v: u64)
    requires Compatible(v, w, d.snapSize) && (v == w || CleanAt(d, v))
    ensures CleanAt(Restored(d, w), v)
  {
  }

  /** So does a store outside. */
  lemma StoreKeepsClean(d: Device, d': Device, v: u64)
    requires CleanAt(d, v) && SameImage(d, d') && |d'.mem| == |d.mem|
    requires forall i :: v <= i < v + d.snapSize && i < |d.mem| ==> d'.mem[i] == d.mem[i]
    ensures CleanAt(d', v)
  {
  }

  lemma OneStaysClean(s: System, a: Action, v: u64)
    requires CleanSoFar(s) && Disciplined(s, a)
    requires IsDone(s, v) || Restores(s, a, v)
    ensures CleanAt(Step(s, a).dev, v)
  {
    if a.Work? && s.pc.Cleaning? {
      assert IsOut(s, v) && IsOut(s, s.pc.v);
      RestoreKeepsClean(s.dev, s.pc.v, v);
    } else {
      ImageIsStable(s, a, v);
      MemoryOutsideStays(s, a, v);
      StoreKeepsClean(s.dev, Step(s, a).dev, v);
    }
  }

  lemma MemoryOutsideStays(s: System, a: Action, v: u64)
    requires Disciplined(s, a) && IsOut(s, v) && !(a.Work? && s.pc.Cleaning?)
    ensures var m, m' := s.dev.mem, Step(s, a).dev.mem;
            |m'| == |m| && forall i :: v <= i < v + s.dev.snapSize && i < |m| ==> m'[i] == m[i]
  {
    if a.Store? {
      assert !(v <= a.addr < v + s.dev.snapSize);
    } else {
      assert Step(s, a).dev.mem == s.dev.mem;
    }
  }

  lemma CleanStep(s: System, a: Action)
    requires CleanSoFar(s) && Disciplined(s, a)
    ensures CleanSoFar(Step(s, a))
  {
    QueuesStayInOrder(s, a);
    PairsStayCompatible(s, a);
    forall v: u64 | IsDone(Step(s, a), v)
      ensures CleanAt(Step(s, a).dev, v)
    {
      StepMovesOn(s, a, v);
      OneStaysClean(s, a, v);
    }
  }

  lemma {:induction false} CleanAlways(s: System, acts: seq<Action>)
    requires CleanSoFar(s) && DisciplinedRun(s, acts)
    ensures CleanSoFar(Exec(s, acts))
    decreases acts
  {
    if acts != [] {
      CleanStep(s, acts[0]);
      CleanAlways(Step(s, acts[0]), acts[1..]);
    }
  }

  lemma ReadLeavesClean(s: System, v: u64)
    requires CleanAt(s.dev, v)
    ensures CleanAt(Step(s, Read(CqHead)).dev, v)
  {
    StoreKeepsClean(s.dev, Step(s, Read(CqHead)).dev, v);
  }

  /** Under a disciplined host, and whatever the interleaving, every address in the CQ names
      memory equal to the snapshot, and so does the address a read of CQ_HEAD returns, at the
      moment it returns it. */
  lemma CleanBeforeComplete(n: nat, mem: seq<u8>, emulator: seq<u8>, cleanState: u64, acts: seq<Action>, v: u64)
    requires n > 0
    requires DisciplinedRun(Boot(n, mem, emulator, cleanState), acts)
    ensures var s := Exec(Boot(n, mem, emulator, cleanState), acts);
            && (v in Contents(s.dev.cq) ==> CleanAt(s.dev, v))
            && (v != 0 && v == PopValue(s.dev.cq) ==> CleanAt(Step(s, Read(CqHead)).dev, v))
  {
    var s0 := Boot(n, mem, emulator, cleanState);
    EmptyRingIsSound(n);
    CleanAlways(s0, acts);
    var s := Exec(s0, acts);
    MembersMove(s.dev.cq, 1, v);
    if CleanAt(s.dev, v) {
      ReadLeavesClean(s, v);
    }
  }

  /** The same byte by byte: byte i of a region reported complete, or just reaped, is byte i of the
      emulator's memory from the snapshot address on, or 0 where that memory ends. */
  lemma ReportedBytes(n: nat, mem: seq<u8>, emulator: seq<u8>, cleanState: u64, acts: seq<Action>, v: u64, i: nat)
    requires n > 0
    requires DisciplinedRun(Boot(n, mem, emulator, cleanState), acts)
    requires var d := Exec(Boot(n, mem, emulator, cleanState), acts).dev;
             && (v in Contents(d.cq) || (v != 0 && v == PopValue(d.cq)))
             && i < d.snapSize && v + i < |d.mem|
    ensures var d := Exec(Boot(n, mem, emulator, cleanState), acts).dev;
            && d.emulator == emulator
            && d.mem[v + i] == if d.snapAddr + i < |emulator| then emulator[d.snapAddr + i] else 0
  {
    var s0 := Boot(n, mem, emulator, cleanState);
    CleanBeforeComplete(n, mem, emulator, cleanState, acts, v);
    EmulatorStays(s0, acts);
    var d := Exec(s0, acts).dev;
    assert Step(Exec(s0, acts), Read(CqHead)).dev.mem == d.mem;
    CleanByte(if v in Contents(d.cq) then d else Step(Exec(s0, acts), Read(CqHead)).dev, v, v + i);
  }

  lemma CleanByte(d: Device, v: u64, k: nat)
    requires CleanAt(d, v) && v <= k < v + d.snapSize && k < |d.mem|
    ensures d.mem[k] == if d.snapAddr + (k - v) < |d.emulator| then d.emulator[d.snapAddr + (k - v)] else 0
  {
  }

  lemma EmulatorStep(s: System, a: Action)
    ensures Step(s, a).dev.emulator == s.dev.emulator
  {
    match a
    case Work => assert WorkStep(s).dev.emulator == s.dev.emulator;
    case Read(r) => assert ReadStep(s, r).dev.emulator == s.dev.emulator;
    case Write(r, val) => assert WriteStep(s, r, val).dev.emulator == s.dev.emulator;
    case _ =>
  }

  lemma {:induction false} EmulatorStays(s: System, acts: seq<Action>)
    ensures Exec(s, acts).dev.emulator == s.dev.emulator
    decreases acts
  {
    if acts != [] {
      EmulatorStep(s, acts[0]);
      EmulatorStays(Step(s, acts[0]), acts[1..]);
    }
  }
}
