/** Where every submitted address is, in every reachable state. */
module Conservation {
  import opened Words
  import opened RingQueue
  import opened Device
  import opened Protocol

  // ----- Subsequences -----

  /** a can be read off b from left to right by skipping elements. */
  ghost predicate Subsequence(a: seq<u64>, b: seq<u64>)
    decreases |b|
  {
    || a == []
    || (b != [] && Subsequence(a, b[..|b| - 1]))
    || (b != [] && a[|a| - 1] == b[|b| - 1] && Subsequence(a[..|a| - 1], b[..|b| - 1]))
  }

  lemma SubsequenceExtend(a: seq<u64>, b: seq<u64>, x: u64)
    requires Subsequence(a, b)
    ensures Subsequence(a, b + [x]) && Subsequence(a + [x], b + [x])
  {
    assert (a + [x])[..|a|] == a && (b + [x])[..|b|] == b;
  }

  lemma {:induction false} SubsequenceTransitive(a: seq<u64>, b: seq<u64>, c: seq<u64>)
    requires Subsequence(a, b) && Subsequence(b, c)
    ensures Subsequence(a, c)
    decreases |b| + |c|
  {
    if a != [] {
      var b', c' := b[..|b| - 1], c[..|c| - 1];
      if Subsequence(b, c') {
        SubsequenceTransitive(a, b, c');
      } else if Subsequence(a, b') {
        SubsequenceTransitive(a, b', c');
      } else {
        SubsequenceTransitive(a[..|a| - 1], b', c');
      }
    }
  }

  lemma {:induction false} SubsequenceConcat(a: seq<u64>, b: seq<u64>, t: seq<u64>)
    requires Subsequence(a, b)
    ensures Subsequence(a + t, b + t)
    decreases |t|
  {
    if t == [] {
      assert a + t == a && b + t == b;
    } else {
      var t', x := t[..|t| - 1], t[|t| - 1];
      SubsequenceConcat(a, b, t');
      SubsequenceExtend(a + t', b + t', x);
      assert a + t == a + t' + [x] && b + t == b + t' + [x];
    }
  }

  // ----- One queue and the addresses that went in and out -----

  /** The ring works as a queue and holds exactly what went in and has not come out. */
  ghost predicate InOrder(q: Ring, ins: seq<u64>, outs: seq<u64>) {
    Sound(q) && ins == outs + Contents(q)
  }

  /** Nothing happens to a queue, or x is offered to it, or it is popped. */
  ghost predicate QueueMove(q: Ring, ins: seq<u64>, outs: seq<u64>, x: u64, q': Ring, ins': seq<u64>, outs': seq<u64>) {
    || (q' == q && ins' == ins && outs' == outs)
    || (q' == InsertRing(q, x) && ins' == (if Accepts(q) then ins + [x] else ins) && outs' == outs)
    || (q' == PopRing(q) && ins' == ins && outs' == if PopValue(q) != 0 then outs + [PopValue(q)] else outs)
  }

  lemma InsertKeepsOrder(q: Ring, ins: seq<u64>, outs: seq<u64>, x: u64)
    requires InOrder(q, ins, outs) && x != 0
    ensures InOrder(InsertRing(q, x), if Accepts(q) then ins + [x] else ins, outs)
  {
    MeetingPointersDecide(q);
    InsertIsFifo(q, x);
  }

  lemma PopKeepsOrder(q: Ring, ins: seq<u64>, outs: seq<u64>)
    requires InOrder(q, ins, outs)
    ensures InOrder(PopRing(q), ins, if PopValue(q) != 0 then outs + [PopValue(q)] else outs)
  {
    PopIsFifo(q);
  }

  lemma MoveKeepsOrder(q: Ring, ins: seq<u64>, outs: seq<u64>, x: u64, q': Ring, ins': seq<u64>, outs': seq<u64>)
    requires InOrder(q, ins, outs) && x != 0
    requires QueueMove(q, ins, outs, x, q', ins', outs')
    ensures InOrder(q', ins', outs')
  {
    InsertKeepsOrder(q, ins, outs, x);
    PopKeepsOrder(q, ins, outs);
  }

  /** The non-zero address that a step may offer to the CQ. */
  function OfferedToCq(s: System): u64 {
    if s.pc.Completing? && s.pc.v != 0 then s.pc.v else 1
  }

  /** The non-zero address that a step may offer to the RQ. */
  function OfferedToRq(s: System, a: Action): u64 {
    if a.Write? && Assembled(s.dev, a.val) != 0 then Assembled(s.dev, a.val) else 1
  }

  ghost predicate MovesCq(s: System, s': System) {
    && QueueMove(s.dev.cq, s.h.completed, s.h.reaped, OfferedToCq(s), s'.dev.cq, s'.h.completed, s'.h.reaped)
    && |s'.dev.cq.buffer| == |s.dev.cq.buffer|
  }

  lemma WorkMovesCq(s: System)
    requires 0 !in InFlight(s.pc)
    ensures MovesCq(s, WorkStep(s))
  {
  }

  lemma ReadMovesCq(s: System, r: Reg)
    ensures MovesCq(s, ReadStep(s, r))
  {
  }

  lemma StepMovesCq(s: System, a: Action)
    requires 0 !in InFlight(s.pc)
    ensures MovesCq(s, Step(s, a))
  {
    match a
    case Work => WorkMovesCq(s);
    case Read(r) => ReadMovesCq(s, r);
    case _ => assert Step(s, a).dev.cq == s.dev.cq && Step(s, a).h.completed == s.h.completed;
  }

  ghost predicate MovesRq(s: System, a: Action, s': System) {
    QueueMove(s.dev.rq, s.h.accepted, s.h.taken, OfferedToRq(s, a), s'.dev.rq, s'.h.accepted, s'.h.taken)
  }

  lemma WriteMovesRq(s: System, r: Reg, val: u64)
    requires 0 !in WriteStep(s, r, val).h.accepted
    ensures MovesRq(s, Write(r, val), WriteStep(s, r, val))
  {
    if r == RqTailHi && !HoldsLock(s.pc) && Accepts(s.dev.rq) {
      assert WriteStep(s, r, val).h.accepted[|s.h.accepted|] == Assembled(s.dev, val);
    }
  }

  lemma WorkMovesRq(s: System)
    ensures MovesRq(s, Work, WorkStep(s))
  {
  }

  lemma StepMovesRq(s: System, a: Action)
    requires 0 !in Step(s, a).h.accepted
    ensures MovesRq(s, a, Step(s, a))
  {
    match a
    case Work => WorkMovesRq(s);
    case Write(r, val) => WriteMovesRq(s, r, val);
    case _ => assert Step(s, a).dev.rq == s.dev.rq && Step(s, a).h.accepted == s.h.accepted;
  }

  // ----- What holds whatever the host submits -----

  /** What the thread has popped it has offered to the CQ or still holds. */
  ghost predicate InHand(s: System) {
    0 !in InFlight(s.pc) && s.h.taken == s.h.offered + InFlight(s.pc)
  }

  /** The CQ is a queue at all times, because it is never offered a 0. */
  ghost predicate CqInOrder(s: System) {
    && |s.dev.rq.buffer| == |s.dev.cq.buffer|
    && InHand(s)
    && InOrder(s.dev.cq, s.h.completed, s.h.reaped)
  }

  lemma InHandStep(s: System, a: Action)
    requires InHand(s)
    ensures InHand(Step(s, a)) && |Step(s, a).dev.rq.buffer| == |s.dev.rq.buffer|
  {
    match a
    case Work => assert InHand(WorkStep(s));
    case Read(r) => assert InHand(ReadStep(s, r));
    case Write(r, val) => assert InHand(WriteStep(s, r, val));
    case _ =>
  }

  lemma CqStaysInOrder(s: System, a: Action)
    requires CqInOrder(s)
    ensures CqInOrder(Step(s, a))
  {
    var h, s' := s.h, Step(s, a);
    InHandStep(s, a);
    StepMovesCq(s, a);
    MoveKeepsOrder(s.dev.cq, h.completed, h.reaped, OfferedToCq(s), s'.dev.cq, s'.h.completed, s'.h.reaped);
  }

  /** One queue's decisions: what it took is in order, and with what it refused adds up to all it was offered. */
  ghost predicate Decided(all: seq<u64>, took: seq<u64>, refused: seq<u64>) {
    multiset(all) == multiset(took) + multiset(refused) && Subsequence(took, all)
  }

  lemma OneMoreDecided(all: seq<u64>, took: seq<u64>, refused: seq<u64>, x: u64)
    requires Decided(all, took, refused)
    ensures Decided(all + [x], took + [x], refused) && Decided(all + [x], took, refused + [x])
  {
    SubsequenceExtend(took, all, x);
  }

  ghost predicate Ledger(h: History) {
    Decided(h.submitted, h.accepted, h.refusedRq) && Decided(h.offered, h.completed, h.refusedCq)
  }

  /** all', took', refused' record the same decisions, or one more. */
  predicate OneDecisionLater(all: seq<u64>, took: seq<u64>, refused: seq<u64>, x: u64,
                             all': seq<u64>, took': seq<u64>, refused': seq<u64>) {
    || (all' == all && took' == took && refused' == refused)
    || (all' == all + [x] && took' == took + [x] && refused' == refused)
    || (all' == all + [x] && took' == took && refused' == refused + [x])
  }

  lemma StepDecidesOnce(s: System, a: Action)
    ensures var h, h' := s.h, Step(s, a).h;
            && OneDecisionLater(h.submitted, h.accepted, h.refusedRq, if a.Write? then Assembled(s.dev, a.val) else 0,
                                h'.submitted, h'.accepted, h'.refusedRq)
            && OneDecisionLater(h.offered, h.completed, h.refusedCq, if s.pc.Completing? then s.pc.v else 0,
                                h'.offered, h'.completed, h'.refusedCq)
  {
  }

  lemma LedgerStaysBalanced(s: System, a: Action)
    requires Ledger(s.h)
    ensures Ledger(Step(s, a).h)
  {
    var h := s.h;
    StepDecidesOnce(s, a);
    OneMoreDecided(h.submitted, h.accepted, h.refusedRq, if a.Write? then Assembled(s.dev, a.val) else 0);
    OneMoreDecided(h.offered, h.completed, h.refusedCq, if s.pc.Completing? then s.pc.v else 0);
  }

  // ----- What needs an RQ that never took a 0 -----

  ghost predicate RqInOrder(s: System) {
    0 !in s.h.accepted ==> InOrder(s.dev.rq, s.h.accepted, s.h.taken)
  }

  lemma SubmittedGrows(s: System, a: Action)
    ensures s.h.submitted <= Step(s, a).h.submitted && s.h.accepted <= Step(s, a).h.accepted
    ensures 0 !in Step(s, a).h.accepted ==> 0 !in s.h.accepted
  {
  }

  lemma RqStaysInOrder(s: System, a: Action)
    requires RqInOrder(s)
    ensures RqInOrder(Step(s, a))
  {
    var h, s' := s.h, Step(s, a);
    SubmittedGrows(s, a);
    if 0 !in s'.h.accepted {
      StepMovesRq(s, a);
      MoveKeepsOrder(s.dev.rq, h.accepted, h.taken, OfferedToRq(s, a), s'.dev.rq, s'.h.accepted, s'.h.taken);
    }
  }

  // ----- All of it, for every schedule -----

  ghost predicate Inv(s: System) {
    CqInOrder(s) && Ledger(s.h) && RqInOrder(s)
  }

  lemma InvStep(s: System, a: Action)
    requires Inv(s)
    ensures Inv(Step(s, a))
  {
    CqStaysInOrder(s, a);
    LedgerStaysBalanced(s, a);
    RqStaysInOrder(s, a);
  }

  lemma {:induction false} InvAlways(s: System, acts: seq<Action>)
    requires Inv(s)
    ensures Inv(Exec(s, acts))
    decreases acts
  {
    if acts != [] {
      InvStep(s, acts[0]);
      InvAlways(Step(s, acts[0]), acts[1..]);
    }
  }

  lemma BootHasInv(n: nat, mem: seq<u8>, emulator: seq<u8>, cleanState: u64)
    requires n > 0
    ensures Inv(Boot(n, mem, emulator, cleanState))
  {
    EmptyRingIsSound(n);
  }

  lemma ReachableHasInv(s: System)
    requires Reachable(s)
    ensures Inv(s)
  {
    var n: nat, mem, emulator, cleanState, acts :| n > 0 && s == Exec(Boot(n, mem, emulator, cleanState), acts);
    BootHasInv(n, mem, emulator, cleanState);
    InvAlways(Boot(n, mem, emulator, cleanState), acts);
  }

  lemma StepRefusesCq(s: System, a: Action)
    ensures Step(s, a).h.refusedCq != s.h.refusedCq <==> a.Work? && s.pc.Completing? && !Accepts(s.dev.cq)
  {
    match a
    case Work => assert s.pc.Completing? && !Accepts(s.dev.cq) ==> |WorkStep(s).h.refusedCq| == |s.h.refusedCq| + 1;
    case Read(r) => assert ReadStep(s, r).h.refusedCq == s.h.refusedCq;
    case Write(r, val) => assert WriteStep(s, r, val).h.refusedCq == s.h.refusedCq;
    case _ =>
  }

  /** Which step refuses an address: the one that meets a queue with no free slot. The CQ side
      needs no assumption about the host. */
  lemma CqRefusesExactlyWhenFull(s: System, a: Action)
    requires Reachable(s)
    ensures Step(s, a).h.refusedCq != s.h.refusedCq
       <==> a.Work? && s.pc.Completing? && AllSlots(s.dev.cq, true)
  {
    ReachableHasInv(s);
    StepRefusesCq(s, a);
    MeetingPointersDecide(s.dev.cq);
    SlotsFullIff(s.dev.cq);
  }

  /** The addresses a step makes the RQ refuse are those of an upper-half write it does not accept. */
  lemma StepRefusesRq(s: System, a: Action)
    ensures Step(s, a).h.refusedRq != s.h.refusedRq
       <==> a.Write? && a.r == RqTailHi && !HoldsLock(s.pc) && !Accepts(s.dev.rq)
  {
    match a
    case Work => assert WorkStep(s).h.refusedRq == s.h.refusedRq;
    case Read(r) => assert ReadStep(s, r).h.refusedRq == s.h.refusedRq;
    case Write(r, val) =>
      var h' := WriteStep(s, r, val).h;
      assert h'.refusedRq == s.h.refusedRq || |h'.refusedRq| == |s.h.refusedRq| + 1;
    case _ =>
  }

  lemma RqRefusesExactlyWhenFull(s: System, a: Action)
    requires Reachable(s) && 0 !in s.h.accepted
    ensures Step(s, a).h.refusedRq != s.h.refusedRq
       <==> a.Write? && a.r == RqTailHi && !HoldsLock(s.pc) && AllSlots(s.dev.rq, true)
  {
    ReachableHasInv(s);
    StepRefusesRq(s, a);
    MeetingPointersDecide(s.dev.rq);
    SlotsFullIff(s.dev.rq);
  }

  lemma SplitAccounts(s: System)
    requires CqInOrder(s) && RqInOrder(s) && 0 !in s.h.accepted
    ensures var rest := InFlight(s.pc) + Contents(s.dev.rq);
            s.h.accepted == s.h.offered + rest && s.h.reaped + Outstanding(s) == s.h.completed + rest
  {
  }

  /** In every reachable state in which the RQ has taken no 0, every submitted address is in
      exactly one place or was refused by one of the queues, and what was neither refused nor
      lost is in the order in which it was submitted. */
  lemma EveryAddressAccountedFor(s: System)
    requires Reachable(s) && 0 !in s.h.accepted
    ensures multiset(s.h.submitted) ==
            multiset(s.h.reaped) + multiset(Contents(s.dev.cq)) + multiset(InFlight(s.pc))
            + multiset(Contents(s.dev.rq)) + multiset(s.h.refusedRq) + multiset(s.h.refusedCq)
    ensures Subsequence(s.h.reaped + Outstanding(s), s.h.submitted)
  {
    ReachableHasInv(s);
    SplitAccounts(s);
    SubsequenceConcat(s.h.completed, s.h.offered, InFlight(s.pc) + Contents(s.dev.rq));
    SubsequenceTransitive(s.h.reaped + Outstanding(s), s.h.accepted, s.h.submitted);
  }

  // ----- Whatever the host submits -----

  /** How often each non-zero address occurs. */
  function NonZero(q: seq<u64>): multiset<u64> {
    multiset(q)[0 := 0]
  }

  lemma NonZeroAppend(q: seq<u64>, x: u64)
    ensures NonZero(q + [x]) == NonZero(q) + if x != 0 then multiset{x} else multiset{}
  {
    assert multiset(q + [x]) == multiset(q) + multiset{x};
  }

  lemma NonZeroStore(buffer: seq<u64>, k: nat, x: u64)
    requires k < |buffer|
    ensures NonZero(buffer[k := x]) + (if buffer[k] != 0 then multiset{buffer[k]} else multiset{}) ==
            NonZero(buffer) + if x != 0 then multiset{x} else multiset{}
  {
    assert multiset(buffer[k := x]) + multiset{buffer[k]} == multiset(buffer) + multiset{x};
  }

  /** What went into a queue came out, was overwritten, or is in a used slot. */
  ghost predicate Accounted(q: Ring, ins: seq<u64>, outs: seq<u64>, lost: seq<u64>) {
    NonZero(ins) == multiset(outs) + multiset(lost) + NonZero(q.buffer)
  }

  lemma InsertKeepsAccount(q: Ring, ins: seq<u64>, outs: seq<u64>, lost: seq<u64>, x: u64)
    requires Accounted(q, ins, outs, lost) && Accepts(q)
    ensures Accounted(InsertRing(q, x), ins + [x], outs, lost + Displaced(q))
  {
    NonZeroAppend(ins, x);
    NonZeroStore(q.buffer, q.tail, x);
    assert multiset(lost + Displaced(q)) == multiset(lost) + multiset(Displaced(q));
  }

  lemma PopKeepsAccount(q: Ring, ins: seq<u64>, outs: seq<u64>, lost: seq<u64>)
    requires Accounted(q, ins, outs, lost)
    ensures Accounted(PopRing(q), ins, if PopValue(q) != 0 then outs + [PopValue(q)] else outs, lost)
  {
    NonZeroStore(q.buffer, q.head, 0);
    assert q.buffer[q.head] == 0 ==> q.buffer[q.head := 0] == q.buffer;
    assert multiset(outs + [PopValue(q)]) == multiset(outs) + multiset{PopValue(q)};
  }

  ghost predicate RqAccounted(s: System) {
    Accounted(s.dev.rq, s.h.accepted, s.h.taken, s.h.overwritten)
  }

  lemma WorkKeepsAccount(s: System)
    requires RqAccounted(s)
    ensures RqAccounted(WorkStep(s))
  {
    if s.pc.Popping? {
      PopKeepsAccount(s.dev.rq, s.h.accepted, s.h.taken, s.h.overwritten);
    } else {
      var s' := WorkStep(s);
      assert s'.dev.rq == s.dev.rq && s'.h.accepted == s.h.accepted;
      assert s'.h.taken == s.h.taken && s'.h.overwritten == s.h.overwritten;
    }
  }

  lemma WriteKeepsAccount(s: System, r: Reg, val: u64)
    requires RqAccounted(s)
    ensures RqAccounted(WriteStep(s, r, val))
  {
    var s' := WriteStep(s, r, val);
    assert s'.h.taken == s.h.taken;
    if r == RqTailHi && !HoldsLock(s.pc) && Accepts(s.dev.rq) {
      InsertKeepsAccount(s.dev.rq, s.h.accepted, s.h.taken, s.h.overwritten, Assembled(s.dev, val));
    } else {
      assert s'.dev.rq == s.dev.rq && s'.h.accepted == s.h.accepted && s'.h.overwritten == s.h.overwritten;
    }
  }

  lemma RqStaysAccounted(s: System, a: Action)
    requires RqAccounted(s)
    ensures RqAccounted(Step(s, a))
  {
    match a
    case Work => WorkKeepsAccount(s);
    case Write(r, val) => WriteKeepsAccount(s, r, val);
    case _ => assert Step(s, a).dev.rq == s.dev.rq && Step(s, a).h.accepted == s.h.accepted;
  }

  lemma {:induction false} RqAlwaysAccounted(s: System, acts: seq<Action>)
    requires RqAccounted(s)
    ensures RqAccounted(Exec(s, acts))
    decreases acts
  {
    if acts != [] {
      RqStaysAccounted(s, acts[0]);
      RqAlwaysAccounted(Step(s, acts[0]), acts[1..]);
    }
  }

  lemma ReachableIsAccounted(s: System)
    requires Reachable(s)
    ensures RqAccounted(s)
  {
    var n: nat, mem, emulator, cleanState, acts :| n > 0 && s == Exec(Boot(n, mem, emulator, cleanState), acts);
    NoneStored(n);
    RqAlwaysAccounted(Boot(n, mem, emulator, cleanState), acts);
  }

  lemma NoneStored(n: nat)
    requires n > 0
    ensures NonZero(EmptyRing(n).buffer) == multiset{}
  {
    forall x: u64 | x != 0
      ensures x !in multiset(EmptyRing(n).buffer)
    {
      assert x !in EmptyRing(n).buffer;
    }
  }

  /** In every reachable state, whatever zeros were submitted: every non-zero address submitted
      is reaped, in the CQ, in flight, in a used RQ slot, refused by one of the queues, or was
      overwritten in the RQ. */
  lemma NonZeroAddressesAccountedFor(s: System)
    requires Reachable(s)
    ensures NonZero(s.h.submitted) ==
            multiset(s.h.reaped) + multiset(Contents(s.dev.cq)) + multiset(InFlight(s.pc))
            + NonZero(s.dev.rq.buffer) + multiset(s.h.overwritten)
            + NonZero(s.h.refusedRq) + multiset(s.h.refusedCq)
  {
    ReachableHasInv(s);
    ReachableIsAccounted(s);
    assert NonZero(s.h.submitted) == NonZero(s.h.accepted) + NonZero(s.h.refusedRq);
    assert multiset(s.h.taken) == multiset(s.h.offered) + multiset(InFlight(s.pc));
    assert multiset(s.h.completed) == multiset(s.h.reaped) + multiset(Contents(s.dev.cq));
  }

  /** An address is overwritten only after the RQ took a 0. */
  ghost predicate OverwrittenAfterZero(s: System) {
    0 !in s.h.accepted ==> s.h.overwritten == []
  }

  lemma OverwrittenAfterZeroStep(s: System, a: Action)
    requires OverwrittenAfterZero(s) && RqInOrder(s)
    ensures OverwrittenAfterZero(Step(s, a))
  {
    SubmittedGrows(s, a);
    if 0 !in Step(s, a).h.accepted {
      SoundNeverDisplaces(s.dev.rq);
    }
  }

  lemma {:induction false} OverwrittenAfterZeroAlways(s: System, acts: seq<Action>)
    requires OverwrittenAfterZero(s) && RqInOrder(s)
    ensures OverwrittenAfterZero(Exec(s, acts))
    decreases acts
  {
    if acts != [] {
      OverwrittenAfterZeroStep(s, acts[0]);
      RqStaysInOrder(s, acts[0]);
      OverwrittenAfterZeroAlways(Step(s, acts[0]), acts[1..]);
    }
  }

  lemma NothingOverwritten(s: System)
    requires Reachable(s) && 0 !in s.h.accepted
    ensures s.h.overwritten == []
  {
    var n: nat, mem, emulator, cleanState, acts :| n > 0 && s == Exec(Boot(n, mem, emulator, cleanState), acts);
    BootHasInv(n, mem, emulator, cleanState);
    OverwrittenAfterZeroAlways(Boot(n, mem, emulator, cleanState), acts);
  }

  // ----- End-to-end FIFO, exactly once -----

  /** The host never has more than one queue's worth of addresses submitted and not reaped. */
  predicate HasRoom(s: System) {
    |s.h.submitted| <= |s.h.reaped| + |s.dev.rq.buffer|
  }

  ghost predicate WithinCapacity(s: System, acts: seq<Action>)
    decreases acts
  {
    HasRoom(s) && (acts != [] ==> WithinCapacity(Step(s, acts[0]), acts[1..]))
  }

  ghost predicate NothingRefused(s: System) {
    && CqInOrder(s) && RqInOrder(s)
    && s.h.refusedRq == [] && s.h.refusedCq == []
    && s.h.accepted == s.h.submitted && s.h.completed == s.h.offered
  }

  lemma NothingRefusedStep(s: System, a: Action)
    requires NothingRefused(s) && 0 !in Step(s, a).h.accepted
    requires HasRoom(s) && HasRoom(Step(s, a))
    ensures NothingRefused(Step(s, a))
  {
    SubmittedGrows(s, a);
    CqStaysInOrder(s, a);
    RqStaysInOrder(s, a);
    SplitAccounts(s);
    assert |s.h.submitted| == |s.h.reaped| + |Contents(s.dev.cq)| + |InFlight(s.pc)| + |Contents(s.dev.rq)|;
    MeetingPointersDecide(s.dev.cq);
    MeetingPointersDecide(s.dev.rq);
  }

  lemma {:induction false} SubmissionsOnlyGrow(s: System, acts: seq<Action>)
    ensures s.h.submitted <= Exec(s, acts).h.submitted && s.h.accepted <= Exec(s, acts).h.accepted
    decreases acts
  {
    if acts != [] {
      SubmittedGrows(s, acts[0]);
      SubmissionsOnlyGrow(Step(s, acts[0]), acts[1..]);
    }
  }

  lemma {:induction false} NothingRefusedAlways(s: System, acts: seq<Action>)
    requires NothingRefused(s)
    requires 0 !in Exec(s, acts).h.accepted && WithinCapacity(s, acts)
    ensures NothingRefused(Exec(s, acts))
    decreases acts
  {
    if acts != [] {
      SubmissionsOnlyGrow(Step(s, acts[0]), acts[1..]);
      NothingRefusedStep(s, acts[0]);
      NothingRefusedAlways(Step(s, acts[0]), acts[1..]);
    }
  }

  /** A host that gets no 0 into the RQ and keeps at most one queue's worth outstanding gets
      every address back exactly once and in order: nothing is refused, and at every moment
      the reaped addresses followed by the outstanding ones are the submitted ones. */
  lemma FifoExactlyOnce(n: nat, mem: seq<u8>, emulator: seq<u8>, cleanState: u64, acts: seq<Action>)
    requires n > 0
    requires 0 !in Exec(Boot(n, mem, emulator, cleanState), acts).h.accepted
    requires WithinCapacity(Boot(n, mem, emulator, cleanState), acts)
    ensures var s := Exec(Boot(n, mem, emulator, cleanState), acts);
            && s.h.refusedRq == [] && s.h.refusedCq == []
            && s.h.reaped + Outstanding(s) == s.h.submitted
  {
    BootHasInv(n, mem, emulator, cleanState);
    NothingRefusedAlways(Boot(n, mem, emulator, cleanState), acts);
    SplitAccounts(Exec(Boot(n, mem, emulator, cleanState), acts));
  }
}
