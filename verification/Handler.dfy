/** The interrupt handler on the virtine device: it drains the completion queue while the
    processing thread may go on filling it. */
module Handler {
  import opened Words
  import opened RingQueue
  import opened Device
  import opened Protocol
  import opened Conservation
  import opened Progress
  import opened SplitWords
  import opened DrainLoop
  import opened Bus
  import opened Paths

  // ----- Submissions meanwhile -----

  predicate IsSubmission(a: Action) {
    a.Write? && a.r == RqTailHi
  }

  function SubmissionsIn(acts: seq<Action>): nat {
    if acts == [] then 0 else (if IsSubmission(acts[0]) then 1 else 0) + SubmissionsIn(acts[1..])
  }

  function Submissions(turns: seq<seq<Action>>): nat {
    if turns == [] then 0 else SubmissionsIn(turns[0]) + Submissions(turns[1..])
  }

  lemma {:induction false} SubmissionsAppend(a: seq<Action>, b: seq<Action>)
    ensures SubmissionsIn(a + b) == SubmissionsIn(a) + SubmissionsIn(b)
  {
    if a == [] {
      assert a + b == b;
    } else {
      assert (a + b)[1..] == a[1..] + b;
      SubmissionsAppend(a[1..], b);
    }
  }

  lemma {:induction false} WorksSubmitNothing(k: nat)
    ensures SubmissionsIn(Works(k)) == 0
  {
    if k > 0 {
      assert Works(k)[1..] == Works(k - 1);
      WorksSubmitNothing(k - 1);
    }
  }

  /** What the thread does while the driver waits for the lock submits nothing. */
  lemma TurnSubmits(l: Line, needsLock: bool)
    ensures Submissions(l.turns) == SubmissionsIn(Meanwhile(l, needsLock)) + Submissions(Rest(l.turns))
  {
    var k := StepsToRelease(Exec(l.sys, Turn(l.turns)));
    SubmissionsAppend(Turn(l.turns), if needsLock then Works(k) else []);
    WorksSubmitNothing(k);
  }

  // ----- What is left to fetch -----

  /** How many addresses the handler can still get to see. */
  function Fetchable(s: System): nat {
    Used(s.dev.rq.buffer) + |InFlight(s.pc)| + |Contents(s.dev.cq)|
  }

  /** In a sound queue the used slots are the elements. */
  lemma {:induction false} UsedIsLength(r: Ring)
    requires Sound(r)
    ensures Used(r.buffer) == |Contents(r)|
    decreases |Contents(r)|
  {
    UsedAfterPop(r);
    PopIsFifo(r);
    if Contents(r) != [] {
      UsedIsLength(PopRing(r));
    } else {
      MeetingPointersDecide(r);
      NoneUsed(r.buffer);
    }
  }

  lemma {:induction false} NoneUsed(buffer: seq<u64>)
    requires forall k :: 0 <= k < |buffer| ==> buffer[k] == 0
    ensures Used(buffer) == 0
  {
    if buffer != [] {
      NoneUsed(buffer[1..]);
    }
  }

  lemma CompletingKeepsFetchable(s: System)
    requires CqInOrder(s) && s.pc.Completing?
    ensures Fetchable(WorkStep(s)) <= Fetchable(s)
  {
    InsertIsFifo(s.dev.cq, s.pc.v);
  }

  lemma {:induction false} UsedAfterStore(buffer: seq<u64>, k: nat, x: u64)
    requires k < |buffer|
    ensures Used(buffer[k := x]) <= Used(buffer) + 1
  {
    if k == 0 {
      assert buffer[k := x][1..] == buffer[1..];
    } else {
      UsedAfterStore(buffer[1..], k - 1, x);
      assert buffer[k := x][1..] == buffer[1..][k - 1 := x];
    }
  }

  lemma SubmissionAddsOne(s: System, val: u64)
    ensures Fetchable(WriteStep(s, RqTailHi, val)) <= Fetchable(s) + 1
  {
    var rq, x := s.dev.rq, Assembled(s.dev, val);
    UsedAfterStore(rq.buffer, rq.tail, x);
    var s' := WriteStep(s, RqTailHi, val);
    assert s'.dev.rq == rq || s'.dev.rq == InsertRing(rq, x);
    assert s'.dev.cq == s.dev.cq && s'.pc == s.pc;
  }

  lemma WorkAddsNothing(s: System)
    requires CqInOrder(s)
    ensures Fetchable(WorkStep(s)) <= Fetchable(s)
  {
    var s' := WorkStep(s);
    if s.pc.Completing? {
      CompletingKeepsFetchable(s);
    } else if s.pc.Popping? {
      UsedAfterPop(s.dev.rq);
    } else {
      assert s'.dev.rq == s.dev.rq && s'.dev.cq == s.dev.cq && InFlight(s'.pc) == InFlight(s.pc);
    }
  }

  lemma OthersLeaveQueues(s: System, a: Action)
    requires !a.Work? && !IsSubmission(a) && LeavesCqHead(a)
    ensures Step(s, a).dev.rq == s.dev.rq && Step(s, a).dev.cq == s.dev.cq
  {
  }

  /** Only a submission adds to it, and only one address, whatever its value. */
  lemma StepAddsAtMost(s: System, a: Action)
    requires CqInOrder(s) && LeavesCqHead(a)
    ensures Fetchable(Step(s, a)) <= Fetchable(s) + if IsSubmission(a) then 1 else 0
  {
    if IsSubmission(a) {
      SubmissionAddsOne(s, a.val);
    } else if a.Work? {
      WorkAddsNothing(s);
    } else {
      OthersOnlyWake(s, a);
      OthersLeaveQueues(s, a);
    }
  }

  lemma {:induction false} RunAddsAtMost(s: System, acts: seq<Action>)
    requires CqInOrder(s) && forall a :: a in acts ==> LeavesCqHead(a)
    ensures CqInOrder(Exec(s, acts)) && Fetchable(Exec(s, acts)) <= Fetchable(s) + SubmissionsIn(acts)
    decreases acts
  {
    if acts != [] {
      assert LeavesCqHead(acts[0]);
      StepAddsAtMost(s, acts[0]);
      CqStaysInOrder(s, acts[0]);
      RunAddsAtMost(Step(s, acts[0]), acts[1..]);
    }
  }

  lemma PopUsesUpOne(s: System)
    requires CqInOrder(s) && !HoldsLock(s.pc)
    ensures CqInOrder(Step(s, Read(CqHead)))
    ensures Fetchable(Step(s, Read(CqHead))) + |Got(PopValue(s.dev.cq))| == Fetchable(s)
  {
    CqStaysInOrder(s, Read(CqHead));
    PopIsFifo(s.dev.cq);
  }

  lemma HighHalfTakesNothing(s: System)
    requires CqInOrder(s)
    ensures CqInOrder(Step(s, Read(CqHeadHi))) && Fetchable(Step(s, Read(CqHeadHi))) == Fetchable(s)
  {
    CqStaysInOrder(s, Read(CqHeadHi));
  }

  /** The line while the handler runs as the only reader of the CQ. Anything else may happen
      beside it, submissions included. */
  ghost predicate Watched(l: Line, n: nat) {
    Entries(l.sys) == n && CqInOrder(l.sys) && AllTurns(l.turns, LeavesCqHead)
  }

  /** How many addresses it can still get, with the submissions still to come. */
  function Left(l: Line): nat {
    Fetchable(l.sys) + Submissions(l.turns)
  }

  lemma EntriesAfterFetch(l: Line)
    ensures Entries(AfterFetching(l).sys) == Entries(l.sys)
  {
    FetchAsSteps(l);
    EntriesKept(l, CqHead, 0, true);
    EntriesKept(AfterReadl(l, CqHeadOffsetReg(Entries(l.sys))), CqHeadHi, 0, false);
  }

  /** One 8-byte read of the handler yields an address that cannot be seen again, or zero. */
  lemma FetchUsesUpOne(l: Line, n: nat)
    requires Watched(l, n)
    ensures Watched(AfterFetching(l), n)
    ensures Left(AfterFetching(l)) + |Got(FetchedAddress(l))|
         <= Fetchable(Before(l, true)) + Submissions(Rest(l.turns)) <= Left(l)
    ensures AfterFetching(l).sys.h.reaped == l.sys.h.reaped + Got(FetchedAddress(l))
  {
    FetchAsSteps(l);
    EntriesAfterFetch(l);
    FetchedThroughDriver(l);
    BeforeIsFree(l);
    TurnUsesUpNothing(l, true);
    PopUsesUpOne(Before(l, true));
    var l1 := AfterReadl(l, CqHeadOffsetReg(Entries(l.sys)));
    TurnUsesUpNothing(l1, false);
    HighHalfTakesNothing(Before(l1, false));
  }

  lemma TurnUsesUpNothing(l: Line, needsLock: bool)
    requires CqInOrder(l.sys) && AllTurns(l.turns, LeavesCqHead)
    ensures CqInOrder(Before(l, needsLock)) && AllTurns(Rest(l.turns), LeavesCqHead)
    ensures Fetchable(Before(l, needsLock)) + Submissions(Rest(l.turns)) <= Left(l)
  {
    MeanwhileObeys(l, needsLock, LeavesCqHead);
    RunAddsAtMost(l.sys, Meanwhile(l, needsLock));
    TurnSubmits(l, needsLock);
  }

  ghost function HandlerView(n: nat): View<Line> {
    View((l: Line) => Watched(l, n), (l: Line) => Left(l), (l: Line) => l.sys.h.reaped)
  }

  /** The handler's loop ends on this device, whatever runs beside it. */
  lemma DeviceRunsDry(n: nat)
    ensures RunsDry(VirtineRegion(), CqHeadOffsetReg(n), HandlerView(n))
  {
    var m, addr := VirtineRegion(), CqHeadOffsetReg(n);
    forall l: Line | Watched(l, n)
      ensures var v, l' := Fetched(m, l, addr), AfterFetch(m, l, addr);
              && Watched(l', n)
              && Left(l') + |Got(v)| <= Left(l)
              && l'.sys.h.reaped == l.sys.h.reaped + Got(v)
    {
      FetchUsesUpOne(l, n);
    }
  }

  /** The addresses the handler gets. */
  ghost function HandlerRun(l: Line): seq<u64>
    requires Watched(l, Entries(l.sys))
  {
    DeviceRunsDry(Entries(l.sys));
    Drained(VirtineRegion(), l, CqHeadOffsetReg(Entries(l.sys)), HandlerView(Entries(l.sys)))
  }

  /** The line as it leaves it. */
  ghost function HandlerEnd(l: Line): Line
    requires Watched(l, Entries(l.sys))
  {
    DeviceRunsDry(Entries(l.sys));
    DrainEnd(VirtineRegion(), l, CqHeadOffsetReg(Entries(l.sys)), HandlerView(Entries(l.sys)))
  }

  /** The handler under every interleaving: it gets the next addresses in completion order, at
      most as many as were fetchable at entry or were submitted while it ran. */
  lemma HandlerIsBounded(l: Line)
    requires Watched(l, Entries(l.sys))
    ensures |HandlerRun(l)| <= Fetchable(l.sys) + Submissions(l.turns) && 0 !in HandlerRun(l)
    ensures HandlerEnd(l).sys.h.reaped == l.sys.h.reaped + HandlerRun(l)
    ensures RqInOrder(l.sys) && 0 !in l.sys.h.accepted ==>
      |HandlerRun(l)| <= |Outstanding(l.sys)| + Submissions(l.turns)
  {
    DeviceRunsDry(Entries(l.sys));
    DrainIsBounded(VirtineRegion(), l, CqHeadOffsetReg(Entries(l.sys)), HandlerView(Entries(l.sys)));
    if RqInOrder(l.sys) && 0 !in l.sys.h.accepted {
      FetchableIsOutstanding(l.sys);
    }
  }

  lemma FetchableIsOutstanding(s: System)
    requires RqInOrder(s) && 0 !in s.h.accepted
    ensures Fetchable(s) == |Outstanding(s)|
  {
    UsedIsLength(s.dev.rq);
  }

  /** After a run with at most one queue's worth outstanding, the handler gets at most one
      queue's worth, but for what is submitted while it runs: so it fits the array. */
  lemma OutstandingFitsHandler(n: nat, mem: seq<u8>, emulator: seq<u8>, cleanState: u64,
                               acts: seq<Action>, turns: seq<seq<Action>>)
    requires n > 0
    requires 0 !in Exec(Boot(n, mem, emulator, cleanState), acts).h.accepted
    requires WithinCapacity(Boot(n, mem, emulator, cleanState), acts)
    requires AllTurns(turns, LeavesCqHead)
    ensures var l := Line(Exec(Boot(n, mem, emulator, cleanState), acts), turns);
            Watched(l, n) && |HandlerRun(l)| <= n + Submissions(turns)
  {
    var s0 := Boot(n, mem, emulator, cleanState);
    var s := Exec(s0, acts);
    FifoExactlyOnce(n, mem, emulator, cleanState, acts);
    EndsWithinCapacity(s0, acts);
    EntriesStay(s0, acts);
    BootHasInv(n, mem, emulator, cleanState);
    InvAlways(s0, acts);
    HandlerIsBounded(Line(s, turns));
  }

  lemma {:induction false} EndsWithinCapacity(s: System, acts: seq<Action>)
    requires WithinCapacity(s, acts)
    ensures HasRoom(Exec(s, acts))
    decreases acts
  {
    if acts != [] {
      EndsWithinCapacity(Step(s, acts[0]), acts[1..]);
    }
  }
}
