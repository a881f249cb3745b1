/** What the handler gets when the thread does nothing, and how much it can get at most. */
module HandlerBounds {
  import opened RingQueue
  import opened Device
  import opened Protocol
  import opened Conservation
  import opened Doorbell
  import opened Progress
  import opened SplitWords
  import opened DrainLoop
  import opened Bus
  import opened Paths
  import opened Handler

  // ----- One read, by what was in the queue -----

  /** A read whose two turns bring nothing to the CQ: its first element, and the rest stays. */
  lemma FetchTakesOldest(l: Line, n: nat)
    requires Watched(l, n)
    requires var s := Before(l, true); var l1 := Line(Step(s, Read(CqHead)), Rest(l.turns));
             Before(l1, false).dev.cq == l1.sys.dev.cq
    ensures Contents(Before(l, true).dev.cq) == Got(FetchedAddress(l)) + Contents(AfterFetching(l).sys.dev.cq)
    ensures FetchedAddress(l) == 0 ==> Contents(Before(l, true).dev.cq) == []
  {
    FetchAsSteps(l);
    FetchedThroughDriver(l);
    BeforeIsFree(l);
    TurnUsesUpNothing(l, true);
    PopIsFifo(Before(l, true).dev.cq);
    var l1 := AfterReadl(l, CqHeadOffsetReg(Entries(l.sys)));
    assert Step(Before(l1, false), Read(CqHeadHi)).dev.cq == Before(l1, false).dev.cq;
  }

  // ----- The thread idle -----

  predicate IdleBystander(a: Action) {
    LeavesCqHead(a) && !a.Work?
  }

  ghost predicate Idle(l: Line, n: nat) {
    Watched(l, n) && !HoldsLock(l.sys.pc) && AllTurns(l.turns, IdleBystander)
  }

  lemma IdleStepKeepsCq(s: System, a: Action)
    requires !HoldsLock(s.pc) && IdleBystander(a)
    ensures Step(s, a).dev.cq == s.dev.cq && !HoldsLock(Step(s, a).pc)
  {
    OthersOnlyWake(s, a);
  }

  lemma {:induction false} IdleKeepsCq(s: System, acts: seq<Action>)
    requires !HoldsLock(s.pc) && forall a :: a in acts ==> IdleBystander(a)
    ensures Exec(s, acts).dev.cq == s.dev.cq && !HoldsLock(Exec(s, acts).pc)
    decreases acts
  {
    if acts != [] {
      assert IdleBystander(acts[0]);
      IdleStepKeepsCq(s, acts[0]);
      IdleKeepsCq(Step(s, acts[0]), acts[1..]);
    }
  }

  lemma IdleTurn(l: Line, needsLock: bool)
    requires !HoldsLock(l.sys.pc) && AllTurns(l.turns, IdleBystander)
    ensures Before(l, needsLock).dev.cq == l.sys.dev.cq && !HoldsLock(Before(l, needsLock).pc)
    ensures AllTurns(Rest(l.turns), IdleBystander)
  {
    var turn := Turn(l.turns);
    assert turn != [] ==> turn in l.turns;
    IdleKeepsCq(l.sys, turn);
    assert Works(0) == [];
    assert Meanwhile(l, needsLock) == turn;
  }

  lemma IdleFetch(l: Line, n: nat)
    requires Idle(l, n)
    ensures Idle(AfterFetching(l), n)
    ensures Contents(l.sys.dev.cq) == Got(FetchedAddress(l)) + Contents(AfterFetching(l).sys.dev.cq)
    ensures FetchedAddress(l) == 0 ==> Contents(l.sys.dev.cq) == []
  {
    IdleTurn(l, true);
    var l1 := Line(Step(Before(l, true), Read(CqHead)), Rest(l.turns));
    IdleTurn(l1, false);
    FetchTakesOldest(l, n);
    FetchUsesUpOne(l, n);
    FetchAsSteps(l);
  }

  lemma IdleHandsOut(n: nat)
    ensures HandsOut(VirtineRegion(), CqHeadOffsetReg(n), (l: Line) => Idle(l, n), (l: Line) => Contents(l.sys.dev.cq))
  {
    var m, addr := VirtineRegion(), CqHeadOffsetReg(n);
    forall l: Line | Idle(l, n)
      ensures var v, l' := Fetched(m, l, addr), AfterFetch(m, l, addr);
              && Idle(l', n) && (v == 0 ==> Contents(l.sys.dev.cq) == [])
              && Contents(l.sys.dev.cq) == Got(v) + Contents(l'.sys.dev.cq)
    {
      IdleFetch(l, n);
    }
  }

  /** With the thread idle, the handler gets exactly the CQ, in order, and leaves it empty, even
      if addresses are submitted meanwhile. */
  lemma IdleHandlerGetsCq(l: Line)
    requires Idle(l, Entries(l.sys))
    ensures HandlerRun(l) == Contents(l.sys.dev.cq)
    ensures Contents(HandlerEnd(l).sys.dev.cq) == []
  {
    var n := Entries(l.sys);
    DeviceRunsDry(n);
    IdleHandsOut(n);
    DrainIsSupply(VirtineRegion(), l, CqHeadOffsetReg(n), HandlerView(n),
                  (k: Line) => Idle(k, n), (k: Line) => Contents(k.sys.dev.cq));
  }

  // ----- The most it can get -----

  /** The thread holds the lock and will not release it before it has seen the RQ empty. */
  predicate WillDrain(s: System) {
    || Draining(s.pc)
    || (!s.dev.stopping && (s.pc.Deciding? || s.pc.Marking? || s.pc.Clearing? || (s.pc.Testing? && s.dev.doorbell)))
  }

  function Min(a: nat, b: nat): nat {
    if a <= b then a else b
  }

  /** What the handler can get when nothing more is submitted: everything outstanding, but only
      one queue of it when the thread will drain the RQ into the CQ before the first read. */
  function Yield(s: System): nat {
    if WillDrain(s) then Min(Entries(s), |Outstanding(s)|) else |Outstanding(s)|
  }

  /** Until the first read: the thread has still to drain, or what is left fits one queue but for
      the j submissions made since. */
  ghost predicate OneQueueAhead(s: System, n: nat, j: nat) {
    && CqInOrder(s) && Entries(s) == n
    && ((WillDrain(s) && Sound(s.dev.rq)) || Fetchable(s) <= n + j)
  }

  lemma OthersLetDrain(s: System, a: Action)
    requires WillDrain(s) && !a.Work?
    ensures WillDrain(Step(s, a)) && Step(s, a).dev.rq == s.dev.rq
  {
    OthersKeepRank(s, a);
  }

  lemma DrainGoesOn(s: System)
    requires WillDrain(s) && !s.pc.Popping?
    ensures WillDrain(WorkStep(s)) && WorkStep(s).dev.rq == s.dev.rq
  {
  }

  lemma PoppingLeavesOneQueue(s: System)
    requires CqInOrder(s) && Sound(s.dev.rq) && s.pc.Popping?
    ensures var s' := WorkStep(s);
            Sound(s'.dev.rq) && (WillDrain(s') || (s'.pc == Locking && Fetchable(s') == |Contents(s'.dev.cq)|))
  {
    PopIsFifo(s.dev.rq);
    if PopValue(s.dev.rq) == 0 {
      UsedIsLength(WorkStep(s).dev.rq);
    }
  }

  lemma OneQueueAheadStep(s: System, a: Action, n: nat, j: nat)
    requires OneQueueAhead(s, n, j) && LeavesCqHead(a)
    ensures OneQueueAhead(Step(s, a), n, j + if IsSubmission(a) then 1 else 0)
  {
    CqStaysInOrder(s, a);
    EntriesStep(s, a);
    if Fetchable(s) <= n + j {
      StepAddsAtMost(s, a);
    } else if !a.Work? {
      OthersLetDrain(s, a);
    } else if s.pc.Popping? {
      PoppingLeavesOneQueue(s);
    } else {
      DrainGoesOn(s);
    }
  }

  lemma {:induction false} OneQueueAheadAlong(s: System, acts: seq<Action>, n: nat, j: nat)
    requires OneQueueAhead(s, n, j) && forall a :: a in acts ==> LeavesCqHead(a)
    ensures OneQueueAhead(Exec(s, acts), n, j + SubmissionsIn(acts))
    decreases acts
  {
    if acts != [] {
      assert LeavesCqHead(acts[0]);
      OneQueueAheadStep(s, acts[0], n, j);
      OneQueueAheadAlong(Step(s, acts[0]), acts[1..], n, j + if IsSubmission(acts[0]) then 1 else 0);
    }
  }

  /** What the handler gets is bounded by what its first read meets. */
  lemma FirstFetchBounds(l: Line, n: nat)
    requires Watched(l, n) && n == Entries(l.sys)
    ensures |HandlerRun(l)| <= Fetchable(Before(l, true)) + Submissions(Rest(l.turns))
  {
    DeviceRunsDry(n);
    FetchUsesUpOne(l, n);
    DrainsAfterFirst(VirtineRegion(), l, CqHeadOffsetReg(n), HandlerView(n));
  }

  lemma FirstReadMeetsOneQueue(l: Line, n: nat)
    requires Watched(l, n) && Sound(l.sys.dev.rq) && WillDrain(l.sys)
    ensures Fetchable(Before(l, true)) <= n + SubmissionsIn(Meanwhile(l, true))
  {
    MeanwhileObeys(l, true, LeavesCqHead);
    OneQueueAheadAlong(l.sys, Meanwhile(l, true), n, 0);
    BeforeIsFree(l);
  }

  /** The interrupt is raised inside a drain. A handler entered while the thread is on its way
      to the end of a drain waits for it, and then finds at most one full CQ: but for what is
      submitted while it runs it never stores past its array, however much is outstanding. */
  lemma HandlerDuringDrainFits(l: Line)
    requires Watched(l, Entries(l.sys)) && Sound(l.sys.dev.rq) && WillDrain(l.sys)
    ensures |HandlerRun(l)| <= Entries(l.sys) + Submissions(l.turns)
  {
    FirstReadMeetsOneQueue(l, Entries(l.sys));
    TurnSubmits(l, true);
    FirstFetchBounds(l, Entries(l.sys));
  }

  lemma HandlerGetsAtMost(l: Line)
    requires Watched(l, Entries(l.sys)) && RqInOrder(l.sys) && 0 !in l.sys.h.accepted
    ensures |HandlerRun(l)| <= Yield(l.sys) + Submissions(l.turns)
  {
    HandlerIsBounded(l);
    if WillDrain(l.sys) {
      HandlerDuringDrainFits(l);
    }
  }
}
