/** Exactly how much the handler can get, and exactly when its array is too small. */
module HandlerExact {
  import opened Words
  import opened RingQueue
  import opened Device
  import opened Protocol
  import opened Conservation
  import opened Doorbell
  import opened Progress
  import opened Interrupts
  import opened SplitWords
  import opened DrainLoop
  import opened Bus
  import opened Paths
  import opened Handler
  import opened HandlerBounds
  import opened Reachability

  // ----- A schedule on which it gets that much -----

  lemma SubmitAndPass(s: System, v: u64)
    requires CanPass(s) && v != 0 && Contents(s.dev.cq) == [] && Contents(s.dev.rq) == []
    ensures var m := RunToRelease(Exec(s, Submit(v) + RingAndStart()));
            CanPass(m) && Contents(m.dev.cq) == [v] && Contents(m.dev.rq) == []
  {
    SubmittedOnDemand(s, v);
    PassOnDemand(Exec(s, Submit(v)));
    ExecAppend(s, Submit(v), RingAndStart());
  }

  /** What happens before each half of each read: nothing while the CQ holds something, else a
      pass if the RQ does, else a submission of v and a pass, as long as any of the q is left. */
  function Script(c: nat, r: nat, q: nat, v: u64): seq<seq<Action>>
    decreases q, r, c
  {
    if c > 0 then [[], []] + Script(c - 1, r, q, v)
    else if r > 0 then [RingAndStart(), []] + Script(r - 1, 0, q, v)
    else if q > 0 then [Submit(v) + RingAndStart(), []] + Script(0, 0, q - 1, v)
    else []
  }

  lemma RingObeys()
    ensures SubmissionsIn(RingAndStart()) == 0
    ensures forall a :: a in RingAndStart() ==> LeavesCqHead(a)
  {
    WorksSubmitNothing(3);
    SubmissionsAppend([Write(Reg.Doorbell, 1), Signal], Works(3));
    assert SubmissionsIn([Signal]) == 0;
    assert [Write(Reg.Doorbell, 1), Signal][1..] == [Signal];
  }

  lemma SubmitObeys(v: u64)
    ensures SubmissionsIn(Submit(v)) == 1
    ensures forall a :: a in Submit(v) ==> LeavesCqHead(a)
  {
    assert Submit(v)[1..] == [Write(RqTailHi, Shr32(v))];
    assert SubmissionsIn([Write(RqTailHi, Shr32(v))]) == 1;
  }

  lemma TwoTurns(a: seq<Action>, b: seq<Action>, rest: seq<seq<Action>>)
    ensures Submissions([a, b] + rest) == SubmissionsIn(a) + SubmissionsIn(b) + Submissions(rest)
    ensures Turn([a, b] + rest) == a && Rest([a, b] + rest) == [b] + rest
    ensures Turn(Rest([a, b] + rest)) == b && Rest(Rest([a, b] + rest)) == rest
  {
    assert ([a, b] + rest)[1..] == [b] + rest && ([b] + rest)[1..] == rest;
  }

  /** A turn before the first half of a read, none before the second, and further turns. */
  lemma TurnObeys(turn: seq<Action>, rest: seq<seq<Action>>)
    requires AllTurns(rest, LeavesCqHead)
    requires forall a :: a in turn ==> LeavesCqHead(a)
    ensures AllTurns([turn, []] + rest, LeavesCqHead)
    ensures Submissions([turn, []] + rest) == SubmissionsIn(turn) + Submissions(rest)
  {
    TwoTurns(turn, [], rest);
    forall t, a | t in [turn, []] + rest && a in t
      ensures LeavesCqHead(a)
    {
      assert t == turn || t == [] || t in rest;
    }
  }

  lemma {:induction false} ScriptObeys(c: nat, r: nat, q: nat, v: u64)
    ensures AllTurns(Script(c, r, q, v), LeavesCqHead) && Submissions(Script(c, r, q, v)) == q
    decreases q, r, c
  {
    if c > 0 {
      ScriptObeys(c - 1, r, q, v);
      TurnObeys([], Script(c - 1, r, q, v));
    } else if r > 0 {
      RingObeys();
      ScriptObeys(r - 1, 0, q, v);
      TurnObeys(RingAndStart(), Script(r - 1, 0, q, v));
    } else if q > 0 {
      RingObeys();
      SubmitObeys(v);
      SubmissionsAppend(Submit(v), RingAndStart());
      ScriptObeys(0, 0, q - 1, v);
      TurnObeys(Submit(v) + RingAndStart(), Script(0, 0, q - 1, v));
    }
  }

  /** What an 8-byte read does to a system nobody else touches meanwhile. */
  function ReadBoth(s: System): System {
    Step(Step(s, Read(CqHead)), Read(CqHeadHi))
  }

  lemma ReadBothEffect(s: System)
    requires CanPass(s)
    ensures CanPass(ReadBoth(s)) && Entries(ReadBoth(s)) == Entries(s)
    ensures ReadBoth(s).dev.rq == s.dev.rq
    ensures Contents(s.dev.cq) == Got(PopValue(s.dev.cq)) + Contents(ReadBoth(s).dev.cq)
    ensures PopValue(s.dev.cq) == 0 ==> Contents(s.dev.cq) == []
  {
    CqStaysInOrder(s, Read(CqHead));
    CqStaysInOrder(Step(s, Read(CqHead)), Read(CqHeadHi));
    PopIsFifo(s.dev.cq);
  }

  lemma TurnMeets(l: Line)
    ensures Before(l, true) == RunToRelease(Exec(l.sys, Turn(l.turns)))
  {
    var m := Exec(l.sys, Turn(l.turns));
    ExecAppend(l.sys, Turn(l.turns), Works(StepsToRelease(m)));
    ExecWorks(m, StepsToRelease(m));
  }

  lemma EmptyTurn(l: Line)
    requires Turn(l.turns) == []
    ensures Before(l, false) == l.sys
  {
    assert Meanwhile(l, false) == [];
  }

  /** One read whose second half follows at once: s is the system it meets. */
  lemma ScriptedRead(l: Line, s: System)
    requires AllTurns(l.turns, LeavesCqHead) && Before(l, true) == s && Turn(Rest(l.turns)) == []
    ensures FetchedAddress(l) == PopValue(s.dev.cq)
    ensures AfterFetching(l) == Line(ReadBoth(s), Rest(Rest(l.turns)))
  {
    FetchedThroughDriver(l);
    FetchAsSteps(l);
    EmptyTurn(Line(Step(s, Read(CqHead)), Rest(l.turns)));
  }

  /** The handler's run, one read at a time. */
  lemma HandlerRunFirst(l: Line, n: nat)
    requires Watched(l, n) && n == Entries(l.sys)
    ensures Watched(AfterFetching(l), n) && Entries(AfterFetching(l).sys) == n
    ensures HandlerRun(l) ==
            if FetchedAddress(l) == 0 then [] else [FetchedAddress(l)] + HandlerRun(AfterFetching(l))
  {
    FetchUsesUpOne(l, n);
    DeviceRunsDry(n);
    if FetchedAddress(l) != 0 {
      DrainedFirst(VirtineRegion(), l, CqHeadOffsetReg(n), HandlerView(n));
    }
  }

  function Scripted(s: System, q: nat, v: u64): Line {
    Line(s, Script(|Contents(s.dev.cq)|, |Contents(s.dev.rq)|, q, v))
  }

  /** One read of the script that meets m and gets something. */
  lemma ScriptedStep(l: Line, m: System, turn: seq<Action>, q: nat, v: u64)
    requires Watched(l, Entries(l.sys)) && CanPass(m) && Contents(m.dev.cq) != []
    requires m == RunToRelease(Exec(l.sys, turn))
    requires l.turns == [turn, []] + Script(|Contents(m.dev.cq)| - 1, |Contents(m.dev.rq)|, q, v)
    ensures AfterFetching(l) == Scripted(ReadBoth(m), q, v)
    ensures CanPass(ReadBoth(m)) && ReadBoth(m).dev.rq == m.dev.rq
    ensures |Contents(ReadBoth(m).dev.cq)| == |Contents(m.dev.cq)| - 1
    ensures Watched(AfterFetching(l), Entries(AfterFetching(l).sys))
    ensures |HandlerRun(l)| == 1 + |HandlerRun(AfterFetching(l))|
  {
    TwoTurns(turn, [], Script(|Contents(m.dev.cq)| - 1, |Contents(m.dev.rq)|, q, v));
    TurnMeets(l);
    ScriptedRead(l, m);
    ReadBothEffect(m);
    MeetingPointersDecide(m.dev.cq);
    HandlerRunFirst(l, Entries(l.sys));
  }

  lemma ReleaseAtOnce(s: System)
    requires !HoldsLock(s.pc)
    ensures RunToRelease(Exec(s, [])) == s
  {
  }

  /** On the script the handler gets everything in both queues and the q later submissions. */
  ghost predicate GetsAll(s: System, q: nat, v: u64) {
    var l := Scripted(s, q, v);
    Watched(l, Entries(s)) && |HandlerRun(l)| == |Contents(s.dev.cq)| + |Contents(s.dev.rq)| + q
  }

  lemma GetsOneMore(s: System, m: System, turn: seq<Action>, q: nat, q': nat, v: u64)
    requires CanPass(s) && CanPass(m) && Contents(m.dev.cq) != []
    requires m == RunToRelease(Exec(s, turn))
    requires Scripted(s, q, v).turns == [turn, []] + Script(|Contents(m.dev.cq)| - 1, |Contents(m.dev.rq)|, q', v)
    requires |Contents(m.dev.cq)| + |Contents(m.dev.rq)| + q' == |Contents(s.dev.cq)| + |Contents(s.dev.rq)| + q
    requires GetsAll(ReadBoth(m), q', v)
    ensures GetsAll(s, q, v)
  {
    ScriptObeys(|Contents(s.dev.cq)|, |Contents(s.dev.rq)|, q, v);
    ScriptedStep(Scripted(s, q, v), m, turn, q', v);
  }

  lemma GetsNothing(s: System, v: u64)
    requires CanPass(s) && Contents(s.dev.cq) == [] && Contents(s.dev.rq) == []
    ensures GetsAll(s, 0, v)
  {
    var l := Scripted(s, 0, v);
    ScriptObeys(0, 0, 0, v);
    ReleaseAtOnce(s);
    TurnMeets(l);
    ScriptedRead(l, s);
    MeetingPointersDecide(s.dev.cq);
    HandlerRunFirst(l, Entries(s));
  }

  lemma ReadShrinks(m: System)
    requires CanPass(m) && Contents(m.dev.cq) != []
    ensures CanPass(ReadBoth(m)) && |Contents(ReadBoth(m).dev.cq)| == |Contents(m.dev.cq)| - 1
    ensures |Contents(ReadBoth(m).dev.rq)| == |Contents(m.dev.rq)|
  {
    ReadBothEffect(m);
    MeetingPointersDecide(m.dev.cq);
  }

  predicate BothEmpty(s: System) {
    Contents(s.dev.cq) == [] && Contents(s.dev.rq) == []
  }

  /** The system that the next read of the script meets. */
  function Met(s: System, v: u64): System {
    if Contents(s.dev.cq) != [] then s
    else RunToRelease(Exec(s, if BothEmpty(s) then Submit(v) + RingAndStart() else RingAndStart()))
  }

  lemma MetEffect(s: System, v: u64)
    requires CanPass(s) && v != 0
    ensures var m := Met(s, v);
            && CanPass(m) && Contents(m.dev.cq) != []
            && if Contents(s.dev.cq) != [] then m == s else Contents(m.dev.rq) == []
  {
    if BothEmpty(s) {
      SubmitAndPass(s, v);
    } else if Contents(s.dev.cq) == [] {
      PassOnDemand(s);
    }
  }

  lemma SubmittedGets(s: System, q: nat, v: u64)
    requires CanPass(s) && v != 0 && BothEmpty(s) && q > 0 && GetsAll(ReadBoth(Met(s, v)), q - 1, v)
    ensures GetsAll(s, q, v)
  {
    SubmitAndPass(s, v);
    GetsOneMore(s, Met(s, v), Submit(v) + RingAndStart(), q, q - 1, v);
  }

  lemma MetGets(s: System, q: nat, v: u64)
    requires CanPass(s) && v != 0 && (BothEmpty(s) ==> q > 0)
    requires GetsAll(ReadBoth(Met(s, v)), if BothEmpty(s) then q - 1 else q, v)
    ensures GetsAll(s, q, v)
  {
    if BothEmpty(s) {
      SubmittedGets(s, q, v);
    } else if Contents(s.dev.cq) == [] {
      PassOnDemand(s);
      GetsOneMore(s, Met(s, v), RingAndStart(), q, q, v);
    } else {
      ReleaseAtOnce(s);
      GetsOneMore(s, s, [], q, q, v);
    }
  }

  lemma {:induction false} ScriptGets(s: System, q: nat, v: u64)
    requires CanPass(s) && v != 0
    ensures GetsAll(s, q, v)
    decreases q, |Contents(s.dev.rq)|, |Contents(s.dev.cq)|
  {
    if BothEmpty(s) && q == 0 {
      GetsNothing(s, v);
    } else {
      MetEffect(s, v);
      ReadShrinks(Met(s, v));
      ScriptGets(ReadBoth(Met(s, v)), if BothEmpty(s) then q - 1 else q, v);
      MetGets(s, q, v);
    }
  }

  // ----- Entered anywhere -----

  /** The thread has found nothing to do and is about to release the lock in its wait. */
  predicate DozesOff(s: System) {
    s.pc.GoingToSleep? || (s.pc.Testing? && !s.dev.doorbell && !s.dev.stopping)
  }

  lemma DozingReleases(s: System)
    requires DozesOff(s)
    ensures RunToRelease(s) == s.(pc := Asleep)
  {
    ReleaseIsReached(s);
    ReleaseIsReached(WorkStep(s));
    ReleaseIsReached(WorkStep(WorkStep(s)));
  }

  /** The states of a running device, by what the thread is up to. */
  lemma LockFreeDozingOrDraining(s: System)
    requires Flags(s) && s.down.Running?
    ensures !HoldsLock(s.pc) || DozesOff(s) || WillDrain(s)
    ensures !s.dev.stopping && !s.pc.Exited? && (!WillDrain(s) ==> InFlight(s.pc) == [])
  {
  }

  lemma CompletingKeepsYield(s: System)
    requires s.pc.Completing? && CqInOrder(s)
    ensures Min(Entries(s), |Outstanding(WorkStep(s))|) == Min(Entries(s), |Outstanding(s)|)
  {
    InsertIsFifo(s.dev.cq, s.pc.v);
  }

  predicate DrainOver(s: System) {
    s.pc == Locking && Outstanding(s) == Contents(s.dev.cq) && Contents(s.dev.rq) == []
  }

  lemma PoppingKeepsYield(s: System)
    requires s.pc.Popping? && Sound(s.dev.rq)
    ensures var s' := WorkStep(s);
            && Sound(s'.dev.rq) && |Outstanding(s')| == |Outstanding(s)|
            && (WillDrain(s') || DrainOver(s'))
  {
    PopIsFifo(s.dev.rq);
  }

  /** A step of a drain completes an address or moves it on; the CQ takes what fits. */
  lemma DrainStepKeepsYield(s: System)
    requires WillDrain(s) && CqInOrder(s) && Sound(s.dev.rq)
    ensures var s' := WorkStep(s);
            && Sound(s'.dev.rq) && Min(Entries(s), |Outstanding(s')|) == Min(Entries(s), |Outstanding(s)|)
            && (WillDrain(s') || DrainOver(s'))
  {
    if s.pc.Popping? {
      PoppingKeepsYield(s);
    } else {
      DrainGoesOn(s);
      if s.pc.Completing? {
        CompletingKeepsYield(s);
      } else {
        assert WorkStep(s).dev.cq == s.dev.cq && InFlight(WorkStep(s).pc) == InFlight(s.pc);
      }
    }
  }

  lemma {:induction false} DrainFills(s: System)
    requires WillDrain(s) && CqInOrder(s) && Sound(s.dev.rq) && !s.dev.stopping
    ensures var t := RunToRelease(s);
            && t.pc == Locking && !t.dev.stopping && Sound(t.dev.rq) && Contents(t.dev.rq) == []
            && |Contents(t.dev.cq)| == Yield(s)
    decreases Rank(s)
  {
    var s' := WorkStep(s);
    ReleaseIsReached(s);
    WorkLowersRank(s);
    DrainStepKeepsYield(s);
    CqStaysInOrder(s, Work);
    EntriesStep(s, Work);
    if WillDrain(s') {
      DrainFills(s');
    }
  }

  /** Left alone, the thread releases the lock with the yield in the queues. */
  lemma ReleasedYield(s: System)
    requires Flags(s) && s.down.Running? && CqInOrder(s) && Billed(s) && Sound(s.dev.rq)
    ensures var t := RunToRelease(s);
            && CanPass(t) && Entries(t) == Entries(s)
            && |Contents(t.dev.cq)| + |Contents(t.dev.rq)| == Yield(s)
  {
    LockFreeDozingOrDraining(s);
    InvariantsAtRelease(s, []);
    if WillDrain(s) {
      DrainFills(s);
    } else if HoldsLock(s.pc) {
      DozingReleases(s);
    }
  }

  /** The same turns, begun by the thread's steps up to its release of the lock. */
  function ReleaseFirst(s: System, turns: seq<seq<Action>>): seq<seq<Action>> {
    [Works(StepsToRelease(s)) + Turn(turns)] + Rest(turns)
  }

  lemma ReleaseFirstObeys(s: System, turns: seq<seq<Action>>)
    requires AllTurns(turns, LeavesCqHead)
    ensures AllTurns(ReleaseFirst(s, turns), LeavesCqHead)
    ensures Submissions(ReleaseFirst(s, turns)) == Submissions(turns)
  {
    var k, l := StepsToRelease(s), Line(s, turns);
    MeanwhileObeys(l, false, LeavesCqHead);
    WorksSubmitNothing(k);
    SubmissionsAppend(Works(k), Turn(turns));
    assert ReleaseFirst(s, turns)[1..] == Rest(turns);
    TurnSubmits(l, false);
  }

  lemma ReleaseFirstMeetsSame(s: System, turns: seq<seq<Action>>)
    requires AllTurns(turns, LeavesCqHead) && Entries(RunToRelease(s)) == Entries(s)
    ensures var l, k := Line(s, ReleaseFirst(s, turns)), Line(RunToRelease(s), turns);
            FetchedAddress(l) == FetchedAddress(k) && AfterFetching(l) == AfterFetching(k)
  {
    var l, k := Line(s, ReleaseFirst(s, turns)), Line(RunToRelease(s), turns);
    ExecWorks(s, StepsToRelease(s));
    ExecAppend(s, Works(StepsToRelease(s)), Turn(turns));
    TurnMeets(l);
    TurnMeets(k);
    assert Rest(l.turns) == Rest(k.turns);
    FetchAsSteps(l);
    FetchAsSteps(k);
  }

  /** Some turns with q submissions give the handler its yield and all q of them. */
  lemma YieldIsReached(s: System, q: nat)
    requires Flags(s) && s.down.Running? && CqInOrder(s) && Billed(s) && Sound(s.dev.rq)
    ensures var t := RunToRelease(s);
            var l := Line(s, ReleaseFirst(s, Scripted(t, q, 1).turns));
            Watched(l, Entries(s)) && Submissions(l.turns) == q && |HandlerRun(l)| == Yield(s) + q
  {
    var t := RunToRelease(s);
    var k := Scripted(t, q, 1);
    var l := Line(s, ReleaseFirst(s, k.turns));
    ReleasedYield(s);
    ScriptObeys(|Contents(t.dev.cq)|, |Contents(t.dev.rq)|, q, 1);
    ScriptGets(t, q, 1);
    ReleaseFirstObeys(s, k.turns);
    ReleaseFirstMeetsSame(s, k.turns);
    HandlerRunFirst(l, Entries(s));
    HandlerRunFirst(k, Entries(s));
  }

  // ----- Exactly how much, and exactly when the array is too small -----

  ghost predicate CanGet(s: System, q: nat, m: nat)
    requires CqInOrder(s)
  {
    exists turns :: AllTurns(turns, LeavesCqHead) && Submissions(turns) <= q && |HandlerRun(Line(s, turns))| >= m
  }

  /** With the handler as the only reader and at most q submissions while it runs, some
      interleaving makes it get m addresses if and only if m is at most its yield plus q. */
  lemma HandlerCanGetIff(s: System, q: nat, m: nat)
    requires Reachable(s) && 0 !in s.h.accepted && s.down.Running?
    ensures CqInOrder(s)
    ensures CanGet(s, q, m) <==> m <= Yield(s) + q
  {
    ReachableHasInv(s);
    ReachableHasFlags(s);
    ReachableIsBilled(s);
    if m <= Yield(s) + q {
      YieldIsReached(s, q);
    } else {
      forall turns | AllTurns(turns, LeavesCqHead) && Submissions(turns) <= q
        ensures |HandlerRun(Line(s, turns))| < m
      {
        HandlerGetsAtMost(Line(s, turns));
      }
    }
  }

  /** The handler's array has as many entries as one queue. With at most q submissions meanwhile
      it can be made to store past the end exactly when its yield plus q is more than that:
      without any, when the queues hold more and no drain comes first; with more than one queue
      of them, always. */
  lemma HandlerOverrunsIff(s: System, q: nat)
    requires Reachable(s) && 0 !in s.h.accepted && s.down.Running?
    ensures CqInOrder(s)
    ensures CanGet(s, q, Entries(s) + 1) <==> Yield(s) + q > Entries(s)
    ensures CanGet(s, 0, Entries(s) + 1)
       <==> !WillDrain(s) && |Contents(s.dev.cq)| + |Contents(s.dev.rq)| > Entries(s)
    ensures CanGet(s, Entries(s) + 1, Entries(s) + 1)
  {
    HandlerCanGetIff(s, q, Entries(s) + 1);
    HandlerCanGetIff(s, 0, Entries(s) + 1);
    HandlerCanGetIff(s, Entries(s) + 1, Entries(s) + 1);
    ReachableHasFlags(s);
    LockFreeDozingOrDraining(s);
  }

  // ----- Such a state is reached -----

  lemma FullCqOverruns(s: System, n: nat)
    requires Loaded(s, n, n, 1)
    ensures CanGet(s, 0, n + 1)
  {
    HandlerOverrunsIff(s, 0);
  }

  /** The handler entered with the CQ full and one address in the RQ can store past its array,
      and such a state occurs in a device of any size. */
  lemma OverrunIsReachable(n: nat)
    requires n > 0
    ensures exists s :: Loaded(s, n, n, 1) && CanGet(s, 0, n + 1)
  {
    EveryLoadIsReachable(n, n, 1);
    var s :| Loaded(s, n, n, 1);
    FullCqOverruns(s, n);
  }
}
