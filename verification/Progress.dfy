/** How far the processing thread gets: the lock is held for a bounded number of its steps,
    an uninterrupted pass is the device's Pass, which doorbell writes are served, and that
    shutdown ends the thread. */
module Progress {
  import opened Words
  import opened RingQueue
  import opened Device
  import opened Protocol
  import opened Doorbell

  /** A bound on the thread's steps until it releases the lock, given the used RQ slots. */
  function Rank(s: System): nat {
    var u := Used(s.dev.rq.buffer);
    match s.pc
    case Testing => 6 * u + 5
    case GoingToSleep => 1
    case Deciding => 6 * u + 4
    case Marking => 6 * u + 3
    case Clearing => 6 * u + 2
    case Popping => 6 * u + 1
    case Cleaning(v) => 6 * u + 6
    case Completing(v) => 6 * u + 5
    case Lowering => 6 * u + 4
    case Batching => 6 * u + 3
    case Notifying => 6 * u + 2
    case _ => 0
  }

  lemma WorkLowersRank(s: System)
    requires HoldsLock(s.pc)
    ensures Rank(WorkStep(s)) < Rank(s)
  {
    UsedAfterPop(s.dev.rq);
  }

  /** Nobody but the thread changes the RQ or moves the thread while it holds the lock. */
  lemma OthersKeepRank(s: System, a: Action)
    requires HoldsLock(s.pc) && !a.Work?
    ensures Step(s, a).pc == s.pc && Step(s, a).dev.rq == s.dev.rq
  {
  }

  function CountWork(acts: seq<Action>): nat {
    if acts == [] then 0 else (if acts[0].Work? then 1 else 0) + CountWork(acts[1..])
  }

  ghost predicate LockHeldThroughout(s: System, acts: seq<Action>)
    decreases acts
  {
    HoldsLock(s.pc) && (acts != [] ==> LockHeldThroughout(Step(s, acts[0]), acts[1..]))
  }

  /** Whatever the host does meanwhile, and whatever the RQ holds, the thread gives the lock
      back after at most Rank of its own steps. */
  lemma {:induction false} LockHoldIsBounded(s: System, acts: seq<Action>)
    requires LockHeldThroughout(s, acts)
    ensures CountWork(acts) <= Rank(s)
    decreases acts
  {
    if acts != [] {
      if acts[0].Work? {
        WorkLowersRank(s);
      } else {
        OthersKeepRank(s, acts[0]);
      }
      LockHoldIsBounded(Step(s, acts[0]), acts[1..]);
    }
  }

  /** The thread alone, up to the point where it releases the lock. */
  function StepsToRelease(s: System): (k: nat)
    ensures k <= Rank(s)
    decreases Rank(s)
  {
    if !HoldsLock(s.pc) then 0
    else
      WorkLowersRank(s);
      1 + StepsToRelease(WorkStep(s))
  }

  function RunToRelease(s: System): System {
    WorkFor(s, StepsToRelease(s))
  }

  lemma {:induction false} ReleaseIsReached(s: System)
    ensures !HoldsLock(RunToRelease(s).pc)
    ensures HoldsLock(s.pc) ==> RunToRelease(s) == RunToRelease(WorkStep(s))
    decreases Rank(s)
  {
    if HoldsLock(s.pc) {
      WorkLowersRank(s);
      ReleaseIsReached(WorkStep(s));
    }
  }

  // ----- One pass without interference -----

  /** The thread at its next pop, one clean-up iteration after it holds an address. */
  function AfterIteration(s: System): System {
    var batching := WorkStep(WorkStep(WorkStep(s)));
    if batching.dev.counter >= batching.dev.batch then WorkStep(WorkStep(batching)) else WorkStep(batching)
  }

  lemma IterationCleansOne(s: System)
    requires s.pc.Cleaning?
    ensures AfterIteration(s).pc == Popping && AfterIteration(s).dev == CleanOne(s.dev, s.pc.v)
    ensures WorkStep(WorkStep(WorkStep(s))).pc == Batching
  {
    var s1 := WorkStep(s);
    assert s1.dev == Restored(s.dev, s.pc.v);
    var s3 := WorkStep(WorkStep(s1));
    assert s3.pc == Batching && s3.dev == s1.dev.(cq := InsertRing(s.dev.cq, s.pc.v), processing := false);
  }

  lemma IterationBeforeRelease(s: System)
    requires s.pc.Cleaning?
    ensures RunToRelease(s) == RunToRelease(AfterIteration(s))
  {
    IterationCleansOne(s);
    var s1 := WorkStep(s);
    var s2 := WorkStep(s1);
    var s3 := WorkStep(s2);
    ReleaseIsReached(s);
    ReleaseIsReached(s1);
    ReleaseIsReached(s2);
    ReleaseIsReached(s3);
    ReleaseIsReached(WorkStep(s3));
  }

  /** From a popped address, the thread alone does exactly what the clean-up loop computes. */
  lemma {:induction false} DrainIsCleanFrom(s: System)
    requires s.pc.Cleaning? && s.pc.v != 0
    ensures RunToRelease(s).pc == Locking && RunToRelease(s).dev == CleanFrom(s.dev, s.pc.v)
    decreases Used(s.dev.rq.buffer)
  {
    var t := AfterIteration(s);
    IterationCleansOne(s);
    IterationBeforeRelease(s);
    ReleaseIsReached(t);
    UsedAfterPop(s.dev.rq);
    var next := WorkStep(t);
    if next.pc.Cleaning? {
      DrainIsCleanFrom(next);
    }
  }

  /** A pass nobody interferes with is the device's Pass: restore, count, complete, until the
      RQ is empty, all under one hold of the lock. */
  lemma UninterruptedPassIsPass(s: System)
    requires s.pc == Marking
    ensures RunToRelease(s).pc == Locking && RunToRelease(s).dev == Pass(s.dev)
  {
    var s1 := WorkStep(s);
    var s2 := WorkStep(s1);
    var s3 := WorkStep(s2);
    ReleaseIsReached(s);
    ReleaseIsReached(s1);
    ReleaseIsReached(s2);
    assert s2.pc == Popping && s2.dev == s.dev.(processing := true, doorbell := false);
    if s3.pc.Cleaning? {
      DrainIsCleanFrom(s3);
    }
  }

  // ----- Which doorbell writes are served -----

  lemma {:induction false} AsleepForever(s: System, k: nat)
    requires s.pc.Asleep? || s.pc.GoingToSleep?
    ensures WorkFor(s, k).h.passes == s.h.passes
    decreases k
  {
    if k > 0 {
      AsleepForever(WorkStep(s), k - 1);
    }
  }

  predicate NoShutdown(acts: seq<Action>) {
    forall a :: a in acts ==> !a.StopSet?
  }

  /** Between the flag and the signal of a doorbell write, with p passes begun before: the write
      is served already, or the flag is set and the thread, if it is still between its test and
      its wait, has not moved since it was set. */
  ghost predicate AwaitsSignal(s: System, p: nat, dozing: bool) {
    && Flags(s) && !s.dev.stopping && s.h.passes >= p
    && (s.h.passes > p || (s.dev.doorbell && (s.pc.GoingToSleep? ==> dozing)))
  }

  lemma AwaitsSignalStep(s: System, a: Action, p: nat, dozing: bool)
    requires AwaitsSignal(s, p, dozing) && !a.StopSet?
    ensures AwaitsSignal(Step(s, a), p, dozing && !a.Work?)
  {
    FlagsStep(s, a);
    if !a.Work? {
      OthersOnlyWake(s, a);
      OthersKeepRequest(s, a);
    }
  }

  lemma OthersKeepRequest(s: System, a: Action)
    requires !a.Work? && !a.StopSet?
    ensures var s' := Step(s, a);
            s'.dev.stopping == s.dev.stopping && s'.h.passes == s.h.passes && (s.dev.doorbell ==> s'.dev.doorbell)
  {
  }

  lemma {:induction false} AwaitsSignalAlong(s: System, acts: seq<Action>, p: nat, dozing: bool)
    requires AwaitsSignal(s, p, dozing) && NoShutdown(acts)
    ensures AwaitsSignal(Exec(s, acts), p, dozing && CountWork(acts) == 0)
    decreases acts
  {
    if acts != [] {
      AwaitsSignalStep(s, acts[0], p, dozing);
      AwaitsSignalAlong(Step(s, acts[0]), acts[1..], p, dozing && !acts[0].Work?);
    }
  }

  lemma {:induction false} DozesWithoutWork(s: System, acts: seq<Action>)
    requires s.pc.GoingToSleep? && CountWork(acts) == 0
    requires NoShutdown(acts)
    ensures Exec(s, acts).pc == s.pc && Exec(s, acts).h.passes == s.h.passes
    decreases acts
  {
    if acts != [] {
      OthersOnlyWake(s, acts[0]);
      OthersKeepRequest(s, acts[0]);
      DozesWithoutWork(Step(s, acts[0]), acts[1..]);
    }
  }

  /** How many of its own steps the thread needs until it has begun more than p passes, once the
      doorbell is set and it is not asleep. */
  function Still(s: System, p: nat): nat {
    if s.h.passes > p then 0
    else match s.pc
      case Testing => 4
      case Deciding => 3
      case Marking => 2
      case Clearing => 1
      case _ => if HoldsLock(s.pc) then Rank(s) + 5 else 5
  }

  /** Whatever the other parties do short of shutdown, that many steps bring it there. */
  ghost predicate ServedByAll(s: System, p: nat) {
    forall acts :: NoShutdown(acts) && CountWork(acts) >= Still(s, p) ==>
      Exec(s, acts).h.passes > p
  }

  /** On its way: a pass has begun, or the doorbell is set and the thread is neither asleep nor
      about to be. */
  ghost predicate OnItsWay(s: System, p: nat) {
    AwaitsSignal(s, p, false) && (s.h.passes > p || !s.pc.Asleep?)
  }

  lemma WorkComesNearer(s: System, p: nat)
    requires OnItsWay(s, p)
    ensures OnItsWay(WorkStep(s), p)
    ensures Still(s, p) > 0 ==> Still(WorkStep(s), p) < Still(s, p)
  {
    AwaitsSignalStep(s, Work, p, false);
    if HoldsLock(s.pc) {
      WorkLowersRank(s);
    }
  }

  lemma OthersKeepStill(s: System, a: Action, p: nat)
    requires OnItsWay(s, p) && !a.Work? && !a.StopSet?
    ensures OnItsWay(Step(s, a), p) && Still(Step(s, a), p) == Still(s, p)
  {
    AwaitsSignalStep(s, a, p, false);
    OthersOnlyWake(s, a);
    OthersKeepRequest(s, a);
    if HoldsLock(s.pc) {
      OthersKeepRank(s, a);
    }
  }

  lemma {:induction false} ServedAlong(s: System, acts: seq<Action>, p: nat)
    requires OnItsWay(s, p) && CountWork(acts) >= Still(s, p)
    requires NoShutdown(acts)
    ensures Exec(s, acts).h.passes > p
    decreases acts
  {
    if acts != [] {
      if acts[0].Work? {
        WorkComesNearer(s, p);
      } else {
        OthersKeepStill(s, acts[0], p);
      }
      ServedAlong(Step(s, acts[0]), acts[1..], p);
    }
  }

  lemma OnItsWayIsServed(s: System, p: nat)
    requires OnItsWay(s, p)
    ensures ServedByAll(s, p)
  {
    forall acts | NoShutdown(acts) && CountWork(acts) >= Still(s, p)
      ensures Exec(s, acts).h.passes > p
    {
      ServedAlong(s, acts, p);
    }
  }

  lemma {:induction false} WorksAreWork(k: nat)
    ensures CountWork(Works(k)) == k
  {
    if k > 0 {
      assert Works(k)[1..] == Works(k - 1);
      WorksAreWork(k - 1);
    }
  }

  /** The thread, left alone, never begins another pass. */
  ghost predicate NeverServedAlone(s: System) {
    forall k: nat :: WorkFor(s, k).h.passes == s.h.passes
  }

  lemma NeverServedIsNotServed(s: System)
    requires NeverServedAlone(s)
    ensures !ServedByAll(s, s.h.passes)
  {
    var k := Still(s, s.h.passes);
    WorksAreWork(k);
    ExecWorks(s, k);
    assert Exec(s, Works(k)).h.passes == s.h.passes;
  }

  /** The system when the signal of a doorbell write at s has been given, mid having happened
      since the flag was set. */
  function AfterRing(s: System, mid: seq<Action>): System {
    Step(Exec(Step(s, Write(Reg.Doorbell, 1)), mid), Signal)
  }

  /** A doorbell write sets the flag and then signals, without the lock, and anyone may do
      anything short of shutdown between the two. After the signal every schedule, with a bounded
      number of the thread's steps, leads to a pass, unless the flag and the signal both fall
      between the thread's test of the doorbell and its wait: then the signal wakes nobody and
      the thread, left alone, sleeps on a set doorbell. */
  lemma RingIsServedIff(s: System, mid: seq<Action>)
    requires Reachable(s) && s.down.Running?
    requires NoShutdown(mid)
    requires Exec(Step(s, Write(Reg.Doorbell, 1)), mid).signals > 0  // the write's own signal is still to come
    ensures var t, missed := AfterRing(s, mid), s.pc.GoingToSleep? && CountWork(mid) == 0;
            && (ServedByAll(t, s.h.passes) <==> !missed)
            && (missed ==> t.dev.doorbell && NeverServedAlone(t))
  {
    var s0, t := Step(s, Write(Reg.Doorbell, 1)), AfterRing(s, mid);
    ReachableHasFlags(s);
    FlagsStep(s, Write(Reg.Doorbell, 1));
    AwaitsSignalAlong(s0, mid, s.h.passes, s.pc.GoingToSleep?);
    AwaitsSignalStep(Exec(s0, mid), Signal, s.h.passes, s.pc.GoingToSleep? && CountWork(mid) == 0);
    if s.pc.GoingToSleep? && CountWork(mid) == 0 {
      DozesWithoutWork(s0, mid);
      forall k: nat ensures WorkFor(t, k).h.passes == t.h.passes {
        AsleepForever(t, k);
      }
      NeverServedIsNotServed(t);
    } else {
      OnItsWayIsServed(t, s.h.passes);
    }
  }

  /** A missed doorbell is made up for by whatever wakes the thread later: after the signal of
      another doorbell write, or a spurious wake-up, every schedule leads to a pass. */
  lemma LaterWakeServes(s: System, a: Action)
    requires Reachable(s) && s.down.Running? && s.pc.Asleep? && s.dev.doorbell
    requires a.SpuriousWake? || (a.Signal? && s.signals > 0)
    ensures ServedByAll(Step(s, a), s.h.passes)
  {
    ReachableHasFlags(s);
    AwaitsSignalStep(s, a, s.h.passes, false);
    OnItsWayIsServed(Step(s, a), s.h.passes);
  }

  /** Every device gets into the gap between test and wait: its thread does so at once. */
  lemma GapIsReachable(n: nat, mem: seq<u8>, emulator: seq<u8>, cleanState: u64)
    requires n > 0
    ensures var s := Exec(Boot(n, mem, emulator, cleanState), Works(2));
            Reachable(s) && s.down.Running? && s.pc.GoingToSleep?
  {
    var s0 := Boot(n, mem, emulator, cleanState);
    ExecWorks(s0, 2);
    assert WorkFor(s0, 2) == WorkFor(WorkStep(s0), 1) == WorkFor(WorkStep(WorkStep(s0)), 0);
  }

  // ----- Shutdown -----

  /** What only a pass changes. */
  ghost predicate SameWork(s: System, s': System) {
    && s'.h.taken == s.h.taken && s'.h.offered == s.h.offered && s'.h.completed == s.h.completed
    && s'.h.passes == s.h.passes && s'.dev.msis == s.dev.msis
  }

  lemma StoppedStep(s: System, a: Action)
    requires Flags(s) && s.dev.stopping
    ensures SameWork(s, Step(s, a)) && Step(s, a).dev.stopping
    ensures !a.Store? ==> Step(s, a).dev.mem == s.dev.mem
  {
  }

  lemma {:induction false} QuietFrom(s: System, acts: seq<Action>)
    requires Flags(s) && s.dev.stopping
    ensures SameWork(s, Exec(s, acts))
    ensures (forall a :: a in acts ==> !a.Store?) ==> Exec(s, acts).dev.mem == s.dev.mem
    decreases acts
  {
    if acts != [] {
      FlagsStep(s, acts[0]);
      StoppedStep(s, acts[0]);
      QuietFrom(Step(s, acts[0]), acts[1..]);
    }
  }

  /** Once stopping is set, no schedule brings another pop, DMA, completion, pass or interrupt:
      only the guest's own stores still change its memory. */
  lemma StoppedStaysQuiet(s: System, acts: seq<Action>)
    requires Reachable(s) && s.dev.stopping
    ensures SameWork(s, Exec(s, acts))
    ensures (forall a :: a in acts ==> !a.Store?) ==> Exec(s, acts).dev.mem == s.dev.mem
  {
    ReachableHasFlags(s);
    QuietFrom(s, acts);
  }

  /** Steps the thread still takes once the shutdown signal was given. */
  function ExitRank(pc: Pc): nat {
    match pc
    case Exited => 0
    case Deciding => 1
    case Testing => 2
    case _ => 3
  }

  lemma {:induction false} ExitsFrom(s: System, acts: seq<Action>)
    requires Flags(s) && (s.down.Signalled? || s.down.Joined?)
    requires CountWork(acts) >= ExitRank(s.pc)
    ensures Exec(s, acts).pc.Exited? && Step(Exec(s, acts), StopJoin).down.Joined?
    decreases acts
  {
    if acts != [] {
      FlagsStep(s, acts[0]);
      ExitsFrom(Step(s, acts[0]), acts[1..]);
    }
  }

  /** The shutdown signal is not lost: under every schedule the thread has exited after at
      most three of its own steps, and from then on the join succeeds. */
  lemma ThreadExits(s: System, acts: seq<Action>)
    requires Reachable(s) && s.down.Signalled?
    requires CountWork(acts) >= 3
    ensures Exec(s, acts).pc.Exited? && Step(Exec(s, acts), StopJoin).down.Joined?
  {
    ReachableHasFlags(s);
    ExitsFrom(s, acts);
  }

  /** The system after uninit has set stopping and signalled, with the lock free at s. */
  function Told(s: System): System {
    Step(Step(s, StopSet), StopSignal)
  }

  lemma ToldThreadExits(s: System)
    requires Flags(s) && s.down.Running? && !HoldsLock(s.pc)
    ensures Step(WorkFor(Told(s), 3), StopJoin).down.Joined?
  {
    FlagsStep(s, StopSet);
    FlagsStep(Step(s, StopSet), StopSignal);
    ExecWorks(Told(s), 3);
    assert Works(3) == [Work, Work, Work];
    assert CountWork([Work, Work, Work]) == 3;
    ExitsFrom(Told(s), Works(3));
  }

  /** The whole of uninit: a bounded number of thread steps frees the lock, stopping can be
      set, and the thread then leaves. */
  lemma ShutdownCompletes(s: System)
    requires Reachable(s) && s.down.Running?
    ensures exists k: nat :: k <= Rank(s) && Step(WorkFor(Told(WorkFor(s, k)), 3), StopJoin).down.Joined?
  {
    var k := StepsToRelease(s);
    ReachableHasFlags(s);
    ReleaseIsReached(s);
    ExecWorks(s, k);
    FlagsAlways(s, Works(k));
    ThreadKeepsRunning(s, k);
    ToldThreadExits(WorkFor(s, k));
  }

  lemma {:induction false} ThreadKeepsRunning(s: System, k: nat)
    ensures WorkFor(s, k).down == s.down && WorkFor(s, k).h.accepted == s.h.accepted
    decreases k
  {
    if k > 0 {
      ThreadKeepsRunning(WorkStep(s), k - 1);
    }
  }
}
