/** States that occur: what the thread does on demand, every load of the queues, and a counter
    that is out of step with the batch factor. */
module Reachability {
  import opened Words
  import opened RingQueue
  import opened Device
  import opened Protocol
  import opened Conservation
  import opened Progress
  import opened Interrupts
  import opened Bus

  // ----- A pass on demand -----

  /** A system in which a doorbell write starts a pass that finds both queues in order. */
  ghost predicate CanPass(s: System) {
    !HoldsLock(s.pc) && !s.pc.Exited? && !s.dev.stopping && CqInOrder(s) && Sound(s.dev.rq) && Billed(s)
  }

  lemma {:induction false} InvariantsStay(s: System, acts: seq<Action>)
    requires CqInOrder(s) && Billed(s)
    ensures CqInOrder(Exec(s, acts)) && Billed(Exec(s, acts)) && Entries(Exec(s, acts)) == Entries(s)
    decreases acts
  {
    if acts != [] {
      CqStaysInOrder(s, acts[0]);
      BilledStep(s, acts[0]);
      EntriesStep(s, acts[0]);
      InvariantsStay(Step(s, acts[0]), acts[1..]);
    }
  }

  lemma InvariantsAtRelease(s: System, acts: seq<Action>)
    requires CqInOrder(s) && Billed(s)
    ensures var t := RunToRelease(Exec(s, acts));
            CqInOrder(t) && Billed(t) && Entries(t) == Entries(s)
  {
    var m := Exec(s, acts);
    var k := StepsToRelease(m);
    ExecWorks(m, k);
    ExecAppend(s, acts, Works(k));
    InvariantsStay(s, acts + Works(k));
  }

  /** A doorbell write and the pass that follows it. */
  lemma PassOnDemand(s: System)
    requires CanPass(s)
    ensures var t, n := RunToRelease(Exec(s, RingAndStart())), Entries(s);
            && CanPass(t) && Entries(t) == n && Contents(t.dev.rq) == []
            && Contents(t.dev.cq) == Filled(n, Contents(s.dev.cq), Contents(s.dev.rq))
  {
    RingStarts(s);
    var m := Exec(s, RingAndStart());
    UninterruptedPassIsPass(m);
    PassDrains(m.dev);
    InvariantsAtRelease(s, RingAndStart());
  }

  lemma SubmittedOnDemand(s: System, v: u64)
    requires CanPass(s) && v != 0
    ensures var t := Exec(s, Submit(v));
            && CanPass(t) && Entries(t) == Entries(s) && t.dev.cq == s.dev.cq
            && (|Contents(s.dev.rq)| < Entries(s) ==> Contents(t.dev.rq) == Contents(s.dev.rq) + [v])
  {
    SubmitEffect(s, v);
    InsertIsFifo(s.dev.rq, v);
    InvariantsStay(s, Submit(v));
  }

  // ----- Every load of the queues -----

  /** A reachable state of a running device with c and r addresses in its queues. */
  ghost predicate Loaded(s: System, n: nat, c: nat, r: nat) {
    && Reachable(s) && s.down.Running? && 0 !in s.h.accepted && CanPass(s)
    && Entries(s) == n && |Contents(s.dev.cq)| == c && |Contents(s.dev.rq)| == r
  }

  lemma ReachableGoesOn(s: System, acts: seq<Action>)
    requires Reachable(s)
    ensures Reachable(Exec(s, acts))
  {
    var n: nat, mem, emulator, cleanState, acts0 :| n > 0 && s == Exec(Boot(n, mem, emulator, cleanState), acts0);
    ExecAppend(Boot(n, mem, emulator, cleanState), acts0, acts);
  }

  lemma LoadOneMore(s: System, n: nat, c: nat, r: nat)
    requires Loaded(s, n, c, r) && r < n
    ensures Loaded(Exec(s, Submit(1)), n, c, r + 1)
  {
    ReachableGoesOn(s, Submit(1));
    SubmittedOnDemand(s, 1);
    SubmitEffect(s, 1);
  }

  lemma LoadCq(s: System, n: nat, c: nat)
    requires Loaded(s, n, c, 1) && c < n
    ensures Loaded(RunToRelease(Exec(s, RingAndStart())), n, c + 1, 0)
  {
    var m := Exec(s, RingAndStart());
    var k := StepsToRelease(m);
    PassOnDemand(s);
    RingStarts(s);
    ThreadKeepsRunning(m, k);
    ExecWorks(m, k);
    ReachableGoesOn(s, RingAndStart());
    ReachableGoesOn(m, Works(k));
  }

  lemma BootIsLoaded(n: nat, mem: seq<u8>, emulator: seq<u8>, cleanState: u64)
    requires n > 0
    ensures Loaded(Boot(n, mem, emulator, cleanState), n, 0, 0)
  {
    EmptyRingIsSound(n);
    assert Boot(n, mem, emulator, cleanState) == Exec(Boot(n, mem, emulator, cleanState), []);
  }

  ghost predicate CanLoad(n: nat, c: nat, r: nat) {
    exists s :: Loaded(s, n, c, r)
  }

  lemma CanLoadNothing(n: nat)
    requires n > 0
    ensures CanLoad(n, 0, 0)
  {
    BootIsLoaded(n, [], [], 0);
  }

  lemma CanLoadOneMore(n: nat, c: nat, r: nat)
    requires CanLoad(n, c, r) && r < n
    ensures CanLoad(n, c, r + 1)
  {
    var s :| Loaded(s, n, c, r);
    LoadOneMore(s, n, c, r);
  }

  lemma CanLoadCq(n: nat, c: nat)
    requires CanLoad(n, c, 1) && c < n
    ensures CanLoad(n, c + 1, 0)
  {
    var s :| Loaded(s, n, c, 1);
    LoadCq(s, n, c);
  }

  /** Every load of the two queues is reached, with the lock free. */
  lemma {:induction false} EveryLoadIsReachable(n: nat, c: nat, r: nat)
    requires n > 0 && c <= n && r <= n
    ensures CanLoad(n, c, r)
    decreases c, r
  {
    if r > 0 {
      EveryLoadIsReachable(n, c, r - 1);
      CanLoadOneMore(n, c, r - 1);
    } else if c > 0 {
      EveryLoadIsReachable(n, c - 1, 0);
      CanLoadOneMore(n, c - 1, 0);
      CanLoadCq(n, c - 1);
    } else {
      CanLoadNothing(n);
    }
  }

  // ----- The counter out of step -----

  /** The device at the start of a pass, rung for a single submission, nothing counted so far. */
  ghost predicate OneRungFor(m: System, b: u32) {
    && Reachable(m) && m.down.Running? && m.pc == Marking && CqInOrder(m)
    && Sound(m.dev.rq) && |Contents(m.dev.rq)| == 1
    && m.dev.batch == b && m.dev.msis == [] && m.dev.counter == 0
  }

  lemma OneIsRungFor(n: nat, mem: seq<u8>, emulator: seq<u8>, cleanState: u64, b: u32)
    requires n > 0
    ensures var s := Exec(Boot(n, mem, emulator, cleanState), [Write(BatchFactor, b)]);
            OneRungFor(Exec(Exec(s, Submit(1)), RingAndStart()), b)
  {
    var s0 := Boot(n, mem, emulator, cleanState);
    var s1 := Exec(s0, [Write(BatchFactor, b)]);
    var s2 := Exec(s1, Submit(1));
    var m := Exec(s2, RingAndStart());
    BootIsLoaded(n, mem, emulator, cleanState);
    ReachableGoesOn(s0, [Write(BatchFactor, b)]);
    BatchWritten(s0, b);
    SubmittedOnDemand(s1, 1);
    SubmitEffect(s1, 1);
    ReachableGoesOn(s1, Submit(1));
    RingStarts(s2);
    ReachableGoesOn(s2, RingAndStart());
    ReachableHasInv(m);
  }

  lemma BatchWritten(s: System, b: u32)
    ensures Exec(s, [Write(BatchFactor, b)]) == s.(dev := s.dev.(batch := b))
  {
    assert [Write(BatchFactor, b)][1..] == [];
    assert Exec(s, [Write(BatchFactor, b)]) == Step(s, Write(BatchFactor, b));
  }

  /** With batch factor 2 the pass leaves one virtine counted. */
  lemma OneIsCounted(m: System)
    requires OneRungFor(m, 2)
    ensures var t := RunToRelease(m);
            Reachable(t) && t.pc == Locking && t.dev.counter == 1
  {
    var k := StepsToRelease(m);
    var t := RunToRelease(m);
    UninterruptedPassIsPass(m);
    PassDrains(m.dev);
    ExecWorks(m, k);
    ReachableGoesOn(m, Works(k));
    ReachableIsBilled(m);
    ReachableIsBilled(t);
    SteadyBatchAccounting(m, Works(k), 2);
  }

  lemma PopsOne(m: System)
    requires OneRungFor(m, 1)
    ensures var s := WorkFor(m, 3);
            s.pc.Cleaning? && s.dev.counter == 0 && s.dev.batch == 1
  {
    PopIsFifo(m.dev.rq);
    var s2 := WorkStep(WorkStep(m));
    assert s2.pc == Popping && s2.dev == m.dev.(processing := true, doorbell := false);
    assert WorkFor(m, 3) == WorkFor(WorkStep(m), 2) == WorkFor(s2, 1) == WorkFor(WorkStep(s2), 0);
  }

  lemma CountsOne(s: System)
    requires s.pc.Cleaning? && s.dev.counter == 0 && s.dev.batch == 1
    ensures WorkFor(s, 4).pc == Notifying && WorkFor(s, 4).dev.counter == 1
  {
    var s1 := WorkStep(s);
    assert s1.pc.Completing? && s1.dev.counter == 1 && s1.dev.batch == 1;
    var s3 := WorkStep(WorkStep(s1));
    assert s3.pc == Batching && s3.dev.counter == 1 && s3.dev.batch == 1;
    assert WorkFor(s, 4) == WorkFor(s1, 3) == WorkFor(WorkStep(s1), 2) == WorkFor(s3, 1) == WorkFor(WorkStep(s3), 0);
  }

  /** With batch factor 1 the thread gets to the point of raising its interrupt. */
  lemma OneIsToBeNotified(m: System)
    requires OneRungFor(m, 1)
    ensures var t := Exec(Exec(m, Works(3)), Works(4));
            Reachable(t) && t.pc == Notifying && t.dev.counter == 1
  {
    PopsOne(m);
    CountsOne(WorkFor(m, 3));
    ExecWorks(m, 3);
    ExecWorks(WorkFor(m, 3), 4);
    ReachableGoesOn(m, Works(3));
    ReachableGoesOn(Exec(m, Works(3)), Works(4));
  }

  /** Every device reaches states out of step, of either kind: lowering the batch factor from 2 to
      1 between passes leaves the counter ahead, and raising it from 1 to 2 under a decided
      interrupt makes that one announce fewer. */
  lemma OutOfStepIsReachable(n: nat, mem: seq<u8>, emulator: seq<u8>, cleanState: u64)
    requires n > 0
    ensures var s0 := Boot(n, mem, emulator, cleanState);
            var m1 := Exec(Exec(Exec(s0, [Write(BatchFactor, 1)]), Submit(1)), RingAndStart());
            var m2 := Exec(Exec(Exec(s0, [Write(BatchFactor, 2)]), Submit(1)), RingAndStart());
            var ahead := Exec(RunToRelease(m2), [Write(BatchFactor, 1)]);
            var tooFew := Exec(Exec(Exec(m1, Works(3)), Works(4)), [Write(BatchFactor, 2)]);
            Reachable(ahead) && Ahead(ahead) && Reachable(tooFew) && TooFew(tooFew)
  {
    var s0 := Boot(n, mem, emulator, cleanState);
    var m1 := Exec(Exec(Exec(s0, [Write(BatchFactor, 1)]), Submit(1)), RingAndStart());
    var m2 := Exec(Exec(Exec(s0, [Write(BatchFactor, 2)]), Submit(1)), RingAndStart());
    OneIsRungFor(n, mem, emulator, cleanState, 1);
    OneIsRungFor(n, mem, emulator, cleanState, 2);
    OneIsCounted(m2);
    OneIsToBeNotified(m1);
    LoweredIsAhead(RunToRelease(m2));
    RaisedIsTooFew(Exec(Exec(m1, Works(3)), Works(4)));
  }

  lemma LoweredIsAhead(t: System)
    requires Reachable(t) && t.pc == Locking && t.dev.counter == 1
    ensures var s := Exec(t, [Write(BatchFactor, 1)]); Reachable(s) && Ahead(s)
  {
    BatchWritten(t, 1);
    ReachableGoesOn(t, [Write(BatchFactor, 1)]);
    ReachableIsBilled(Exec(t, [Write(BatchFactor, 1)]));
  }

  lemma RaisedIsTooFew(t: System)
    requires Reachable(t) && t.pc == Notifying && t.dev.counter == 1
    ensures var s := Exec(t, [Write(BatchFactor, 2)]); Reachable(s) && TooFew(s)
  {
    BatchWritten(t, 2);
    ReachableGoesOn(t, [Write(BatchFactor, 2)]);
  }
}
