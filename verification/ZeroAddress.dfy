/** What an address of 0 does to the request queue. Nothing rejects it, and a pass takes the 0
    it pops for the end of the queue. */
module ZeroAddress {
  import opened Words
  import opened RingQueue
  import opened Device
  import opened Protocol
  import opened Conservation
  import opened Doorbell
  import opened Progress

  // ----- What a pass leaves behind -----

  /** No used slot comes after a free one in the cyclic order from HEAD. */
  ghost predicate NoGap(r: Ring) {
    forall i: nat, j: nat :: i < j < |r.buffer| && r.buffer[Slot(|r.buffer|, r.head, i)] == 0 ==>
      r.buffer[Slot(|r.buffer|, r.head, j)] == 0
  }

  /** The queue after popping until a pop returns 0. */
  function Emptied(r: Ring): (r': Ring)
    ensures |r'.buffer| == |r.buffer|
    decreases Used(r.buffer)
  {
    UsedAfterPop(r);
    if PopValue(r) == 0 then PopRing(r) else Emptied(PopRing(r))
  }

  lemma PopKeepsGaps(r: Ring)
    requires PopValue(r) != 0
    ensures NoGap(PopRing(r)) <==> NoGap(r)
  {
    var n, r' := |r.buffer|, PopRing(r);
    SlotsAfterPop(r);
    assert Slot(n, r.head, 0) == r.head;
    if NoGap(r') {
      forall i: nat, j: nat | i < j < n && r.buffer[Slot(n, r.head, i)] == 0
        ensures r.buffer[Slot(n, r.head, j)] == 0
      {
        assert r'.buffer[Slot(n, r'.head, i - 1)] == 0;
        assert r'.buffer[Slot(n, r'.head, j - 1)] == 0;
      }
    }
  }

  lemma FreeHeadHasNoGapIff(r: Ring)
    requires PopValue(r) == 0
    ensures NoGap(r) <==> AllSlots(r, false)
    ensures AllSlots(PopRing(r), false) <==> AllSlots(r, false)
  {
    var n := |r.buffer|;
    assert Slot(n, r.head, 0) == r.head;
    assert PopRing(r).buffer == r.buffer;
    if NoGap(r) {
      forall k: nat | k < n
        ensures r.buffer[k] == 0
      {
        assert r.buffer[Slot(n, r.head, Position(n, r.head, k))] == 0;
      }
    }
  }

  /** Which queues it empties. */
  lemma {:induction false} EmptiedIff(r: Ring)
    ensures AllSlots(Emptied(r), false) <==> NoGap(r)
    decreases Used(r.buffer)
  {
    UsedAfterPop(r);
    if PopValue(r) == 0 {
      FreeHeadHasNoGapIff(r);
    } else {
      PopKeepsGaps(r);
      EmptiedIff(PopRing(r));
    }
  }

  /** What lies beyond a free slot stays. */
  lemma {:induction false} BeyondGapStays(r: Ring, i: nat, j: nat)
    requires i < j < |r.buffer| && r.buffer[Slot(|r.buffer|, r.head, i)] == 0
    ensures r.buffer[Slot(|r.buffer|, r.head, j)] in Emptied(r).buffer
    decreases Used(r.buffer)
  {
    UsedAfterPop(r);
    assert Slot(|r.buffer|, r.head, 0) == r.head;
    if PopValue(r) == 0 {
      assert PopRing(r).buffer == r.buffer;
    } else {
      SlotsAfterPop(r);
      BeyondGapStays(PopRing(r), i - 1, j - 1);
    }
  }

  lemma {:induction false} LoopEmpties(d: Device, v: u64)
    ensures CleanFrom(d, v).rq == if v == 0 then d.rq else Emptied(d.rq)
    decreases Used(d.rq.buffer), v
  {
    if v != 0 {
      UsedAfterPop(d.rq);
      var d' := CleanOne(d, v);
      LoopEmpties(d'.(rq := PopRing(d'.rq)), PopValue(d'.rq));
    }
  }

  /** For every device, sound or not: a pass leaves the RQ empty if and only if the RQ had no gap. */
  lemma PassEmptiesIff(d: Device)
    ensures AllSlots(Pass(d).rq, false) <==> NoGap(d.rq)
  {
    LoopEmpties(d.(processing := true, doorbell := false, rq := PopRing(d.rq)), PopValue(d.rq));
    EmptiedIff(d.rq);
  }

  /** From the start of a pass the thread keeps the lock until the last of these steps. */
  ghost predicate HeldUntilEnd(s: System, acts: seq<Action>)
    decreases acts
  {
    if acts == [] then !HoldsLock(s.pc) else HoldsLock(s.pc) && HeldUntilEnd(Step(s, acts[0]), acts[1..])
  }

  lemma {:induction false} DrainEmpties(s: System, acts: seq<Action>)
    requires s.pc.Marking? || s.pc.Clearing? || Draining(s.pc)
    requires HeldUntilEnd(s, acts)
    ensures Exec(s, acts).dev.rq == Emptied(s.dev.rq)
    decreases acts
  {
    var s' := Step(s, acts[0]);
    if !acts[0].Work? {
      OthersKeepRank(s, acts[0]);
      DrainEmpties(s', acts[1..]);
    } else if s.pc.Popping? && PopValue(s.dev.rq) == 0 {
      assert s'.dev.rq == Emptied(s.dev.rq) && acts[1..] == [];
    } else {
      assert s'.dev.rq == if s.pc.Popping? then PopRing(s.dev.rq) else s.dev.rq;
      DrainEmpties(s', acts[1..]);
    }
  }

  /** Whatever the other parties do during a pass, it ends with every submitted address popped
      if and only if the RQ had no gap when it began. */
  lemma NothingLeftIff(s: System, acts: seq<Action>)
    requires s.pc.Marking? && HeldUntilEnd(s, acts)
    ensures AllSlots(Exec(s, acts).dev.rq, false) <==> NoGap(s.dev.rq)
  {
    DrainEmpties(s, acts);
    EmptiedIff(s.dev.rq);
  }

  // ----- Which submissions make a gap -----

  lemma SoundHasNoGap(r: Ring)
    requires Sound(r)
    ensures NoGap(r)
  {
    forall i: nat, j: nat | i < j < |r.buffer| && r.buffer[Slot(|r.buffer|, r.head, i)] == 0
      ensures r.buffer[Slot(|r.buffer|, r.head, j)] == 0
    {
      assert i >= Count(r);
    }
  }

  lemma ZeroThenGap(r: Ring, x: u64)
    requires Sound(r) && x != 0 && |Contents(r)| + 2 <= |r.buffer|
    ensures var r', n, k := InsertRing(InsertRing(r, 0), x), |r.buffer|, |Contents(r)|;
            && r'.head == r.head
            && r'.buffer[Slot(n, r.head, k)] == 0 && r'.buffer[Slot(n, r.head, k + 1)] == x
  {
    var n, k, r1 := |r.buffer|, |Contents(r)|, InsertRing(r, 0);
    MeetingPointersDecide(r);
    assert Slot(n, r.head, k) == r.tail && r.buffer[r.tail] == 0;
    assert r1.buffer == r.buffer;
    assert Slot(n, r.head, k + 1) == r1.tail && r1.buffer[r1.tail] == 0;
  }

  lemma ZeroWithoutRoom(r: Ring, x: u64)
    requires Sound(r) && x != 0 && |Contents(r)| + 2 > |r.buffer|
    ensures NoGap(InsertRing(InsertRing(r, 0), x))
  {
    var n, k, r1 := |r.buffer|, |Contents(r)|, InsertRing(r, 0);
    MeetingPointersDecide(r);
    SoundHasNoGap(r);
    if k == n {
      assert InsertRing(r1, x) == r;
    } else if n == 1 {
      assert r1 == r;
      InsertIsFifo(r, x);
      SoundHasNoGap(InsertRing(r, x));
    } else {
      assert Slot(n, r.head, k) == r.tail && Slot(n, r.head, 0) == r.head;
      assert r1.tail == r1.head && r1.buffer == r.buffer && InsertRing(r1, x) == r1;
      assert r.buffer[Slot(n, r.head, 0)] != 0;
    }
  }

  /** Which of two submissions to a working queue make a gap: a 0 that both it and x fit behind. */
  lemma TwoInsertsGapIff(r: Ring, v: u64, x: u64)
    requires Sound(r) && x != 0
    ensures var r' := InsertRing(InsertRing(r, v), x);
            && (NoGap(r') <==> v != 0 || |Contents(r)| + 2 > |r.buffer|)
            && (x in Emptied(r').buffer <==> v == 0 && |Contents(r)| + 2 <= |r.buffer|)
  {
    var r' := InsertRing(InsertRing(r, v), x);
    EmptiedIff(r');
    if v != 0 {
      InsertIsFifo(r, v);
      InsertIsFifo(InsertRing(r, v), x);
      SoundHasNoGap(r');
    } else if |Contents(r)| + 2 > |r.buffer| {
      ZeroWithoutRoom(r, x);
    } else {
      ZeroThenGap(r, x);
      BeyondGapStays(r', |Contents(r)|, |Contents(r)| + 1);
    }
  }

  // ----- Rung work that is forgotten -----

  /** v and then x are submitted, the doorbell is rung, and the thread goes on to a pass. */
  function SubmitTwoAndRing(v: u64, x: u64): seq<Action> {
    Submit(v) + Submit(x) + RingAndStart()
  }

  lemma TwoSubmitted(s: System, v: u64, x: u64)
    requires !HoldsLock(s.pc) && !s.pc.Exited? && !s.dev.stopping
    ensures var m := Exec(s, SubmitTwoAndRing(v, x));
            && m.pc == Marking && m.dev.rq == InsertRing(InsertRing(s.dev.rq, v), x)
            && m.h.submitted == s.h.submitted + [v, x] && m.h.rungAt == |m.h.accepted|
  {
    var s1 := Exec(s, Submit(v));
    var s2 := Exec(s1, Submit(x));
    SubmitEffect(s, v);
    SubmitEffect(s1, x);
    RingStarts(s2);
    ExecAppend(s, Submit(v), Submit(x));
    ExecAppend(s, Submit(v) + Submit(x), RingAndStart());
  }

  /** The pass after those submissions has ended with x still queued and the doorbell clear. */
  ghost predicate Forgotten(m: System, x: u64) {
    var t := RunToRelease(m);
    x in t.dev.rq.buffer && !t.dev.doorbell && t.pc == Locking
  }

  /** Two addresses go into a working RQ and are rung for. The pass forgets the second one
      if and only if the first is 0 and there was room for both. */
  lemma RungWorkForgottenIff(s: System, v: u64, x: u64)
    requires Reachable(s) && 0 !in s.h.accepted && s.down.Running? && !HoldsLock(s.pc) && x != 0
    ensures var m := Exec(s, SubmitTwoAndRing(v, x));
            && x in m.h.submitted && m.h.rungAt == |m.h.accepted|
            && (Forgotten(m, x) <==> v == 0 && |Contents(s.dev.rq)| + 2 <= |s.dev.rq.buffer|)
  {
    ReachableHasInv(s);
    ReachableHasFlags(s);
    TwoSubmitted(s, v, x);
    var m := Exec(s, SubmitTwoAndRing(v, x));
    UninterruptedPassIsPass(m);
    var d := m.dev.(processing := true, doorbell := false, rq := PopRing(m.dev.rq));
    LoopEmpties(d, PopValue(m.dev.rq));
    LoopKeepsTheRest(d, PopValue(m.dev.rq));
    TwoInsertsGapIff(s.dev.rq, v, x);
  }

  /** So 0 must not be submitted, from the first submission on. */
  lemma ZeroHidesRungWork(n: nat, mem: seq<u8>, emulator: seq<u8>, cleanState: u64, x: u64)
    requires n >= 2 && x != 0
    ensures Forgotten(Exec(Boot(n, mem, emulator, cleanState), SubmitTwoAndRing(0, x)), x)
  {
    EmptyRingIsSound(n);
    assert Boot(n, mem, emulator, cleanState) == Exec(Boot(n, mem, emulator, cleanState), []);
    RungWorkForgottenIff(Boot(n, mem, emulator, cleanState), 0, x);
  }

  /** Which submission leaves the RQ a queue. */
  lemma SubmissionKeepsOrderIff(s: System, val: u64)
    requires RqInOrder(s) && 0 !in s.h.accepted && |s.dev.rq.buffer| >= 2 && !HoldsLock(s.pc)
    ensures Sound(WriteStep(s, RqTailHi, val).dev.rq)
       <==> Assembled(s.dev, val) != 0 || |Contents(s.dev.rq)| == |s.dev.rq.buffer|
  {
    InsertKeepsSoundIff(s.dev.rq, Assembled(s.dev, val));
    MeetingPointersDecide(s.dev.rq);
  }
}
