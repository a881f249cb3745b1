/** Interrupt accounting: which virtines an MSI announces, over every schedule. */
module Interrupts {
  import opened Words
  import opened RingQueue
  import opened Device
  import opened Protocol
  import opened Conservation

  /** Virtines restored and counted so far. */
  function Cleaned(s: System): nat {
    |s.h.offered| + if s.pc.Completing? then 1 else 0
  }

  /** Between the count and the comparison with the batch factor. */
  predicate Counting(pc: Pc) {
    pc.Completing? || pc.Lowering? || pc.Batching? || pc.Notifying?
  }

  ghost predicate Billed(s: System) {
    && Sum(s.dev.msis) + s.dev.counter == Cleaned(s)
    && (if Counting(s.pc) then s.dev.counter >= 1 else s.dev.counter < TWO32 - 1)
  }

  lemma SumSnoc(ms: seq<nat>, x: nat)
    ensures Sum(ms + [x]) == Sum(ms) + x
  {
    assert (ms + [x])[..|ms|] == ms;
  }

  lemma BilledNotice(s: System)
    requires Billed(s) && s.pc.Notifying?
    ensures Billed(WorkStep(s))
  {
    SumSnoc(s.dev.msis, s.dev.counter);
  }

  lemma BilledCount(s: System)
    requires Billed(s) && (s.pc.Cleaning? || s.pc.Completing?)
    ensures Billed(WorkStep(s))
  {
    assert WorkStep(s).dev.msis == s.dev.msis;
  }

  lemma BilledWork(s: System)
    requires Billed(s)
    ensures Billed(WorkStep(s))
  {
    if s.pc.Notifying? {
      BilledNotice(s);
    } else if s.pc.Cleaning? || s.pc.Completing? {
      BilledCount(s);
    } else {
      assert WorkStep(s).dev.msis == s.dev.msis;
    }
  }

  lemma BilledStep(s: System, a: Action)
    requires Billed(s)
    ensures Billed(Step(s, a))
  {
    if a.Work? {
      BilledWork(s);
    } else {
      OthersOnlyWake(s, a);
      OthersKeepAccounts(s, a);
    }
  }

  lemma {:induction false} BilledAlways(s: System, acts: seq<Action>)
    requires Billed(s)
    ensures Billed(Exec(s, acts))
    decreases acts
  {
    if acts != [] {
      BilledStep(s, acts[0]);
      BilledAlways(Step(s, acts[0]), acts[1..]);
    }
  }

  /** Past the insert the CQ cannot be empty: the host cannot pop while the lock is held. */
  ghost predicate CqFedBeforeNotice(s: System) {
    s.pc.Lowering? || s.pc.Batching? || s.pc.Notifying? ==> PopValue(s.dev.cq) != 0
  }

  lemma CqFedStep(s: System, a: Action)
    requires CqFedBeforeNotice(s) && CqInOrder(s)
    ensures CqFedBeforeNotice(Step(s, a))
  {
    if a.Work? && s.pc.Completing? {
      MeetingPointersDecide(s.dev.cq);
    } else if HoldsLock(s.pc) {
      assert Step(s, a).dev.cq == s.dev.cq;
    }
  }

  lemma {:induction false} CqFedAlways(s: System, acts: seq<Action>)
    requires CqFedBeforeNotice(s) && CqInOrder(s)
    ensures CqFedBeforeNotice(Exec(s, acts))
    decreases acts
  {
    if acts != [] {
      CqFedStep(s, acts[0]);
      CqStaysInOrder(s, acts[0]);
      CqFedAlways(Step(s, acts[0]), acts[1..]);
    }
  }

  lemma ReachableIsBilled(s: System)
    requires Reachable(s)
    ensures Billed(s)
  {
    var n: nat, mem, emulator, cleanState, acts :| n > 0 && s == Exec(Boot(n, mem, emulator, cleanState), acts);
    BilledAlways(Boot(n, mem, emulator, cleanState), acts);
  }

  lemma ReachableIsFed(s: System)
    requires Reachable(s)
    ensures CqFedBeforeNotice(s)
  {
    var n: nat, mem, emulator, cleanState, acts :| n > 0 && s == Exec(Boot(n, mem, emulator, cleanState), acts);
    BootHasInv(n, mem, emulator, cleanState);
    CqFedAlways(Boot(n, mem, emulator, cleanState), acts);
  }

  /** However the batch factor is rewritten: the virtines cleaned are those announced plus the
      counter, the 32-bit counter never wraps, and an interrupt is raised for at least one
      virtine and with a completion queue that is not empty. */
  lemma InterruptsAccountForAll(s: System)
    requires Reachable(s)
    ensures Sum(s.dev.msis) + s.dev.counter == Cleaned(s)
    ensures s.pc.Cleaning? ==> WorkStep(s).dev.counter == s.dev.counter + 1
    ensures s.pc.Notifying? ==> s.dev.counter >= 1 && Contents(s.dev.cq) != []
  {
    ReachableIsBilled(s);
    ReachableIsFed(s);
    ReachableHasInv(s);
    PopIsFifo(s.dev.cq);
  }

  // ----- A constant batch factor -----

  function AtLeastOne(b: nat): nat {
    if b == 0 then 1 else b
  }

  /** The counter stays below the batch factor between iterations and reaches it in one. */
  ghost predicate Steady(s: System, b: u32) {
    && s.dev.batch == b
    && (s.pc.Notifying? ==> s.dev.counter == AtLeastOne(b))
    && s.dev.counter <= AtLeastOne(b)
    && (!Counting(s.pc) ==> s.dev.counter < AtLeastOne(b))
  }

  /** Every interrupt since the first `since` announced exactly the batch. */
  ghost predicate FullBatches(s: System, b: u32, since: nat) {
    since <= |s.dev.msis| && forall i :: since <= i < |s.dev.msis| ==> s.dev.msis[i] == AtLeastOne(b)
  }

  predicate LeavesBatch(a: Action) {
    a.Write? ==> a.r != BatchFactor
  }

  lemma SteadyWork(s: System, b: u32, since: nat)
    requires Billed(s) && Steady(s, b) && FullBatches(s, b, since)
    ensures Steady(WorkStep(s), b) && FullBatches(WorkStep(s), b, since)
  {
  }

  lemma SteadyStep(s: System, a: Action, b: u32, since: nat)
    requires Billed(s) && Steady(s, b) && FullBatches(s, b, since) && LeavesBatch(a)
    ensures Steady(Step(s, a), b) && FullBatches(Step(s, a), b, since)
  {
    if a.Work? {
      SteadyWork(s, b, since);
    } else {
      OthersOnlyWake(s, a);
      OthersKeepAccounts(s, a);
    }
  }

  lemma {:induction false} SteadyAlways(s: System, acts: seq<Action>, b: u32, since: nat)
    requires Billed(s) && Steady(s, b) && FullBatches(s, b, since)
    requires forall a :: a in acts ==> LeavesBatch(a)
    ensures Billed(Exec(s, acts)) && Steady(Exec(s, acts), b) && FullBatches(Exec(s, acts), b, since)
    decreases acts
  {
    if acts != [] {
      BilledStep(s, acts[0]);
      SteadyStep(s, acts[0], b, since);
      SteadyAlways(Step(s, acts[0]), acts[1..], b, since);
    }
  }

  lemma {:induction false} SumOfEqual(ms: seq<nat>, since: nat, m: nat)
    requires since <= |ms| && forall i :: since <= i < |ms| ==> ms[i] == m
    ensures Sum(ms) == Sum(ms[..since]) + (|ms| - since) * m
    decreases |ms|
  {
    if since == |ms| {
      assert ms[..since] == ms;
    } else {
      var init := ms[..|ms| - 1];
      SumOfEqual(init, since, m);
      assert init[..since] == ms[..since];
      assert (|ms| - since) * m == (|init| - since) * m + m;
    }
  }

  // ----- When the counter keeps step -----

  lemma BootIsSteady(n: nat, mem: seq<u8>, emulator: seq<u8>, cleanState: u64)
    requires n > 0
    ensures Steady(Boot(n, mem, emulator, cleanState), 1)
  {
  }

  /** Rewriting the batch factor keeps it so exactly when the virtines counted so far fit the
      new batch: with one place to spare outside an iteration, and exactly at an interrupt. */
  lemma BatchWriteKeepsSteadyIff(s: System, b: u32, val: u64)
    requires Steady(s, b)
    ensures Steady(Step(s, Write(BatchFactor, val)), Low32(val))
       <==> (if s.pc.Notifying? then s.dev.counter == AtLeastOne(Low32(val))
             else s.dev.counter < AtLeastOne(Low32(val)) + if Counting(s.pc) then 1 else 0)
  {
  }

  /** Whatever the counter was, an interrupt puts it back in step. */
  lemma InterruptMakesSteady(s: System)
    requires s.pc.Notifying?
    ensures Steady(WorkStep(s), s.dev.batch)
  {
  }

  /** About to raise an interrupt for fewer virtines than the batch factor by now asks for. */
  predicate TooFew(s: System) {
    s.pc.Notifying? && s.dev.counter < AtLeastOne(s.dev.batch)
  }

  /** Out of step otherwise, the counter is ahead, and stays so up to the next interrupt. */
  ghost predicate Ahead(s: System) {
    Billed(s) && !Steady(s, s.dev.batch) && !TooFew(s)
  }

  lemma AheadWork(s: System)
    requires Ahead(s)
    ensures var s' := WorkStep(s);
            if s.pc.Notifying? then
              s'.dev.msis == s.dev.msis + [s.dev.counter] && s.dev.counter > AtLeastOne(s.dev.batch)
            else
              s'.dev.msis == s.dev.msis && s'.dev.batch == s.dev.batch && !Steady(s', s.dev.batch) && !TooFew(s')
  {
  }

  lemma TooFewWork(s: System)
    requires TooFew(s)
    ensures WorkStep(s).dev.msis == s.dev.msis + [s.dev.counter]
  {
  }

  lemma OthersLeaveSteady(s: System, a: Action)
    requires !a.Work? && LeavesBatch(a)
    ensures var s' := Step(s, a);
            && s'.dev.msis == s.dev.msis && s'.dev.batch == s.dev.batch
            && (Steady(s', s.dev.batch) <==> Steady(s, s.dev.batch)) && (TooFew(s') <==> TooFew(s))
  {
    OthersOnlyWake(s, a);
    OthersKeepAccounts(s, a);
  }

  lemma {:induction false} InterruptsOnlyAdd(s: System, acts: seq<Action>)
    ensures s.dev.msis <= Exec(s, acts).dev.msis
    decreases acts
  {
    if acts != [] {
      if !acts[0].Work? {
        OthersKeepAccounts(s, acts[0]);
      }
      assert s.dev.msis <= Step(s, acts[0]).dev.msis;
      InterruptsOnlyAdd(Step(s, acts[0]), acts[1..]);
    }
  }

  lemma {:induction false} FirstWhenAhead(s: System, acts: seq<Action>)
    requires Ahead(s)
    requires forall a :: a in acts ==> LeavesBatch(a)
    ensures var s', since := Exec(s, acts), |s.dev.msis|;
            |s'.dev.msis| > since ==> s'.dev.msis[since] > AtLeastOne(s.dev.batch)
    decreases acts
  {
    if acts != [] {
      var s' := Step(s, acts[0]);
      BilledStep(s, acts[0]);
      if acts[0].Work? && s.pc.Notifying? {
        AheadWork(s);
        InterruptsOnlyAdd(s', acts[1..]);
      } else {
        if acts[0].Work? {
          AheadWork(s);
        } else {
          OthersLeaveSteady(s, acts[0]);
        }
        FirstWhenAhead(s', acts[1..]);
      }
    }
  }

  lemma {:induction false} FirstWhenTooFew(s: System, acts: seq<Action>)
    requires TooFew(s)
    requires forall a :: a in acts ==> LeavesBatch(a)
    ensures var s', since := Exec(s, acts), |s.dev.msis|;
            |s'.dev.msis| > since ==> s'.dev.msis[since] < AtLeastOne(s.dev.batch)
    decreases acts
  {
    if acts != [] {
      var s' := Step(s, acts[0]);
      if acts[0].Work? {
        TooFewWork(s);
        InterruptsOnlyAdd(s', acts[1..]);
      } else {
        OthersLeaveSteady(s, acts[0]);
        FirstWhenTooFew(s', acts[1..]);
      }
    }
  }

  /** From the first interrupt on, the counter keeps step with a constant batch factor. */
  ghost predicate SteadySince(s: System, b: u32, since: nat) {
    && s.dev.batch == b && Billed(s) && since <= |s.dev.msis|
    && (|s.dev.msis| > since ==> Steady(s, b) && FullBatches(s, b, since + 1))
  }

  lemma QuietWork(s: System)
    requires !s.pc.Notifying?
    ensures WorkStep(s).dev.msis == s.dev.msis && WorkStep(s).dev.batch == s.dev.batch
  {
  }

  lemma SteadySinceStep(s: System, a: Action, b: u32, since: nat)
    requires SteadySince(s, b, since) && LeavesBatch(a)
    ensures SteadySince(Step(s, a), b, since)
  {
    BilledStep(s, a);
    if |s.dev.msis| > since {
      SteadyStep(s, a, b, since + 1);
    } else if a.Work? && s.pc.Notifying? {
      InterruptMakesSteady(s);
    } else if a.Work? {
      QuietWork(s);
    } else {
      OthersKeepAccounts(s, a);
    }
  }

  lemma {:induction false} SteadySinceAlways(s: System, acts: seq<Action>, b: u32, since: nat)
    requires SteadySince(s, b, since)
    requires forall a :: a in acts ==> LeavesBatch(a)
    ensures SteadySince(Exec(s, acts), b, since)
    decreases acts
  {
    if acts != [] {
      SteadySinceStep(s, acts[0], b, since);
      SteadySinceAlways(Step(s, acts[0]), acts[1..], b, since);
    }
  }

  lemma SumAfterFirst(before: seq<nat>, after: seq<nat>, m: nat)
    requires before < after
    requires forall i :: |before| < i < |after| ==> after[i] == m
    ensures Sum(after) == Sum(before) + after[|before|] + (|after| - |before| - 1) * m
  {
    SumOfEqual(after, |before| + 1, m);
    assert after[..|before| + 1][..|before|] == before;
  }

  // ----- Accounting -----

  /** The first interrupt of a run with a constant batch factor announces exactly the batch if
      and only if the counter was in step at the start. It announces fewer if and only if it was
      already decided on when the batch factor was raised, and more in every other case. */
  lemma FirstAnnouncesIff(s: System, acts: seq<Action>, b: u32)
    requires Billed(s) && s.dev.batch == b
    requires forall a :: a in acts ==> LeavesBatch(a)
    requires |Exec(s, acts).dev.msis| > |s.dev.msis|
    ensures var first := Exec(s, acts).dev.msis[|s.dev.msis|];
            && (first == AtLeastOne(b) <==> Steady(s, b))
            && (first < AtLeastOne(b) <==> s.pc.Notifying? && s.dev.counter < AtLeastOne(b))
  {
    if Steady(s, b) {
      SteadyAlways(s, acts, b, |s.dev.msis|);
    } else if TooFew(s) {
      FirstWhenTooFew(s, acts);
    } else {
      FirstWhenAhead(s, acts);
    }
  }

  /** A run from any reachable state in which the batch factor b is not rewritten. Every interrupt
      after the first announces exactly max(b, 1); the first one does so if and only if the
      counter was in step at the start, and fewer if and only if it was about to be raised for
      fewer. The virtines cleaned are those announced plus the change of the counter, which after
      an interrupt is below max(b, 1) outside an iteration. */
  lemma ConstantBatchAccounting(s: System, acts: seq<Action>, b: u32)
    requires Reachable(s) && s.dev.batch == b
    requires forall a :: a in acts ==> LeavesBatch(a)
    ensures var s', since := Exec(s, acts), |s.dev.msis|;
            && s.dev.msis <= s'.dev.msis
            && if |s'.dev.msis| == since then
                 Cleaned(s') - Cleaned(s) == s'.dev.counter - s.dev.counter
               else
                 && (s'.dev.msis[since] == AtLeastOne(b) <==> Steady(s, b))
                 && (s'.dev.msis[since] < AtLeastOne(b) <==> s.pc.Notifying? && s.dev.counter < AtLeastOne(b))
                 && FullBatches(s', b, since + 1)
                 && Cleaned(s') - Cleaned(s) ==
                    s'.dev.msis[since] + (|s'.dev.msis| - since - 1) * AtLeastOne(b) + s'.dev.counter - s.dev.counter
                 && (!Counting(s'.pc) ==> s'.dev.counter < AtLeastOne(b))
  {
    ReachableIsBilled(s);
    var s', since := Exec(s, acts), |s.dev.msis|;
    InterruptsOnlyAdd(s, acts);
    SteadySinceAlways(s, acts, b, since);
    if |s'.dev.msis| == since {
      assert s'.dev.msis == s.dev.msis;
    } else {
      SumAfterFirst(s.dev.msis, s'.dev.msis, AtLeastOne(b));
      FirstAnnouncesIff(s, acts, b);
    }
  }

  /** In step, the virtines cleaned during a run are its interrupts times max(b, 1), plus the
      change of the counter; outside an iteration the counter is below max(b, 1). */
  lemma SteadyBatchAccounting(s: System, acts: seq<Action>, b: u32)
    requires Reachable(s) && Steady(s, b)
    requires forall a :: a in acts ==> LeavesBatch(a)
    ensures var s' := Exec(s, acts);
            && |s'.dev.msis| >= |s.dev.msis|
            && Cleaned(s') - Cleaned(s) ==
               (|s'.dev.msis| - |s.dev.msis|) * AtLeastOne(b) + s'.dev.counter - s.dev.counter
            && (!Counting(s'.pc) ==> s'.dev.counter < AtLeastOne(b))
  {
    ReachableIsBilled(s);
    InterruptsOnlyAdd(s, acts);
    var s', since := Exec(s, acts), |s.dev.msis|;
    SteadyAlways(s, acts, b, since);
    SumOfEqual(s'.dev.msis, since, AtLeastOne(b));
    assert s'.dev.msis[..since] == s.dev.msis;
  }

  /** In particular for a batch factor b that the host sets first of all and then leaves alone:
      cleaned is interrupts times max(b, 1) plus the counter. */
  lemma BatchSetAtOnce(n: nat, mem: seq<u8>, emulator: seq<u8>, cleanState: u64, val: u64, acts: seq<Action>)
    requires n > 0
    requires forall a :: a in acts ==> LeavesBatch(a)
    ensures var s := Exec(Step(Boot(n, mem, emulator, cleanState), Write(BatchFactor, val)), acts);
            && Cleaned(s) == |s.dev.msis| * AtLeastOne(Low32(val)) + s.dev.counter
            && (!Counting(s.pc) ==> s.dev.counter < AtLeastOne(Low32(val)))
  {
    var s0 := Boot(n, mem, emulator, cleanState);
    var s1 := Step(s0, Write(BatchFactor, val));
    BootIsSteady(n, mem, emulator, cleanState);
    BatchWriteKeepsSteadyIff(s0, 1, val);
    assert s1 == Exec(s0, [Write(BatchFactor, val)]) by {
      assert [Write(BatchFactor, val)][1..] == [];
    }
    SteadyBatchAccounting(s1, acts, Low32(val));
  }
}
