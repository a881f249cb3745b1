/** The doorbell, the passes it pays for and the shutdown flag, over every schedule. */
module Doorbell {
  import opened Words
  import opened RingQueue
  import opened Device
  import opened Protocol
  import opened Conservation

  /** The thread owns the lock and has cleared the doorbell, and has not yet seen the RQ empty. */
  predicate Draining(pc: Pc) {
    pc.Popping? || pc.Cleaning? || pc.Completing? || pc.Lowering? || pc.Batching? || pc.Notifying?
  }

  /** Where the thread can be once stopping is set. */
  predicate WindingDown(pc: Pc) {
    pc.Locking? || pc.Testing? || pc.Asleep? || pc.Woken? || pc.Deciding? || pc.Exited?
  }

  ghost predicate Flags(s: System) {
    var d := s.dev;
    // past the wait loop there is a reason to be there, and nobody else clears the doorbell
    && (s.pc.Deciding? ==> d.doorbell || d.stopping)
    && (s.pc.Marking? || s.pc.Clearing? ==> d.doorbell)
    // every pass consumed one setting of the doorbell
    && s.h.passes + (if d.doorbell then 1 else 0) <= s.h.rings
    // stopping is set only while the thread does not hold the lock
    && (d.stopping <==> !s.down.Running?)
    && (d.stopping ==> WindingDown(s.pc))
    && (s.pc.Exited? ==> d.stopping)
    // a thread still asleep after stopping was set has its wake-up ahead of it
    && (d.stopping && s.pc.Asleep? ==> s.down.Stopping?)
    && (s.down.Joined? ==> s.pc.Exited?)
  }

  lemma FlagsWork(s: System)
    requires Flags(s)
    ensures Flags(WorkStep(s))
  {
  }

  lemma FlagsRead(s: System, r: Reg)
    requires Flags(s)
    ensures Flags(ReadStep(s, r))
  {
  }

  lemma FlagsWrite(s: System, r: Reg, val: u64)
    requires Flags(s)
    ensures Flags(WriteStep(s, r, val))
  {
  }

  lemma FlagsStep(s: System, a: Action)
    requires Flags(s)
    ensures Flags(Step(s, a))
  {
    match a
    case Work => FlagsWork(s);
    case Read(r) => FlagsRead(s, r);
    case Write(r, val) => FlagsWrite(s, r, val);
    case _ =>
  }

  lemma {:induction false} FlagsAlways(s: System, acts: seq<Action>)
    requires Flags(s)
    ensures Flags(Exec(s, acts))
    decreases acts
  {
    if acts != [] {
      FlagsStep(s, acts[0]);
      FlagsAlways(Step(s, acts[0]), acts[1..]);
    }
  }

  lemma ReachableHasFlags(s: System)
    requires Reachable(s)
    ensures Flags(s)
  {
    var n: nat, mem, emulator, cleanState, acts :| n > 0 && s == Exec(Boot(n, mem, emulator, cleanState), acts);
    FlagsAlways(Boot(n, mem, emulator, cleanState), acts);
  }

  /** Spurious wake-ups included, there are never more passes than doorbell writes, and an
      entry leaves the RQ only inside a pass. */
  lemma PassesArePaidFor(s: System, a: Action)
    requires Reachable(s)
    ensures s.h.passes <= s.h.rings
    ensures Step(s, a).h.taken != s.h.taken ==> Draining(s.pc) && s.h.passes > 0
  {
    ReachableHasFlags(s);
    var n: nat, mem, emulator, cleanState, acts :| n > 0 && s == Exec(Boot(n, mem, emulator, cleanState), acts);
    DrainingInsidePass(Boot(n, mem, emulator, cleanState), acts);
  }

  lemma DrainingStep(s: System, a: Action)
    requires Draining(s.pc) ==> s.h.passes > 0
    ensures Draining(Step(s, a).pc) ==> Step(s, a).h.passes > 0
  {
    if !a.Work? {
      OthersOnlyWake(s, a);
    }
  }

  lemma {:induction false} DrainingInsidePass(s: System, acts: seq<Action>)
    requires Draining(s.pc) ==> s.h.passes > 0
    ensures Draining(Exec(s, acts).pc) ==> Exec(s, acts).h.passes > 0
    decreases acts
  {
    if acts != [] {
      DrainingStep(s, acts[0]);
      DrainingInsidePass(Step(s, acts[0]), acts[1..]);
    }
  }

  // ----- No rung work is forgotten -----

  /** The first rungAt accepted addresses were in the RQ, or gone from it, at the last doorbell
      write; as long as the thread has taken fewer, it has been told to. */
  ghost predicate RungIsRemembered(s: System) {
    && s.h.rungAt <= |s.h.accepted|
    && (0 !in s.h.accepted && |s.h.taken| < s.h.rungAt ==> s.dev.doorbell || Draining(s.pc))
  }

  lemma RungStep(s: System, a: Action)
    requires RungIsRemembered(s) && RqInOrder(s)
    ensures RungIsRemembered(Step(s, a))
  {
    SubmittedGrows(s, a);
    if 0 !in Step(s, a).h.accepted && a.Work? && s.pc.Popping? {
      PopIsFifo(s.dev.rq);
    }
  }

  lemma {:induction false} RungAlways(s: System, acts: seq<Action>)
    requires RungIsRemembered(s) && RqInOrder(s)
    ensures RungIsRemembered(Exec(s, acts)) && RqInOrder(Exec(s, acts))
    decreases acts
  {
    if acts != [] {
      RungStep(s, acts[0]);
      RqStaysInOrder(s, acts[0]);
      RungAlways(Step(s, acts[0]), acts[1..]);
    }
  }

  /** Whatever the interleaving: while the RQ holds an address that was inserted before some
      doorbell write, the doorbell is still set or the thread is inside its drain. */
  lemma NoRungWorkForgotten(s: System, k: nat)
    requires Reachable(s) && 0 !in s.h.accepted
    requires k < |Contents(s.dev.rq)|
    ensures |s.h.taken| + k < |s.h.accepted| && Contents(s.dev.rq)[k] == s.h.accepted[|s.h.taken| + k]
    ensures |s.h.taken| + k < s.h.rungAt ==> s.dev.doorbell || Draining(s.pc)
  {
    var n: nat, mem, emulator, cleanState, acts :| n > 0 && s == Exec(Boot(n, mem, emulator, cleanState), acts);
    EmptyRingIsSound(n);
    RungAlways(Boot(n, mem, emulator, cleanState), acts);
  }
}
