/** The running system as a transition system: the processing thread, the host's register
    accesses, the guest's own stores and the shutdown path, interleaved at lock boundaries.

    The processing lock has no variable of its own: the thread's program counter says when
    the thread owns it, and the other parties hold it only for one atomic step. An action
    that is not enabled leaves the state alone, so every sequence of actions is a schedule. */
module Protocol {
  import opened Words
  import opened RingQueue
  import opened Device

  /** Where the processing thread stands. */
  datatype Pc =
    | Locking               // about to take the lock
    | Testing               // lock held, at the loop test
    | GoingToSleep          // lock held, test said wait
    | Asleep                // waiting on the condition, lock released
    | Woken                 // about to retake the lock
    | Deciding              // lock held, past the wait loop
    | Marking               // about to set is_card_processing
    | Clearing              // about to clear the doorbell
    | Popping               // about to pop the RQ
    | Cleaning(v: u64)      // holds a popped address, about to restore it
    | Completing(v: u64)    // restored and counted, about to insert it into the CQ
    | Lowering              // about to clear is_card_processing
    | Batching              // about to compare with the batch factor
    | Notifying             // about to raise the interrupt
    | Exited

  datatype Shutdown = Running | Stopping | Signalled | Joined

  /** History variables: they record what happened and influence nothing. */
  datatype History = History(
    submitted: seq<u64>,    // every address a host write assembled, in order
    accepted: seq<u64>,     // those the RQ took
    refusedRq: seq<u64>,    // those it refused
    overwritten: seq<u64>,  // accepted ones that a later insert overwrote in the RQ
    taken: seq<u64>,        // popped by the thread
    offered: seq<u64>,      // restored and offered to the CQ
    completed: seq<u64>,    // those the CQ took
    refusedCq: seq<u64>,    // those it refused
    reaped: seq<u64>,       // popped by the host
    rungAt: nat,            // number of accepted addresses at the last doorbell write
    rings: nat,             // doorbell writes
    passes: nat)            // clean-up passes started

  datatype System = System(dev: Device, pc: Pc, signals: nat, down: Shutdown, h: History)

  datatype Action =
    | Work                              // the processing thread's next step
    | SpuriousWake                      // the condition wait may return unasked
    | Read(r: Reg)                      // host reads
    | Write(r: Reg, val: u64)           // host writes
    | Signal                            // the second half of a doorbell write
    | Store(addr: nat, b: u8)           // the guest stores into its own memory
    | StopSet | StopSignal | StopJoin   // virtine_fpga_uninit

  predicate HoldsLock(pc: Pc) {
    !(pc.Locking? || pc.Asleep? || pc.Woken? || pc.Exited?)
  }

  function Boot(n: nat, mem: seq<u8>, emulator: seq<u8>, cleanState: u64): System
    requires n > 0
  {
    System(Realized(n, mem, emulator, cleanState), Locking, 0, Running,
           History([], [], [], [], [], [], [], [], [], 0, 0, 0))
  }

  function Wake(pc: Pc): Pc {
    if pc.Asleep? then Woken else pc
  }

  /** One step of the processing thread. */
  function WorkStep(s: System): System {
    var d, h := s.dev, s.h;
    match s.pc
    case Locking => s.(pc := Testing)
    case Woken => s.(pc := Testing)
    case Testing => s.(pc := if !d.doorbell && !d.stopping then GoingToSleep else Deciding)
    case GoingToSleep => s.(pc := Asleep)
    case Asleep => s
    case Deciding => s.(pc := if d.stopping then Exited else Marking)
    case Marking => s.(dev := d.(processing := true), pc := Clearing)
    case Clearing => s.(dev := d.(doorbell := false), pc := Popping, h := h.(passes := h.passes + 1))
    case Popping =>
      var v := PopValue(d.rq);
      if v == 0 then s.(dev := d.(rq := PopRing(d.rq)), pc := Locking)
      else s.(dev := d.(rq := PopRing(d.rq)), pc := Cleaning(v), h := h.(taken := h.taken + [v]))
    case Cleaning(v) => s.(dev := Restored(d, v), pc := Completing(v))
    case Completing(v) =>
      s.(dev := d.(cq := InsertRing(d.cq, v)), pc := Lowering,
         h := if Accepts(d.cq) then h.(offered := h.offered + [v], completed := h.completed + [v])
              else h.(offered := h.offered + [v], refusedCq := h.refusedCq + [v]))
    case Lowering => s.(dev := d.(processing := false), pc := Batching)
    case Batching => s.(pc := if d.counter >= d.batch then Notifying else Popping)
    case Notifying => s.(dev := Notified(d), pc := Popping)
    case Exited => s
  }

  function ReadStep(s: System, r: Reg): System {
    if r == CqHead && HoldsLock(s.pc) then s
    else
      var v := PopValue(s.dev.cq);
      s.(dev := AfterRead(s.dev, r),
         h := if r == CqHead && v != 0 then s.h.(reaped := s.h.reaped + [v]) else s.h)
  }

  function WriteStep(s: System, r: Reg, val: u64): System {
    var d', h := AfterWrite(s.dev, r, val), s.h;
    match r
    case RqTailHi =>
      var x := Assembled(s.dev, val);
      if HoldsLock(s.pc) then s
      else if Accepts(s.dev.rq) then
        s.(dev := d', h := h.(submitted := h.submitted + [x], accepted := h.accepted + [x],
                              overwritten := h.overwritten + Displaced(s.dev.rq)))
      else
        s.(dev := d', h := h.(submitted := h.submitted + [x], refusedRq := h.refusedRq + [x]))
    case Doorbell =>
      s.(dev := d', signals := s.signals + 1, h := h.(rings := h.rings + 1, rungAt := |h.accepted|))
    case _ => s.(dev := d')
  }

  function Step(s: System, a: Action): System {
    match a
    case Work => WorkStep(s)
    case SpuriousWake => s.(pc := Wake(s.pc))
    case Read(r) => ReadStep(s, r)
    case Write(r, val) => WriteStep(s, r, val)
    case Signal => if s.signals == 0 then s else s.(signals := s.signals - 1, pc := Wake(s.pc))
    case Store(addr, b) =>
      if addr < |s.dev.mem| then s.(dev := s.dev.(mem := s.dev.mem[addr := b])) else s
    case StopSet =>
      if s.down.Running? && !HoldsLock(s.pc) then s.(dev := s.dev.(stopping := true), down := Stopping) else s
    case StopSignal => if s.down.Stopping? then s.(down := Signalled, pc := Wake(s.pc)) else s
    case StopJoin => if s.down.Signalled? && s.pc.Exited? then s.(down := Joined) else s
  }

  /** The state after a schedule. */
  function Exec(s: System, acts: seq<Action>): System
    decreases acts
  {
    if acts == [] then s else Exec(Step(s, acts[0]), acts[1..])
  }

  /** Some device, some guest memory and some schedule lead to s. */
  ghost predicate Reachable(s: System) {
    exists n: nat, mem: seq<u8>, emulator: seq<u8>, cleanState: u64, acts: seq<Action> ::
      n > 0 && s == Exec(Boot(n, mem, emulator, cleanState), acts)
  }

  lemma {:induction false} ExecAppend(s: System, a: seq<Action>, b: seq<Action>)
    ensures Exec(s, a + b) == Exec(Exec(s, a), b)
    decreases a
  {
    if a == [] {
      assert a + b == b;
    } else {
      assert (a + b)[1..] == a[1..] + b;
      ExecAppend(Step(s, a[0]), a[1..], b);
    }
  }

  lemma ExecTwo(s: System, a: Action, b: Action)
    ensures Exec(s, [a, b]) == Step(Step(s, a), b)
  {
    var s1 := Step(s, a);
    assert [a, b][1..] == [b] && [b][1..] == [];
    assert Exec(s, [a, b]) == Exec(s1, [b]) == Exec(Step(s1, b), []);
  }

  /** The thread alone for k steps. */
  function WorkFor(s: System, k: nat): System
    decreases k
  {
    if k == 0 then s else WorkFor(WorkStep(s), k - 1)
  }

  function Works(k: nat): seq<Action> {
    seq(k, _ => Work)
  }

  lemma {:induction false} ExecWorks(s: System, k: nat)
    ensures Exec(s, Works(k)) == WorkFor(s, k)
    decreases k
  {
    if k > 0 {
      assert Works(k)[1..] == Works(k - 1);
      ExecWorks(WorkStep(s), k - 1);
    }
  }

  /** A 64-bit address submitted as two halves. */
  function Submit(v: u64): seq<Action> {
    [Write(RqTail, Low32(v)), Write(RqTailHi, Shr32(v))]
  }

  /** With the lock free, that offers exactly the address to the RQ. */
  lemma SubmitEffect(s: System, v: u64)
    requires !HoldsLock(s.pc)
    ensures var s', h := Exec(s, Submit(v)), s.h;
            && s'.pc == s.pc && s'.down == s.down
            && s'.dev == s.dev.(splitWrite := v, rq := InsertRing(s.dev.rq, v))
            && s'.h == if Accepts(s.dev.rq) then
                         h.(submitted := h.submitted + [v], accepted := h.accepted + [v],
                            overwritten := h.overwritten + Displaced(s.dev.rq))
                       else
                         h.(submitted := h.submitted + [v], refusedRq := h.refusedRq + [v])
  {
    SplitThenJoin(v);
    ExecTwo(s, Write(RqTail, Low32(v)), Write(RqTailHi, Shr32(v)));
  }

  /** A doorbell write with its signal, and the thread's steps up to the start of a pass. */
  function RingAndStart(): seq<Action> {
    [Write(Reg.Doorbell, 1), Signal] + Works(3)
  }

  lemma StartsToMark(s: System)
    requires (s.pc.Locking? || s.pc.Woken?) && s.dev.doorbell && !s.dev.stopping
    ensures WorkFor(s, 3) == s.(pc := Marking)
  {
    var s1 := WorkStep(s);
    var s2 := WorkStep(s1);
    assert WorkFor(s, 3) == WorkFor(s1, 2) == WorkFor(s2, 1) == WorkFor(WorkStep(s2), 0);
  }

  lemma DoorbellSet(s: System)
    ensures Step(s, Write(Reg.Doorbell, 1)) ==
            s.(dev := s.dev.(doorbell := true), signals := s.signals + 1,
               h := s.h.(rings := s.h.rings + 1, rungAt := |s.h.accepted|))
  {
  }

  lemma DoorbellSignalled(s: System)
    requires s.signals > 0
    ensures Step(s, Signal) == s.(signals := s.signals - 1, pc := Wake(s.pc))
  {
  }

  lemma RingEffect(s: System)
    ensures Exec(s, [Write(Reg.Doorbell, 1), Signal]) ==
            s.(dev := s.dev.(doorbell := true), pc := Wake(s.pc),
               h := s.h.(rings := s.h.rings + 1, rungAt := |s.h.accepted|))
  {
    ExecTwo(s, Write(Reg.Doorbell, 1), Signal);
    DoorbellSet(s);
    DoorbellSignalled(Step(s, Write(Reg.Doorbell, 1)));
  }

  lemma RingStarts(s: System)
    requires !HoldsLock(s.pc) && !s.pc.Exited? && !s.dev.stopping
    ensures var m := Exec(s, RingAndStart());
            && m.pc == Marking && m.dev == s.dev.(doorbell := true) && m.down == s.down
            && m.h == s.h.(rings := s.h.rings + 1, rungAt := |s.h.accepted|)
  {
    var rung := Exec(s, [Write(Reg.Doorbell, 1), Signal]);
    RingEffect(s);
    ExecAppend(s, [Write(Reg.Doorbell, 1), Signal], Works(3));
    ExecWorks(rung, 3);
    StartsToMark(rung);
  }

  // ----- What the other parties leave to the thread -----

  lemma OthersOnlyWake(s: System, a: Action)
    requires !a.Work?
    ensures Step(s, a).pc == s.pc || (s.pc.Asleep? && Step(s, a).pc == Woken)
  {
  }

  lemma OthersKeepAccounts(s: System, a: Action)
    requires !a.Work?
    ensures var d, d' := s.dev, Step(s, a).dev;
            d'.msis == d.msis && d'.counter == d.counter && (d'.batch == d.batch || (a.Write? && a.r == BatchFactor))
    ensures Step(s, a).h.offered == s.h.offered
  {
    match a
    case Read(r) => assert ReadStep(s, r).dev.msis == s.dev.msis;
    case Write(r, val) => assert WriteStep(s, r, val).dev.msis == s.dev.msis;
    case _ =>
  }

  // ----- What is where -----

  /** The address the thread has popped and not yet offered to the CQ. */
  function InFlight(pc: Pc): seq<u64> {
    if pc.Cleaning? || pc.Completing? then [pc.v] else []
  }

  /** Everything submitted and not yet reaped or refused, in completion order. */
  function Outstanding(s: System): seq<u64> {
    Contents(s.dev.cq) + InFlight(s.pc) + Contents(s.dev.rq)
  }
}
