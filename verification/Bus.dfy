/** The device as a mapped region. Between two accesses of the driver the rest of the system
    runs: what it does before each coming access is given in advance as a list of turns, so a
    statement about all turns is a statement about all interleavings. */
module Bus {
  import opened Words
  import opened Device
  import opened Protocol
  import opened Progress
  import opened Mmio

  datatype Line = Line(sys: System, turns: seq<seq<Action>>)

  function Turn(turns: seq<seq<Action>>): seq<Action> {
    if turns == [] then [] else turns[0]
  }

  function Rest(turns: seq<seq<Action>>): seq<seq<Action>> {
    if turns == [] then [] else turns[1..]
  }

  function Entries(s: System): nat {
    |s.dev.rq.buffer|
  }

  /** What happens before an access takes effect: the next turn and, for an access that needs
      the lock, the thread's steps until it releases it. */
  function Meanwhile(l: Line, needsLock: bool): seq<Action> {
    Turn(l.turns) + if needsLock then Works(StepsToRelease(Exec(l.sys, Turn(l.turns)))) else []
  }

  function Before(l: Line, needsLock: bool): System {
    Exec(l.sys, Meanwhile(l, needsLock))
  }

  function WordAt(l: Line, addr: nat): u32 {
    var r := Decode(Entries(l.sys), addr);
    Low32(ReadValue(Before(l, r == CqHead).dev, r))
  }

  function AfterReadl(l: Line, addr: nat): Line {
    var r := Decode(Entries(l.sys), addr);
    Line(Step(Before(l, r == CqHead), Read(r)), Rest(l.turns))
  }

  /** A doorbell write leaves its signal to a later turn. */
  function AfterIowrite(l: Line, addr: nat, w: u32): Line {
    var r := Decode(Entries(l.sys), addr);
    Line(Step(Before(l, r == RqTailHi), Write(r, w)), Rest(l.turns))
  }

  function VirtineRegion(): Region<Line> {
    Region((l, addr) => WordAt(l, addr), (l, addr) => AfterReadl(l, addr), (l, addr, w) => AfterIowrite(l, addr, w))
  }

  // ----- What a turn may do -----

  ghost predicate AllTurns(turns: seq<seq<Action>>, p: Action -> bool) {
    forall t, a :: t in turns && a in t ==> p(a)
  }

  lemma MeanwhileObeys(l: Line, needsLock: bool, p: Action -> bool)
    requires AllTurns(l.turns, p) && p(Work)
    ensures forall a :: a in Meanwhile(l, needsLock) ==> p(a)
    ensures AllTurns(Rest(l.turns), p)
  {
    var turn := Turn(l.turns);
    assert turn != [] ==> turn in l.turns;
    forall a | a in Meanwhile(l, needsLock)
      ensures p(a)
    {
      assert a in turn || a == Work;
    }
  }

  lemma BeforeIsFree(l: Line)
    ensures !HoldsLock(Before(l, true).pc)
  {
    var s := Exec(l.sys, Turn(l.turns));
    ExecAppend(l.sys, Turn(l.turns), Works(StepsToRelease(s)));
    ExecWorks(s, StepsToRelease(s));
    ReleaseIsReached(s);
  }

  lemma EntriesStep(s: System, a: Action)
    ensures Entries(Step(s, a)) == Entries(s)
  {
    match a
    case Work => assert Entries(WorkStep(s)) == Entries(s);
    case Read(r) => assert Entries(ReadStep(s, r)) == Entries(s);
    case Write(r, val) => assert Entries(WriteStep(s, r, val)) == Entries(s);
    case _ =>
  }

  lemma {:induction false} EntriesStay(s: System, acts: seq<Action>)
    ensures Entries(Exec(s, acts)) == Entries(s)
    decreases acts
  {
    if acts != [] {
      EntriesStep(s, acts[0]);
      EntriesStay(Step(s, acts[0]), acts[1..]);
    }
  }
}
