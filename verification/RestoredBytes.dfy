/** Which bytes a clean-up pass leaves in guest memory. */
module RestoredBytes {
  import opened Words
  import opened RingQueue
  import opened Device
  import opened Protocol
  import opened Conservation
  import opened Progress
  import opened Interrupts
  import opened CleanMemory
  import opened Reachability

  // ----- A list of restores, one after the other -----

  predicate Covers(v: u64, size: nat, j: nat) {
    v <= j < v + size
  }

  /** vs[k] is the last address of vs whose region has byte j. */
  predicate CoversLast(vs: seq<u64>, size: nat, j: nat, k: nat) {
    k < |vs| && Covers(vs[k], size, j) && forall i :: k < i < |vs| ==> !Covers(vs[i], size, j)
  }

  predicate CoversNone(vs: seq<u64>, size: nat, j: nat) {
    forall i :: 0 <= i < |vs| ==> !Covers(vs[i], size, j)
  }

  lemma {:induction false} RestoreAllLeaves(mem: seq<u8>, vs: seq<u64>, data: seq<u8>, j: nat)
    requires j < |mem| && CoversNone(vs, |data|, j)
    ensures |RestoreAll(mem, vs, data)| == |mem| && RestoreAll(mem, vs, data)[j] == mem[j]
    decreases vs
  {
    if vs != [] {
      assert !Covers(vs[0], |data|, j);
      RestoreAllLeaves(Dma(mem, vs[0], data), vs[1..], data, j);
    }
  }

  lemma {:induction false} RestoreAllByte(mem: seq<u8>, vs: seq<u64>, data: seq<u8>, j: nat, k: nat)
    requires j < |mem| && CoversLast(vs, |data|, j, k)
    ensures |RestoreAll(mem, vs, data)| == |mem| && RestoreAll(mem, vs, data)[j] == data[j - vs[k]]
    decreases vs
  {
    var mem' := Dma(mem, vs[0], data);
    if k > 0 {
      RestoreAllByte(mem', vs[1..], data, j, k - 1);
    } else {
      RestoreAllLeaves(mem', vs[1..], data, j);
    }
  }

  lemma {:induction false} SomeCoversLast(vs: seq<u64>, size: nat, j: nat, k: nat) returns (last: nat)
    requires k < |vs| && Covers(vs[k], size, j)
    ensures CoversLast(vs, size, j, last)
    decreases |vs| - k
  {
    if i :| k < i < |vs| && Covers(vs[i], size, j) {
      last := SomeCoversLast(vs, size, j, i);
    } else {
      last := k;
    }
  }

  // ----- A pass -----

  /** Whatever the regions: byte j of guest memory ends up as the byte that the last waiting virtine
      with j in its region has there, and that byte is the emulator's from the snapshot address on,
      0 where its memory ends. */
  lemma PassRestoresByte(d: Device, j: nat, k: nat)
    requires Sound(d.rq) && Sound(d.cq) && d.counter < TWO32 - 1
    requires j < |d.mem| && CoversLast(Contents(d.rq), d.snapSize, j, k)
    ensures var i := j - Contents(d.rq)[k];
            && |Pass(d).mem| == |d.mem|
            && Pass(d).mem[j] == if d.snapAddr + i < |d.emulator| then d.emulator[d.snapAddr + i] else 0
  {
    PassDrains(d);
    RestoreAllByte(d.mem, Contents(d.rq), Snapshot(d), j, k);
  }

  /** Every other byte stays. */
  lemma PassLeavesByte(d: Device, j: nat)
    requires Sound(d.rq) && Sound(d.cq) && d.counter < TWO32 - 1
    requires j < |d.mem| && CoversNone(Contents(d.rq), d.snapSize, j)
    ensures |Pass(d).mem| == |d.mem| && Pass(d).mem[j] == d.mem[j]
  {
    PassDrains(d);
    RestoreAllLeaves(d.mem, Contents(d.rq), Snapshot(d), j);
  }

  /** If the waiting regions are the same or apart, each of them holds the snapshot in the end. */
  lemma PassRestoresRegion(d: Device, k: nat, i: nat)
    requires Sound(d.rq) && Sound(d.cq) && d.counter < TWO32 - 1
    requires forall v: u64, w: u64 :: v in Contents(d.rq) && w in Contents(d.rq) ==> Compatible(v, w, d.snapSize)
    requires k < |Contents(d.rq)| && i < d.snapSize && Contents(d.rq)[k] + i < |d.mem|
    ensures |Pass(d).mem| == |d.mem|
    ensures Pass(d).mem[Contents(d.rq)[k] + i] ==
            if d.snapAddr + i < |d.emulator| then d.emulator[d.snapAddr + i] else 0
  {
    var vs, j := Contents(d.rq), Contents(d.rq)[k] + i;
    var last := SomeCoversLast(vs, d.snapSize, j, k);
    assert vs[k] in vs && vs[last] in vs;
    PassRestoresByte(d, j, last);
  }

  // ----- The snapshot of a fresh device -----

  lemma FreshDeviceIsRungFor(n: nat, mem: seq<u8>, emulator: seq<u8>, cleanState: u64, v: u64)
    requires n > 0 && v != 0
    ensures var m := Exec(Exec(Boot(n, mem, emulator, cleanState), Submit(v)), RingAndStart());
            && OneRungFor(m, 1) && Contents(m.dev.rq) == [v] && Contents(m.dev.cq) == []
            && m.dev.mem == mem && m.dev.emulator == emulator && m.dev.snapSize == 8 && m.dev.snapAddr == cleanState
  {
    var s := Boot(n, mem, emulator, cleanState);
    var s1 := Exec(s, Submit(v));
    BootIsLoaded(n, mem, emulator, cleanState);
    SubmittedOnDemand(s, v);
    SubmitEffect(s, v);
    RingStarts(s1);
    ReachableGoesOn(s, Submit(v));
    ReachableGoesOn(s1, RingAndStart());
    ReachableHasInv(Exec(s1, RingAndStart()));
  }

  /** Nothing configured: a virtine submitted to a fresh device and rung for has its first eight
      bytes replaced by those of the clean state, and is reported complete with one interrupt. */
  lemma FreshDeviceRestoresEightBytes(n: nat, mem: seq<u8>, emulator: seq<u8>, cleanState: u64, v: u64)
    requires n > 0 && v != 0 && v + 8 <= |mem|
    ensures var t := RunToRelease(Exec(Exec(Boot(n, mem, emulator, cleanState), Submit(v)), RingAndStart()));
            && t.dev.mem == mem[..v]
                 + seq(8, i requires 0 <= i < 8 => if cleanState + i < |emulator| then emulator[cleanState + i] else 0)
                 + mem[v + 8..]
            && Contents(t.dev.cq) == [v] && t.dev.msis == [1]
  {
    var m := Exec(Exec(Boot(n, mem, emulator, cleanState), Submit(v)), RingAndStart());
    FreshDeviceIsRungFor(n, mem, emulator, cleanState, v);
    UninterruptedPassIsPass(m);
    OneIsAnnounced(m);
    PassOverOne(m.dev, v, cleanState);
  }

  lemma PassOverOne(d: Device, v: u64, addr: u64)
    requires Sound(d.rq) && Sound(d.cq) && d.counter < TWO32 - 1
    requires Contents(d.rq) == [v] && Contents(d.cq) == []
    requires d.snapSize == 8 && d.snapAddr == addr && v + 8 <= |d.mem|
    ensures Contents(Pass(d).cq) == [v]
    ensures Pass(d).mem == d.mem[..v]
      + seq(8, i requires 0 <= i < 8 => if addr + i < |d.emulator| then d.emulator[addr + i] else 0)
      + d.mem[v + 8..]
  {
    PassDrains(d);
    PassRestoresOnly(d, v);
  }

  /** With batch factor 1, a pass over a single virtine raises one interrupt, for that virtine. */
  lemma OneIsAnnounced(m: System)
    requires OneRungFor(m, 1)
    ensures RunToRelease(m).dev.msis == [1]
  {
    var k := StepsToRelease(m);
    var t := RunToRelease(m);
    UninterruptedPassIsPass(m);
    PassDrains(m.dev);
    ExecWorks(m, k);
    ReachableGoesOn(m, Works(k));
    ReachableIsBilled(m);
    ReachableIsBilled(t);
    SteadyBatchAccounting(m, Works(k), 1);
    assert t.dev.msis == t.dev.msis[..0] + [t.dev.msis[0]];
  }

  /** A pass over a single virtine. */
  lemma PassRestoresOnly(d: Device, v: u64)
    requires Sound(d.rq) && Sound(d.cq) && d.counter < TWO32 - 1
    requires Contents(d.rq) == [v] && v + d.snapSize <= |d.mem|
    ensures |Pass(d).mem| == |d.mem|
    ensures forall j :: 0 <= j < |d.mem| ==>
      Pass(d).mem[j] == if !(v <= j < v + d.snapSize) then d.mem[j]
                        else if d.snapAddr + (j - v) < |d.emulator| then d.emulator[d.snapAddr + (j - v)] else 0
  {
    PassDrains(d);
    RestoreAllLength(d.mem, [v], Snapshot(d));
    forall j: nat | j < |d.mem|
      ensures Pass(d).mem[j] == if !(v <= j < v + d.snapSize) then d.mem[j]
                                else if d.snapAddr + (j - v) < |d.emulator| then d.emulator[d.snapAddr + (j - v)] else 0
    {
      if Covers(v, d.snapSize, j) {
        PassRestoresByte(d, j, 0);
      } else {
        PassLeavesByte(d, j);
      }
    }
  }

  lemma {:induction false} RestoreAllLength(mem: seq<u8>, vs: seq<u64>, data: seq<u8>)
    ensures |RestoreAll(mem, vs, data)| == |mem|
    decreases vs
  {
    if vs != [] {
      RestoreAllLength(Dma(mem, vs[0], data), vs[1..], data);
    }
  }
}
