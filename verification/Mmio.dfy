/** Memory-mapped words as the driver sees them, for any device: a value per address, and a
    state that reads and writes may change. */
module Mmio {
  import opened Words

  datatype Region<!S> = Region(
    value: (S, nat) -> u32,
    afterRead: (S, nat) -> S,
    afterWrite: (S, nat, u32) -> S)

  /** The state after k ascending word reads from addr. */
  function AfterReads<S>(m: Region<S>, s: S, addr: nat, k: nat): S {
    if k == 0 then s else m.afterRead(AfterReads(m, s, addr, k - 1), addr + 4 * (k - 1))
  }

  /** The words they yield. */
  function WordsRead<S>(m: Region<S>, s: S, addr: nat, k: nat): (ws: seq<u32>)
    ensures |ws| == k
  {
    if k == 0 then []
    else WordsRead(m, s, addr, k - 1) + [m.value(AfterReads(m, s, addr, k - 1), addr + 4 * (k - 1))]
  }

  /** The state after ascending word writes of ws from addr. */
  function AfterWrites<S>(m: Region<S>, s: S, addr: nat, ws: seq<u32>): S
    decreases |ws|
  {
    if ws == [] then s
    else m.afterWrite(AfterWrites(m, s, addr, ws[..|ws| - 1]), addr + 4 * (|ws| - 1), ws[|ws| - 1])
  }

  // ----- Accesses one by one -----

  datatype Access = ReadAt(addr: nat) | WriteAt(addr: nat, w: u32)

  function Perform<S>(m: Region<S>, s: S, a: Access): S {
    match a
    case ReadAt(addr) => m.afterRead(s, addr)
    case WriteAt(addr, w) => m.afterWrite(s, addr, w)
  }

  /** The state after a list of accesses. */
  function Replay<S>(m: Region<S>, s: S, accesses: seq<Access>): S
    decreases accesses
  {
    if accesses == [] then s else Replay(m, Perform(m, s, accesses[0]), accesses[1..])
  }

  lemma {:induction false} ReplayAppend<S>(m: Region<S>, s: S, a: seq<Access>, b: seq<Access>)
    ensures Replay(m, s, a + b) == Replay(m, Replay(m, s, a), b)
    decreases a
  {
    if a == [] {
      assert a + b == b;
    } else {
      assert (a + b)[1..] == a[1..] + b;
      ReplayAppend(m, Perform(m, s, a[0]), a[1..], b);
    }
  }

  lemma ReplayLast<S>(m: Region<S>, s: S, accesses: seq<Access>, a: Access)
    ensures Replay(m, s, accesses + [a]) == Perform(m, Replay(m, s, accesses), a)
  {
    ReplayAppend(m, s, accesses, [a]);
    assert [a][1..] == [];
  }

  /** A write of any length makes one access per word, at ascending addresses, on every device. */
  lemma {:induction false} WritesAscend<S>(m: Region<S>, s: S, addr: nat, ws: seq<u32>)
    ensures AfterWrites(m, s, addr, ws) ==
            Replay(m, s, seq(|ws|, i requires 0 <= i < |ws| => WriteAt(addr + 4 * i, ws[i])))
    decreases |ws|
  {
    if ws != [] {
      var k, init := |ws| - 1, ws[..|ws| - 1];
      var before := seq(k, i requires 0 <= i < k => WriteAt(addr + 4 * i, init[i]));
      WritesAscend(m, s, addr, init);
      ReplayLast(m, s, before, WriteAt(addr + 4 * k, ws[k]));
      assert before + [WriteAt(addr + 4 * k, ws[k])] ==
             seq(|ws|, i requires 0 <= i < |ws| => WriteAt(addr + 4 * i, ws[i]));
    }
  }

  /** So does a read, and word i is the value that its access finds. */
  lemma {:induction false} ReadsAscend<S>(m: Region<S>, s: S, addr: nat, k: nat)
    ensures AfterReads(m, s, addr, k) == Replay(m, s, seq(k, i requires 0 <= i < k => ReadAt(addr + 4 * i)))
    ensures forall i :: 0 <= i < k ==>
      WordsRead(m, s, addr, k)[i] ==
      m.value(Replay(m, s, seq(i, j requires 0 <= j < i => ReadAt(addr + 4 * j))), addr + 4 * i)
  {
    if k > 0 {
      var before := seq(k - 1, i requires 0 <= i < k - 1 => ReadAt(addr + 4 * i));
      ReadsAscend(m, s, addr, k - 1);
      ReplayLast(m, s, before, ReadAt(addr + 4 * (k - 1)));
      assert before + [ReadAt(addr + 4 * (k - 1))] == seq(k, i requires 0 <= i < k => ReadAt(addr + 4 * i));
    }
  }

  /** A region that records the accesses made to it. */
  function Recorder(): Region<seq<Access>> {
    Region((log, addr) => 0, (log, addr) => log + [ReadAt(addr)], (log, addr, w) => log + [WriteAt(addr, w)])
  }

  lemma {:induction false} RecorderRecords(log: seq<Access>, accesses: seq<Access>)
    ensures Replay(Recorder(), log, accesses) == log + accesses
    decreases accesses
  {
    if accesses == [] {
      assert log + accesses == log;
    } else {
      RecorderRecords(log + [accesses[0]], accesses[1..]);
      assert log + [accesses[0]] + accesses[1..] == log + accesses;
    }
  }

  /** What a write of any length does to it. */
  lemma WritesRecorded(addr: nat, ws: seq<u32>)
    ensures AfterWrites(Recorder(), [], addr, ws) ==
            seq(|ws|, i requires 0 <= i < |ws| => WriteAt(addr + 4 * i, ws[i]))
  {
    WritesAscend(Recorder(), [], addr, ws);
    RecorderRecords([], seq(|ws|, i requires 0 <= i < |ws| => WriteAt(addr + 4 * i, ws[i])));
  }

  /** And a read. */
  lemma ReadsRecorded(addr: nat, k: nat)
    ensures AfterReads(Recorder(), [], addr, k) == seq(k, i requires 0 <= i < k => ReadAt(addr + 4 * i))
  {
    ReadsAscend(Recorder(), [], addr, k);
    RecorderRecords([], seq(k, i requires 0 <= i < k => ReadAt(addr + 4 * i)));
  }

  // ----- Two words -----

  lemma TwoWrites<S>(m: Region<S>, s: S, addr: nat, w0: u32, w1: u32)
    ensures AfterWrites(m, s, addr, [w0, w1]) == m.afterWrite(m.afterWrite(s, addr, w0), addr + 4, w1)
  {
    assert [w0, w1][..1] == [w0] && [w0][..0] == [];
    assert AfterWrites(m, s, addr, []) == s;
    assert AfterWrites(m, s, addr, [w0]) == m.afterWrite(s, addr, w0);
  }

  lemma TwoReads<S>(m: Region<S>, s: S, addr: nat)
    ensures AfterReads(m, s, addr, 2) == m.afterRead(m.afterRead(s, addr), addr + 4)
    ensures WordsRead(m, s, addr, 2) == [m.value(s, addr), m.value(m.afterRead(s, addr), addr + 4)]
  {
    assert AfterReads(m, s, addr, 0) == s && WordsRead(m, s, addr, 0) == [];
    assert AfterReads(m, s, addr, 1) == m.afterRead(s, addr) && WordsRead(m, s, addr, 1) == [m.value(s, addr)];
  }

  /** The mapped region, held by a driver. */
  class Mapping<S> {
    const region: Region<S>
    var state: S

    constructor (region: Region<S>, state: S)
      ensures this.region == region && this.state == state
    {
      this.region, this.state := region, state;
    }

    method Readl(addr: nat) returns (w: u32)
      modifies this
      ensures w == region.value(old(state), addr) && state == region.afterRead(old(state), addr)
    {
      w := region.value(state, addr);
      state := region.afterRead(state, addr);
    }

    method Iowrite32(w: u32, addr: nat)
      modifies this
      ensures state == region.afterWrite(old(state), addr, w)
    {
      state := region.afterWrite(state, addr, w);
    }
  }

  // ----- Plain word memory -----

  /** Memory that keeps what is written; an address never written reads 0. */
  function PlainMemory(): Region<map<nat, u32>> {
    Region((m: map<nat, u32>, a) => if a in m then m[a] else 0,
           (m, a) => m,
           (m, a, w) => m[a := w])
  }

  lemma {:induction false} PlainHolds(m: map<nat, u32>, addr: nat, ws: seq<u32>)
    ensures var m' := AfterWrites(PlainMemory(), m, addr, ws);
            forall i :: 0 <= i < |ws| ==> addr + 4 * i in m' && m'[addr + 4 * i] == ws[i]
    decreases |ws|
  {
    if ws != [] {
      PlainHolds(m, addr, ws[..|ws| - 1]);
    }
  }

  lemma {:induction false} PlainReads(m: map<nat, u32>, addr: nat, ws: seq<u32>, k: nat)
    requires k <= |ws|
    requires forall i :: 0 <= i < |ws| ==> addr + 4 * i in m && m[addr + 4 * i] == ws[i]
    ensures AfterReads(PlainMemory(), m, addr, k) == m
    ensures WordsRead(PlainMemory(), m, addr, k) == ws[..k]
  {
    if k > 0 {
      PlainReads(m, addr, ws, k - 1);
      assert ws[..k] == ws[..k - 1] + [ws[k - 1]];
    }
  }

  /** Over plain memory, reading as many words back as were written gives the bytes written. */
  lemma PlainMemoryRoundTrip(m: map<nat, u32>, addr: nat, b: seq<u8>)
    requires |b| % 4 == 0
    ensures Bytes(WordsRead(PlainMemory(), AfterWrites(PlainMemory(), m, addr, AsWords(b)), addr, |b| / 4)) == b
  {
    var ws := AsWords(b);
    PlainHolds(m, addr, ws);
    PlainReads(AfterWrites(PlainMemory(), m, addr, ws), addr, ws, |ws|);
    assert ws[..|ws|] == ws;
    BytesOfWords(b);
  }
}
