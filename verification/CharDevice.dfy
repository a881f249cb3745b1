/** The word-transfer loops of the character device. They are proved for every mapped device. */
module CharDevice {
  import opened Words
  import opened Mmio
  import opened Device

  /** The number of word accesses for a length in bytes. */
  function WordCount(length: nat): nat {
    (length + 3) / 4
  }

  /** Reads length bytes at offset. Whole words are transferred, so the buffer must have room
      for the length rounded up. A misaligned offset reads nothing. */
  method FpgaCharRead<S>(dev: Mapping<S>, buffer: array<u8>, length: nat, offset: nat) returns (bytesRead: nat)
    requires buffer.Length >= 4 * WordCount(length)
    modifies dev, buffer
    ensures bytesRead == if offset % 4 == 0 then 4 * WordCount(length) else 0
    ensures offset % 4 == 0 ==> length <= bytesRead < length + 4
    ensures dev.state == AfterReads(dev.region, old(dev.state), offset, bytesRead / 4)
    ensures buffer[..bytesRead] == Bytes(WordsRead(dev.region, old(dev.state), offset, bytesRead / 4))
    ensures buffer[bytesRead..] == old(buffer[..])[bytesRead..]
  {
    bytesRead := 0;
    if offset % 4 != 0 {
      return;
    }
    ghost var first, before, ws := dev.state, buffer[..], [];
    while bytesRead < length
      invariant bytesRead == 4 * |ws| && |ws| <= WordCount(length)
      invariant dev.state == AfterReads(dev.region, first, offset, |ws|)
      invariant ws == WordsRead(dev.region, first, offset, |ws|)
      invariant buffer[..bytesRead] == Bytes(ws)
      invariant buffer[bytesRead..] == before[bytesRead..]
    {
      var w := dev.Readl(offset + bytesRead);
      PutWord(buffer, bytesRead, w);
      BytesAppend(ws, w);
      ws := ws + [w];
      bytesRead := bytesRead + 4;
    }
  }

  /** The copy of one word into the buffer. */
  method PutWord(buffer: array<u8>, at: nat, w: u32)
    requires at + 4 <= buffer.Length
    modifies buffer
    ensures buffer[..at + 4] == old(buffer[..at]) + WordBytes(w)
    ensures buffer[at + 4..] == old(buffer[at + 4..])
  {
    var bs := WordBytes(w);
    for k := 0 to 4
      invariant buffer[..at] == old(buffer[..at]) && buffer[at..at + k] == bs[..k]
      invariant buffer[at + k..] == old(buffer[at + k..])
    {
      buffer[at + k] := bs[k];
    }
  }

  /** Writes length bytes of user memory at offset, again as whole words. */
  method FpgaCharWrite<S>(dev: Mapping<S>, user: seq<u8>, length: nat, offset: nat) returns (bytesWritten: nat)
    requires |user| >= 4 * WordCount(length)
    modifies dev
    ensures bytesWritten == if offset % 4 == 0 then 4 * WordCount(length) else 0
    ensures offset % 4 == 0 ==> length <= bytesWritten < length + 4
    ensures dev.state == AfterWrites(dev.region, old(dev.state), offset, AsWords(user[..bytesWritten]))
  {
    bytesWritten := 0;
    if offset % 4 != 0 {
      return;
    }
    ghost var ws := [];
    while bytesWritten < length
      invariant bytesWritten == 4 * |ws| && |ws| <= WordCount(length)
      invariant ws == AsWords(user[..bytesWritten])
      invariant dev.state == AfterWrites(dev.region, old(dev.state), offset, ws)
    {
      var next := user[bytesWritten..bytesWritten + 4];
      var w := BytesWord(next);
      dev.Iowrite32(w, offset + bytesWritten);
      WordsAppend(user[..bytesWritten], next);
      assert user[..bytesWritten + 4] == user[..bytesWritten] + next;
      assert (ws + [w])[..|ws|] == ws;
      ws := ws + [w];
      bytesWritten := bytesWritten + 4;
    }
  }

  // ----- The ioctls -----

  /** One 64-bit variable of the ioctl, written through fpga_char_write. */
  method WriteWord64<S>(dev: Mapping<S>, v: u64, offset: nat) returns (bytesWritten: nat)
    requires offset % 4 == 0
    modifies dev
    ensures bytesWritten == 8
    ensures dev.state == AfterWrites(dev.region, old(dev.state), offset, [Low32(v), Shr32(v)])
  {
    bytesWritten := FpgaCharWrite(dev, Bytes64(v), 8, offset);
    assert Bytes64(v)[..8] == Bytes64(v);
    WordsOfBytes([Low32(v), Shr32(v)]);
  }

  datatype Command =
    | ModifyBatchFactor(args: u64)
    | GetMaxNumVirtines
    | RingDoorbell
    | SetSnapshot(addr: u64, size: u64)
    | Unknown

  const ENOTTY: int := 25

  /** The four word writes of the SET_SNAPSHOT ioctl. */
  function SnapshotWrites<S>(m: Region<S>, s: S, n: nat, addr: u64, size: u64): S {
    AfterWrites(m, AfterWrites(m, s, SnapshotSizeReg(n), [Low32(size), Shr32(size)]),
                SnapshotAddrReg(n), [Low32(addr), Shr32(addr)])
  }

  lemma OneAccess<S>(m: Region<S>, s: S, a: Access)
    ensures Replay(m, s, [a]) == Perform(m, s, a)
  {
    assert [a][1..] == [];
  }

  /** It makes exactly these accesses, on every device. */
  lemma SnapshotAccesses<S>(m: Region<S>, s: S, n: nat, addr: u64, size: u64)
    ensures SnapshotWrites(m, s, n, addr, size) == Replay(m, s, [
      WriteAt(SnapshotSizeReg(n), Low32(size)), WriteAt(SnapshotSizeReg(n) + 4, Shr32(size)),
      WriteAt(SnapshotAddrReg(n), Low32(addr)), WriteAt(SnapshotAddrReg(n) + 4, Shr32(addr))])
  {
    var size0, size1 := WriteAt(SnapshotSizeReg(n), Low32(size)), WriteAt(SnapshotSizeReg(n) + 4, Shr32(size));
    var addr0, addr1 := WriteAt(SnapshotAddrReg(n), Low32(addr)), WriteAt(SnapshotAddrReg(n) + 4, Shr32(addr));
    var s1 := AfterWrites(m, s, SnapshotSizeReg(n), [Low32(size), Shr32(size)]);
    TwoAccesses(m, s, SnapshotSizeReg(n), Low32(size), Shr32(size));
    TwoAccesses(m, s1, SnapshotAddrReg(n), Low32(addr), Shr32(addr));
    ReplayAppend(m, s, [size0, size1], [addr0, addr1]);
    assert [size0, size1] + [addr0, addr1] == [size0, size1, addr0, addr1];
  }

  lemma TwoAccesses<S>(m: Region<S>, s: S, addr: nat, w0: u32, w1: u32)
    ensures AfterWrites(m, s, addr, [w0, w1]) == Replay(m, s, [WriteAt(addr, w0), WriteAt(addr + 4, w1)])
  {
    var ws := [w0, w1];
    WritesAscend(m, s, addr, ws);
    assert seq(2, i requires 0 <= i < 2 => WriteAt(addr + 4 * i, ws[i])) == [WriteAt(addr, w0), WriteAt(addr + 4, w1)];
  }

  /** SET_SNAPSHOT as a recording region sees it. */
  lemma SnapshotRecorded(n: nat, addr: u64, size: u64)
    ensures SnapshotWrites(Recorder(), [], n, addr, size) == [
      WriteAt(SnapshotSizeReg(n), Low32(size)), WriteAt(SnapshotSizeReg(n) + 4, Shr32(size)),
      WriteAt(SnapshotAddrReg(n), Low32(addr)), WriteAt(SnapshotAddrReg(n) + 4, Shr32(addr))]
  {
    SnapshotAccesses(Recorder(), [], n, addr, size);
    RecorderRecords([], [
      WriteAt(SnapshotSizeReg(n), Low32(size)), WriteAt(SnapshotSizeReg(n) + 4, Shr32(size)),
      WriteAt(SnapshotAddrReg(n), Low32(addr)), WriteAt(SnapshotAddrReg(n) + 4, Shr32(addr))]);
  }

  /** The ioctl entry point, for queues of n entries. out is what GetMaxNumVirtines stores for its caller. */
  method FpgaCharIoctl<S>(dev: Mapping<S>, n: nat, cmd: Command) returns (ret: int, out: u32)
    modifies dev
    ensures match cmd
      case ModifyBatchFactor(args) =>
        ret == 0 && dev.state == Replay(dev.region, old(dev.state), [WriteAt(BatchFactorReg(n), Low32(args))])
      case GetMaxNumVirtines =>
        && ret == 0 && out == dev.region.value(old(dev.state), MaxNumVirtinesReg(n))
        && dev.state == Replay(dev.region, old(dev.state), [ReadAt(MaxNumVirtinesReg(n))])
      case RingDoorbell =>
        ret == 0 && dev.state == Replay(dev.region, old(dev.state), [WriteAt(DoorbellReg(n), 1)])
      case SetSnapshot(addr, size) =>
        ret == 8 && dev.state == Replay(dev.region, old(dev.state), [
          WriteAt(SnapshotSizeReg(n), Low32(size)), WriteAt(SnapshotSizeReg(n) + 4, Shr32(size)),
          WriteAt(SnapshotAddrReg(n), Low32(addr)), WriteAt(SnapshotAddrReg(n) + 4, Shr32(addr))])
      case Unknown => ret == -25 && dev.state == old(dev.state)
  {
    ret, out := 0, 0;
    match cmd
    case ModifyBatchFactor(args) =>
      OneAccess(dev.region, dev.state, WriteAt(BatchFactorReg(n), Low32(args)));
      dev.Iowrite32(Low32(args), BatchFactorReg(n));
    case GetMaxNumVirtines =>
      OneAccess(dev.region, dev.state, ReadAt(MaxNumVirtinesReg(n)));
      out := dev.Readl(MaxNumVirtinesReg(n));
    case RingDoorbell =>
      OneAccess(dev.region, dev.state, WriteAt(DoorbellReg(n), 1));
      dev.Iowrite32(1, DoorbellReg(n));
    case SetSnapshot(addr, size) =>
      SnapshotAccesses(dev.region, dev.state, n, addr, size);
      ret := WriteWord64(dev, size, SnapshotSizeReg(n));
      ret := WriteWord64(dev, addr, SnapshotAddrReg(n));
    case Unknown => ret := -ENOTTY;
  }
}
