/** The drain loop of the interrupt handler, for any mapped device: read 8 bytes at one
    address until they are zero. */
module DrainLoop {
  import opened Words
  import opened Mmio
  import opened CharDevice

  /** The value of one 8-byte read. */
  function Fetched<S>(m: Region<S>, s: S, addr: nat): u64 {
    var words := WordsRead(m, s, addr, 2);
    Joined64(words[0], words[1])
  }

  lemma FetchedFromBytes<S>(m: Region<S>, s: S, addr: nat)
    ensures Value64(Bytes(WordsRead(m, s, addr, 2))) == Fetched(m, s, addr)
  {
    var words := WordsRead(m, s, addr, 2);
    Value64OfWords(words[0], words[1]);
    assert words == [words[0], words[1]];
  }

  function AfterFetch<S>(m: Region<S>, s: S, addr: nat): S {
    AfterReads(m, s, addr, 2)
  }

  function Got(v: u64): seq<u64> {
    if v == 0 then [] else [v]
  }

  /** How a proof looks at the device: the states it can be in, how many values it can still
      give away at most, and the values it has given away. */
  datatype View<!S> = View(ok: S -> bool, left: S -> nat, given: S -> seq<u64>)

  /** In each such state a read gives one more value away, or zero. */
  ghost predicate RunsDry<S(!new)>(m: Region<S>, addr: nat, view: View<S>) {
    forall s {:trigger Fetched(m, s, addr)} :: view.ok(s) ==>
      var v, s' := Fetched(m, s, addr), AfterFetch(m, s, addr);
      && view.ok(s')
      && view.left(s') + |Got(v)| <= view.left(s)
      && view.given(s') == view.given(s) + Got(v)
  }

  /** The values the loop gets before it reads its zero. */
  ghost function Drained<S(!new)>(m: Region<S>, s: S, addr: nat, view: View<S>): seq<u64>
    requires RunsDry(m, addr, view) && view.ok(s)
    decreases view.left(s)
  {
    var v := Fetched(m, s, addr);
    if v == 0 then [] else [v] + Drained(m, AfterFetch(m, s, addr), addr, view)
  }

  /** The state in which it leaves the device. */
  ghost function DrainEnd<S(!new)>(m: Region<S>, s: S, addr: nat, view: View<S>): S
    requires RunsDry(m, addr, view) && view.ok(s)
    decreases view.left(s)
  {
    var s' := AfterFetch(m, s, addr);
    if Fetched(m, s, addr) == 0 then s' else DrainEnd(m, s', addr, view)
  }

  /** The loop gets no more values than were left, and exactly those the device gave away. */
  lemma {:induction false} DrainIsBounded<S(!new)>(m: Region<S>, s: S, addr: nat, view: View<S>)
    requires RunsDry(m, addr, view) && view.ok(s)
    ensures var got, end := Drained(m, s, addr, view), DrainEnd(m, s, addr, view);
            && |got| <= view.left(s) && 0 !in got
            && view.ok(end) && view.given(end) == view.given(s) + got
    decreases view.left(s)
  {
    if Fetched(m, s, addr) != 0 {
      DrainIsBounded(m, AfterFetch(m, s, addr), addr, view);
    }
  }

  /** One read at a time: the first value, and what is left after it. */
  lemma DrainsAfterFirst<S(!new)>(m: Region<S>, s: S, addr: nat, view: View<S>)
    requires RunsDry(m, addr, view) && view.ok(s)
    ensures |Drained(m, s, addr, view)| <= |Got(Fetched(m, s, addr))| + view.left(AfterFetch(m, s, addr))
  {
    if Fetched(m, s, addr) != 0 {
      DrainIsBounded(m, AfterFetch(m, s, addr), addr, view);
    }
  }

  lemma DrainedFirst<S(!new)>(m: Region<S>, s: S, addr: nat, view: View<S>)
    requires RunsDry(m, addr, view) && view.ok(s) && Fetched(m, s, addr) != 0
    ensures view.ok(AfterFetch(m, s, addr))
    ensures Drained(m, s, addr, view) == [Fetched(m, s, addr)] + Drained(m, AfterFetch(m, s, addr), addr, view)
  {
  }

  /** A device whose reads hand out a known sequence, one by one. */
  ghost predicate HandsOut<S(!new)>(m: Region<S>, addr: nat, ok: S -> bool, supply: S -> seq<u64>) {
    forall s {:trigger Fetched(m, s, addr)} :: ok(s) ==>
      var v, s' := Fetched(m, s, addr), AfterFetch(m, s, addr);
      ok(s') && (v == 0 ==> supply(s) == []) && supply(s) == Got(v) + supply(s')
  }

  /** Then the loop gets that sequence. */
  lemma {:induction false} DrainIsSupply<S(!new)>(m: Region<S>, s: S, addr: nat, view: View<S>,
                                                  ok: S -> bool, supply: S -> seq<u64>)
    requires RunsDry(m, addr, view) && view.ok(s)
    requires HandsOut(m, addr, ok, supply) && ok(s)
    ensures Drained(m, s, addr, view) == supply(s)
    ensures ok(DrainEnd(m, s, addr, view)) && supply(DrainEnd(m, s, addr, view)) == []
    decreases view.left(s)
  {
    var v := Fetched(m, s, addr);
    if v != 0 {
      DrainIsSupply(m, AfterFetch(m, s, addr), addr, view, ok, supply);
    }
  }

  /** Whether v is the zero that ends the loop or the next value it gets. */
  ghost predicate NextIs<S(!new)>(m: Region<S>, addr: nat, view: View<S>, s: S, got: seq<u64>, end: S, v: u64)
    requires RunsDry(m, addr, view) && view.ok(s)
  {
    if v == 0 then got == [] && s == end
    else got == [v] + Drained(m, s, addr, view) && DrainEnd(m, s, addr, view) == end
  }

  /** The read in the handler's loop condition. */
  method FetchOne<S(!new)>(dev: Mapping<S>, addr: nat, ghost view: View<S>) returns (cleanVirtine: u64)
    requires addr % 4 == 0
    requires RunsDry(dev.region, addr, view) && view.ok(dev.state)
    modifies dev
    ensures view.ok(dev.state)
    ensures view.left(dev.state) + |Got(cleanVirtine)| <= view.left(old(dev.state))
    ensures NextIs(dev.region, addr, view, dev.state, Drained(dev.region, old(dev.state), addr, view),
                   DrainEnd(dev.region, old(dev.state), addr, view), cleanVirtine)
  {
    var word := new u8[8](_ => 0);
    var bytesRead := FpgaCharRead(dev, word, 8, addr);
    assert word[..8] == word[..];
    cleanVirtine := Value64(word[..]);
    FetchedFromBytes(dev.region, old(dev.state), addr);
  }

  /** One store of the loop; overrun reports that it would be past the end. */
  method StoreAt(a: array<u64>, i: nat, v: u64) returns (overrun: bool)
    modifies a
    ensures overrun <==> i >= a.Length
    ensures !overrun ==> a[..i + 1] == old(a[..i]) + [v]
  {
    overrun := i >= a.Length;
    if !overrun {
      a[i] := v;
    }
  }

  /** The handler's loop. It stores what it fetches in an array of n entries; overrun reports a
      store past its end. The view is the caller's reason to believe that the loop ends. */
  method FetchCleanVirtines<S(!new)>(dev: Mapping<S>, n: nat, addr: nat, ghost view: View<S>)
    returns (cleanVirtines: array<u64>, i: nat, overrun: bool)
    requires addr % 4 == 0
    requires RunsDry(dev.region, addr, view) && view.ok(dev.state)
    modifies dev
    ensures fresh(cleanVirtines) && cleanVirtines.Length == n
    ensures dev.state == DrainEnd(dev.region, old(dev.state), addr, view)
    ensures i == |Drained(dev.region, old(dev.state), addr, view)|
    ensures overrun <==> i > n
    ensures !overrun ==> cleanVirtines[..i] == Drained(dev.region, old(dev.state), addr, view)
  {
    ghost var all, end := Drained(dev.region, dev.state, addr, view), DrainEnd(dev.region, dev.state, addr, view);
    cleanVirtines := new u64[n](_ => 0);
    i, overrun := 0, false;
    var cleanVirtine := FetchOne(dev, addr, view);
    while cleanVirtine != 0
      invariant view.ok(dev.state)
      invariant i <= |all| && NextIs(dev.region, addr, view, dev.state, all[i..], end, cleanVirtine)
      invariant overrun <==> i > n
      invariant !overrun ==> cleanVirtines[..i] == all[..i]
      decreases view.left(dev.state), cleanVirtine
    {
      NextElement(all, i, cleanVirtine, Drained(dev.region, dev.state, addr, view));
      overrun := StoreAt(cleanVirtines, i, cleanVirtine);
      i := i + 1;
      cleanVirtine := FetchOne(dev, addr, view);
    }
  }

  lemma NextElement(all: seq<u64>, i: nat, v: u64, rest: seq<u64>)
    requires i <= |all| && all[i..] == [v] + rest
    ensures i < |all| && all[..i + 1] == all[..i] + [v] && all[i + 1..] == rest
  {
    assert all[i] == all[i..][0];
    assert all[i + 1..] == all[i..][1..];
  }
}
