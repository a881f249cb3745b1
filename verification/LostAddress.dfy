/** What a run of submissions overwrites once a 0 is among them: the one-slot test then lets TAIL
    pass HEAD, and accepted addresses are lost with no refusal. */
module LostAddress {
  import opened Words
  import opened RingQueue
  import opened Protocol
  import opened Conservation

  // ----- A run of inserts into one queue -----

  /** The elements that inserting xs, one after the other, overwrites. */
  function DisplacedBy(r: Ring, xs: seq<u64>): seq<u64>
    decreases xs
  {
    if xs == [] then [] else Displaced(r) + DisplacedBy(InsertRing(r, xs[0]), xs[1..])
  }

  predicate AcceptsAll(r: Ring, xs: seq<u64>)
    decreases xs
  {
    xs == [] || (Accepts(r) && AcceptsAll(InsertRing(r, xs[0]), xs[1..]))
  }

  /** The i-th slot from HEAD. */
  function At(r: Ring, i: nat): u64
    requires i < |r.buffer|
  {
    r.buffer[Slot(|r.buffer|, r.head, i)]
  }

  /** TAIL stands c slots behind HEAD, a whole round counted as n. */
  predicate TailAt(r: Ring, c: nat) {
    c <= |r.buffer| && r.tail == if c < |r.buffer| then Slot(|r.buffer|, r.head, c) else r.head
  }

  /** An accepted insert stores at TAIL and moves it on; the other slots stay. */
  lemma InsertAt(r: Ring, c: nat, x: u64)
    requires TailAt(r, c) && Accepts(r) && c < |r.buffer|
    ensures var r' := InsertRing(r, x);
            && r'.head == r.head && TailAt(r', c + 1)
            && forall i: nat :: i < |r.buffer| ==> At(r', i) == if i == c then x else At(r, i)
  {
  }

  /** At a whole round the store goes to the slot at HEAD. */
  lemma InsertAtHead(r: Ring, x: u64)
    requires TailAt(r, |r.buffer|) && At(r, 0) == 0
    ensures Accepts(r)
    ensures var r' := InsertRing(r, x);
            && r'.head == r.head && (|r.buffer| > 1 ==> TailAt(r', 1)) && (|r.buffer| == 1 ==> r'.tail == r'.head)
            && forall i: nat :: i < |r.buffer| ==> At(r', i) == if i == 0 then x else At(r, i)
  {
    if |r.buffer| > 1 {
      assert Slot(|r.buffer|, r.head, 1) == NextElement(|r.buffer|, r.head);
    }
  }

  // ----- HEAD at a used slot -----

  /** HEAD points at a used slot, and what lies from TAIL on is free. */
  ghost predicate Anchored(r: Ring, c: nat) {
    && c > 0 && TailAt(r, c) && At(r, 0) != 0
    && forall i: nat :: c <= i < |r.buffer| ==> At(r, i) == 0
  }

  /** Then TAIL stops at HEAD, with gaps or without. */
  lemma {:induction false} AnchoredLosesNothing(r: Ring, c: nat, xs: seq<u64>)
    requires Anchored(r, c)
    ensures DisplacedBy(r, xs) == []
    decreases xs
  {
    if xs != [] {
      if c < |r.buffer| {
        assert At(r, c) == 0;
        InsertAt(r, c, xs[0]);
        AnchoredLosesNothing(InsertRing(r, xs[0]), c + 1, xs[1..]);
      } else {
        assert !Accepts(r);
        AnchoredLosesNothing(r, c, xs[1..]);
      }
    }
  }

  // ----- HEAD at a free slot -----

  /** TAIL has passed HEAD: every slot is used, and q lies between TAIL and HEAD. */
  ghost predicate Lapped(r: Ring, q: seq<u64>) {
    var n := |r.buffer|;
    && |q| < n && TailAt(r, n - |q|) && At(r, 0) != 0 && 0 !in q
    && forall i: nat :: i < |q| ==> At(r, n - |q| + i) == q[i]
  }

  lemma LapGoesOn(r: Ring, q: seq<u64>, x: u64)
    requires Lapped(r, q) && q != []
    ensures Accepts(r) && Displaced(r) == [q[0]] && Lapped(InsertRing(r, x), q[1..])
  {
    var n, r', q' := |r.buffer|, InsertRing(r, x), q[1..];
    var c := n - |q|;
    assert At(r, c + 0) == q[0];
    InsertAt(r, c, x);
    forall i: nat | i < |q'|
      ensures At(r', n - |q'| + i) == q'[i]
    {
      assert At(r, c + (i + 1)) == q[i + 1];
    }
  }

  function Prefix(q: seq<u64>, k: nat): seq<u64> {
    if k <= |q| then q[..k] else q
  }

  lemma PrefixFirst(q: seq<u64>, k: nat)
    requires q != [] && k > 0
    ensures Prefix(q, k) == [q[0]] + Prefix(q[1..], k - 1)
  {
  }

  /** Then inserts overwrite q, oldest first, until TAIL meets HEAD again. */
  lemma {:induction false} LappedLoses(r: Ring, q: seq<u64>, xs: seq<u64>)
    requires Lapped(r, q)
    ensures DisplacedBy(r, xs) == Prefix(q, |xs|)
    ensures |xs| <= |q| ==> AcceptsAll(r, xs)
    decreases xs
  {
    if xs == [] {
    } else if q == [] {
      assert !Accepts(r);
      LappedLoses(r, q, xs[1..]);
    } else {
      LapGoesOn(r, q, xs[0]);
      LappedLoses(InsertRing(r, xs[0]), q[1..], xs[1..]);
      PrefixFirst(q, |xs|);
    }
  }

  /** HEAD points at a free slot, q follows it, and the rest is free. */
  ghost predicate Gapped(r: Ring, q: seq<u64>) {
    && |q| < |r.buffer| && TailAt(r, |q| + 1) && At(r, 0) == 0 && 0 !in q
    && (forall i: nat :: i < |q| ==> At(r, i + 1) == q[i])
    && forall i: nat :: |q| < i < |r.buffer| ==> At(r, i) == 0
  }

  lemma GapFills(r: Ring, q: seq<u64>, x: u64)
    requires Gapped(r, q) && x != 0 && |q| + 1 < |r.buffer|
    ensures Accepts(r) && Displaced(r) == [] && Gapped(InsertRing(r, x), q + [x])
  {
    assert At(r, |q| + 1) == 0;
    InsertAt(r, |q| + 1, x);
  }

  lemma GapCloses(r: Ring, q: seq<u64>, x: u64)
    requires Gapped(r, q) && x != 0 && |q| + 1 == |r.buffer|
    ensures Accepts(r) && Displaced(r) == [] && Lapped(InsertRing(r, x), q)
  {
    InsertAtHead(r, x);
    var r' := InsertRing(r, x);
    forall i: nat | i < |q|
      ensures At(r', |r.buffer| - |q| + i) == q[i]
    {
      assert At(r, i + 1) == q[i];
    }
  }

  /** The elements of a run of inserts xs behind q that a queue of n slots with a free HEAD loses:
      the second round of inserts overwrites the first, up to the slot before HEAD. */
  function SecondRound(n: nat, q: seq<u64>, xs: seq<u64>): seq<u64>
    requires |q| < n
  {
    if |q| + |xs| <= n then [] else Prefix((q + xs)[..n - 1], |q| + |xs| - n)
  }

  lemma SecondRoundLater(n: nat, q: seq<u64>, xs: seq<u64>)
    requires |q| + 1 < n && xs != []
    ensures SecondRound(n, q, xs) == SecondRound(n, q + [xs[0]], xs[1..])
  {
    assert q + [xs[0]] + xs[1..] == q + xs;
  }

  lemma SecondRoundNow(n: nat, q: seq<u64>, xs: seq<u64>)
    requires |q| + 1 == n && xs != []
    ensures SecondRound(n, q, xs) == Prefix(q, |xs[1..]|)
  {
    assert |q| + |xs| > n ==> (q + xs)[..n - 1] == q;
  }

  lemma {:induction false} GappedLoses(r: Ring, q: seq<u64>, xs: seq<u64>)
    requires Gapped(r, q) && 0 !in xs
    ensures DisplacedBy(r, xs) == SecondRound(|r.buffer|, q, xs)
    ensures |q| + |xs| < 2 * |r.buffer| ==> AcceptsAll(r, xs)
    decreases xs
  {
    if xs != [] {
      if |q| + 1 < |r.buffer| {
        GapFills(r, q, xs[0]);
        SecondRoundLater(|r.buffer|, q, xs);
        GappedLoses(InsertRing(r, xs[0]), q + [xs[0]], xs[1..]);
      } else {
        GapCloses(r, q, xs[0]);
        SecondRoundNow(|r.buffer|, q, xs);
        LappedLoses(InsertRing(r, xs[0]), q, xs[1..]);
      }
    }
  }

  // ----- Which submissions lose an address -----

  lemma SoundShape(r: Ring)
    requires Sound(r)
    ensures TailAt(r, Count(r)) && (Count(r) > 0 ==> At(r, 0) != 0)
    ensures forall i: nat :: Count(r) <= i < |r.buffer| ==> At(r, i) == 0
    ensures Accepts(r) <==> Count(r) < |r.buffer|
  {
    MeetingPointersDecide(r);
  }

  lemma ZeroIntoEmpty(r: Ring)
    requires Sound(r) && Count(r) == 0
    ensures Accepts(r) && Gapped(InsertRing(r, 0), [])
  {
    SoundShape(r);
    InsertAt(r, 0, 0);
  }

  /** The number of slots from HEAD to TAIL after an insert into a sound queue. */
  function Advanced(r: Ring): nat {
    if Count(r) < |r.buffer| then Count(r) + 1 else |r.buffer|
  }

  lemma OtherwiseAnchored(r: Ring, v: u64)
    requires Sound(r) && (v != 0 || Count(r) > 0)
    ensures Anchored(InsertRing(r, v), Advanced(r))
  {
    SoundShape(r);
    if Count(r) < |r.buffer| {
      InsertAt(r, Count(r), v);
    }
  }

  /** Which runs v, xs of inserts into a working queue overwrite elements, and which ones: only a
      0 put into an empty queue and followed by more than a whole round of addresses. */
  lemma DisplacedExactly(r: Ring, v: u64, xs: seq<u64>)
    requires Sound(r) && 0 !in xs
    ensures DisplacedBy(r, [v] + xs) ==
            if v == 0 && Contents(r) == [] then SecondRound(|r.buffer|, [], xs) else []
    ensures v == 0 && Contents(r) == [] && |xs| < 2 * |r.buffer| ==> AcceptsAll(r, [v] + xs)
  {
    var r' := InsertRing(r, v);
    SoundNeverDisplaces(r);
    DisplacedFirst(r, v, xs);
    if v == 0 && Contents(r) == [] {
      ZeroIntoEmpty(r);
      GappedLoses(r', [], xs);
    } else {
      OtherwiseAnchored(r, v);
      AnchoredLosesNothing(r', Advanced(r), xs);
    }
  }

  lemma DisplacedFirst(r: Ring, v: u64, xs: seq<u64>)
    ensures DisplacedBy(r, [v] + xs) == Displaced(r) + DisplacedBy(InsertRing(r, v), xs)
    ensures AcceptsAll(r, [v] + xs) <==> Accepts(r) && AcceptsAll(InsertRing(r, v), xs)
  {
    assert ([v] + xs)[1..] == xs;
  }

  /** Something is overwritten if and only if a 0 goes into an empty queue of two or more slots
      and more addresses than there are slots follow. */
  lemma OverwritesIff(r: Ring, v: u64, xs: seq<u64>)
    requires Sound(r) && 0 !in xs
    ensures DisplacedBy(r, [v] + xs) != []
       <==> v == 0 && Contents(r) == [] && |xs| > |r.buffer| && |r.buffer| >= 2
  {
    DisplacedExactly(r, v, xs);
  }

  // ----- In the system -----

  function SubmitAll(vs: seq<u64>): seq<Action> {
    if vs == [] then [] else Submit(vs[0]) + SubmitAll(vs[1..])
  }

  /** The histories before and after vs was submitted to the RQ r. */
  ghost predicate Recorded(h: History, r: Ring, vs: seq<u64>, h': History) {
    && h'.overwritten == h.overwritten + DisplacedBy(r, vs)
    && (AcceptsAll(r, vs) ==> h'.accepted == h.accepted + vs && h'.refusedRq == h.refusedRq)
  }

  lemma RecordedFirst(h: History, r: Ring, vs: seq<u64>, h1: History, h': History)
    requires vs != [] && Recorded(h1, InsertRing(r, vs[0]), vs[1..], h')
    requires h1.overwritten == h.overwritten + Displaced(r)
    requires Accepts(r) ==> h1.accepted == h.accepted + [vs[0]] && h1.refusedRq == h.refusedRq
    ensures Recorded(h, r, vs, h')
  {
    assert [vs[0]] + vs[1..] == vs;
  }

  lemma SubmitRecorded(s: System, v: u64)
    requires !HoldsLock(s.pc)
    ensures var s', h := Exec(s, Submit(v)), s.h;
            && s'.pc == s.pc && s'.dev.rq == InsertRing(s.dev.rq, v)
            && s'.h.overwritten == h.overwritten + Displaced(s.dev.rq)
            && (Accepts(s.dev.rq) ==> s'.h.accepted == h.accepted + [v] && s'.h.refusedRq == h.refusedRq)
  {
    SubmitEffect(s, v);
    assert !Accepts(s.dev.rq) ==> Displaced(s.dev.rq) == [];
  }

  lemma {:induction false} SubmitAllEffect(s: System, vs: seq<u64>)
    requires !HoldsLock(s.pc)
    ensures Recorded(s.h, s.dev.rq, vs, Exec(s, SubmitAll(vs)).h)
    decreases vs
  {
    if vs != [] {
      var s' := Exec(s, Submit(vs[0]));
      SubmitRecorded(s, vs[0]);
      ExecAppend(s, Submit(vs[0]), SubmitAll(vs[1..]));
      SubmitAllEffect(s', vs[1..]);
      RecordedFirst(s.h, s.dev.rq, vs, s'.h, Exec(s, SubmitAll(vs)).h);
    }
  }

  /** A run of submissions from any reachable state whose RQ took no 0: accepted addresses are lost
      if and only if the first submission is 0, it meets an empty RQ, and more addresses than the
      RQ has slots follow. The lost ones are then the first that followed, and up to two rounds
      not one of them was refused. */
  lemma AcceptedAddressesLostIff(s: System, v: u64, xs: seq<u64>)
    requires Reachable(s) && 0 !in s.h.accepted && !HoldsLock(s.pc) && 0 !in xs
    ensures var t, rq := Exec(s, SubmitAll([v] + xs)), s.dev.rq;
            && (t.h.overwritten != [] <==> v == 0 && Contents(rq) == [] && |xs| > |rq.buffer| && |rq.buffer| >= 2)
            && (v == 0 && Contents(rq) == [] ==> t.h.overwritten == SecondRound(|rq.buffer|, [], xs))
            && (v == 0 && Contents(rq) == [] && |xs| < 2 * |rq.buffer| ==>
                  t.h.accepted == s.h.accepted + ([v] + xs) && t.h.refusedRq == s.h.refusedRq)
  {
    ReachableHasInv(s);
    NothingOverwritten(s);
    SubmitAllEffect(s, [v] + xs);
    OverwritesIff(s.dev.rq, v, xs);
    DisplacedExactly(s.dev.rq, v, xs);
  }

  lemma FirstOfSecondRound(n: nat, xs: seq<u64>)
    requires n >= 2 && |xs| == n + 1
    ensures SecondRound(n, [], xs) == [xs[0]]
  {
    assert [] + xs == xs;
  }

  /** So it happens on every fresh device of two or more slots: with one address more than there
      are slots behind a 0, all are accepted, none is refused, and the first is gone. */
  lemma FreshDeviceLosesFirst(n: nat, mem: seq<u8>, emulator: seq<u8>, cleanState: u64, xs: seq<u64>)
    requires n >= 2 && |xs| == n + 1 && 0 !in xs
    ensures var t := Exec(Boot(n, mem, emulator, cleanState), SubmitAll([0] + xs));
            t.h.accepted == [0] + xs && t.h.refusedRq == [] && t.h.overwritten == [xs[0]]
  {
    var s := Boot(n, mem, emulator, cleanState);
    EmptyRingIsSound(n);
    assert s == Exec(s, []);
    AcceptedAddressesLostIff(s, 0, xs);
    FirstOfSecondRound(n, xs);
    assert [] + ([0] + xs) == [0] + xs;
  }
}
