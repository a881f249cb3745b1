/** The device's ring queue: a fixed circular buffer whose HEAD and TAIL carry no
    element count. When the two meet, only the slot they point at tells a full queue
    from an empty one: an unused slot holds 0.

    Ring is the value of one queue. Its operations do what the C code does for every
    argument, 0 included; Sound is the invariant under which they implement a bounded
    FIFO. The class at the end updates the buffer in place and is proved against them. */
module RingQueue {
  import opened Words

  datatype RawRing = RawRing(buffer: seq<u64>, head: nat, tail: nat)

  /** HEAD and TAIL always point at a slot of the buffer. */
  type Ring = r: RawRing | r.head < |r.buffer| && r.tail < |r.buffer|
    witness RawRing([0], 0, 0)

  // ----- Pointer movement -----

  predicate Within(n: nat, p: int) {
    0 <= p < n
  }

  /** The slot after p. The range guard of the source assigns a result that the code
      then overwrites, so a position outside the buffer is advanced as well. */
  function NextElement(n: nat, p: int): int {
    if p == n - 1 then 0 else p + 1
  }

  function PreviousElement(n: nat, p: int): int {
    if p == 0 then n - 1 else p - 1
  }

  /** The documented NULL for a position outside the queue is never returned: such a
      position moves one slot on, and only the one just below the base ends up inside. */
  lemma NextElementStaysWithin(n: nat, p: int)
    requires n > 0
    ensures Within(n, NextElement(n, p)) <==> Within(n, p) || p == -1
    ensures Within(n, p) ==> PreviousElement(n, NextElement(n, p)) == p
    ensures Within(n, p) ==> NextElement(n, PreviousElement(n, p)) == p
  {
  }

  // ----- The two queue operations -----

  /** What pop_head returns. */
  function PopValue(r: Ring): u64 {
    r.buffer[r.head]
  }

  /** The queue after pop_head. */
  function PopRing(r: Ring): (r': Ring)
    ensures |r'.buffer| == |r.buffer|
  {
    if r.tail != r.head || r.buffer[r.head] != 0 then
      RawRing(r.buffer[r.head := 0], NextElement(|r.buffer|, r.head), r.tail)
    else
      r
  }

  /** The guard of insert_tail. */
  predicate Accepts(r: Ring) {
    r.head != r.tail || r.buffer[r.tail] == 0
  }

  /** The queue after insert_tail. */
  function InsertRing(r: Ring, x: u64): (r': Ring)
    ensures |r'.buffer| == |r.buffer|
  {
    if Accepts(r) then
      RawRing(r.buffer[r.tail := x], r.head, NextElement(|r.buffer|, r.tail))
    else
      r
  }

  /** The queue after reset_queue_pointers, which leaves the slots alone. */
  function ResetRing(r: Ring): Ring {
    r.(head := 0, tail := 0)
  }

  function EmptyRing(n: nat): (r: Ring)
    requires n > 0
    ensures |r.buffer| == n
  {
    RawRing(seq(n, _ => 0), 0, 0)
  }

  // ----- The abstraction: a bounded FIFO -----

  /** The i-th slot counted from h, going around the end of the buffer. */
  function Slot(n: nat, h: nat, i: nat): (k: nat)
    requires h < n && i < n
    ensures k < n
  {
    if h + i < n then h + i else h + i - n
  }

  /** How many slots are live, as the HEAD/TAIL distance and the one-slot test give it. */
  function Count(r: Ring): (k: nat)
    ensures k <= |r.buffer|
  {
    if r.head < r.tail then r.tail - r.head
    else if r.tail < r.head then r.tail + |r.buffer| - r.head
    else if r.buffer[r.head] == 0 then 0
    else |r.buffer|
  }

  /** The live slots, oldest first. */
  function Contents(r: Ring): (q: seq<u64>)
    ensures |q| == Count(r) <= |r.buffer|
  {
    seq(Count(r), i requires 0 <= i < Count(r) => r.buffer[Slot(|r.buffer|, r.head, i)])
  }

  /** The sentinel invariant: the non-zero slots are exactly the cyclic range of Count slots from HEAD. */
  ghost predicate Sound(r: Ring) {
    forall i: nat :: i < |r.buffer| ==> (r.buffer[Slot(|r.buffer|, r.head, i)] != 0 <==> i < Count(r))
  }

  ghost predicate AllSlots(r: Ring, used: bool) {
    forall k :: 0 <= k < |r.buffer| ==> (r.buffer[k] != 0 <==> used)
  }

  lemma EmptyRingIsSound(n: nat)
    requires n > 0
    ensures Sound(EmptyRing(n)) && Contents(EmptyRing(n)) == []
  {
  }

  /** Where slot k comes in the cyclic order that starts at h. */
  function Position(n: nat, h: nat, k: nat): (i: nat)
    requires h < n && k < n
    ensures i < n && Slot(n, h, i) == k
  {
    if h <= k then k - h else k + n - h
  }

  /** HEAD == TAIL means that every slot is unused or every slot is used, so looking at
      one slot decides between full and empty. */
  lemma MeetingPointersDecide(r: Ring)
    requires Sound(r)
    ensures r.head == r.tail ==> AllSlots(r, false) || AllSlots(r, true)
    ensures Accepts(r) <==> |Contents(r)| < |r.buffer|
    ensures Contents(r) == [] <==> PopValue(r) == 0
    ensures 0 !in Contents(r)
    ensures forall k :: 0 <= k < |r.buffer| && r.buffer[k] != 0 ==> r.buffer[k] in Contents(r)
  {
    var n := |r.buffer|;
    assert Slot(n, r.head, 0) == r.head;
    forall k | 0 <= k < n
      ensures r.buffer[k] != 0 <==> Position(n, r.head, k) < Count(r)
      ensures r.buffer[k] != 0 ==> r.buffer[k] in Contents(r)
    {
      var i := Position(n, r.head, k);
      assert Slot(n, r.head, i) == k;
      assert i < Count(r) ==> Contents(r)[i] == r.buffer[k];
    }
  }

  /** What a pop of a used slot does to the slots counted from HEAD. */
  lemma SlotsAfterPop(r: Ring)
    requires PopValue(r) != 0
    ensures var n, r' := |r.buffer|, PopRing(r);
            forall i: nat :: i < n ==>
              r'.buffer[Slot(n, r'.head, i)] == if i + 1 < n then r.buffer[Slot(n, r.head, i + 1)] else 0
  {
    var n, r' := |r.buffer|, PopRing(r);
    forall i: nat | i < n
      ensures r'.buffer[Slot(n, r'.head, i)] == if i + 1 < n then r.buffer[Slot(n, r.head, i + 1)] else 0
    {
      if i + 1 < n {
        assert Slot(n, r'.head, i) == Slot(n, r.head, i + 1) != r.head;
      } else {
        assert Slot(n, r'.head, i) == r.head;
      }
    }
  }

  /** pop_head on a sound queue: the oldest element, or 0 exactly when there is none. */
  lemma PopIsFifo(r: Ring)
    requires Sound(r)
    ensures Sound(PopRing(r))
    ensures Contents(r) == [] ==> PopValue(r) == 0 && PopRing(r) == r
    ensures Contents(r) != [] ==> PopValue(r) != 0 && Contents(r) == [PopValue(r)] + Contents(PopRing(r))
  {
    var n, r' := |r.buffer|, PopRing(r);
    assert Slot(n, r.head, 0) == r.head;
    if Contents(r) != [] {
      assert n > 1 ==> Slot(n, r.head, 1) == r'.head;
      assert Count(r') == Count(r) - 1;
      SlotsAfterPop(r);
      assert Contents(r)[1..] == Contents(r');
    }
  }

  /** insert_tail of a non-zero value on a sound queue: appended exactly when there is room. */
  lemma InsertIsFifo(r: Ring, x: u64)
    requires Sound(r) && x != 0
    ensures Sound(InsertRing(r, x))
    ensures |Contents(r)| < |r.buffer| ==> Contents(InsertRing(r, x)) == Contents(r) + [x]
    ensures |Contents(r)| == |r.buffer| ==> InsertRing(r, x) == r
  {
    var n, k, r' := |r.buffer|, Count(r), InsertRing(r, x);
    MeetingPointersDecide(r);
    if k < n {
      assert Slot(n, r.head, k) == r.tail;
      assert Count(r') == k + 1 by {
        assert k > 0 ==> r.buffer[Slot(n, r.head, 0)] != 0;
      }
      forall i: nat | i < n
        ensures r'.buffer[Slot(n, r'.head, i)] == if i == k then x else r.buffer[Slot(n, r.head, i)]
      {
      }
      assert Contents(r') == Contents(r) + [x];
    }
  }

  /** Which inserts keep the sentinel invariant: all but the insert of 0 into a queue with
      room. Nothing in insert_tail rejects that one. */
  lemma InsertKeepsSoundIff(r: Ring, x: u64)
    requires Sound(r)
    ensures Sound(InsertRing(r, x)) <==> x != 0 || !Accepts(r) || |r.buffer| == 1
  {
    if x != 0 {
      InsertIsFifo(r, x);
    } else if Accepts(r) {
      var n, k, r' := |r.buffer|, Count(r), InsertRing(r, x);
      MeetingPointersDecide(r);
      assert Slot(n, r.head, k) == r.tail;
      if n == 1 {
        assert r' == r;
      } else {
        assert r'.buffer[Slot(n, r'.head, k)] == 0;
        assert k > 0 ==> r.buffer[Slot(n, r.head, 0)] != 0;
        assert k < Count(r');
      }
    }
  }

  /** The element that an insert overwrites: it is accepted although TAIL points at a used slot. */
  function Displaced(r: Ring): seq<u64> {
    if Accepts(r) && r.buffer[r.tail] != 0 then [r.buffer[r.tail]] else []
  }

  /** The one-slot test guards a slot only when HEAD and TAIL meet. Under the sentinel invariant
      that is enough. */
  lemma SoundNeverDisplaces(r: Ring)
    requires Sound(r)
    ensures Displaced(r) == []
  {
    MeetingPointersDecide(r);
    if Count(r) < |r.buffer| {
      assert Slot(|r.buffer|, r.head, Count(r)) == r.tail;
    }
  }

  /** reset_queue_pointers moves the pointers and clears no slot: it is a way back to a
      working queue only from an empty or a completely full one. */
  lemma ResetKeepsSoundIff(r: Ring)
    requires Sound(r)
    ensures Sound(ResetRing(r)) <==> Contents(r) == [] || |Contents(r)| == |r.buffer|
  {
    var n, r' := |r.buffer|, ResetRing(r);
    forall k: nat | k < n
      ensures Slot(n, 0, k) == k && (r.buffer[k] != 0 <==> Position(n, r.head, k) < Count(r))
    {
      assert r.buffer[Slot(n, r.head, Position(n, r.head, k))] == r.buffer[k];
    }
    if 0 < Count(r) < n {
      var used, free := Slot(n, r.head, 0), Slot(n, r.head, n - 1);
      assert r.buffer[used] != 0 && r.buffer[free] == 0;
      assert r'.buffer[Slot(n, 0, used)] != 0 && r'.buffer[Slot(n, 0, free)] == 0;
    }
  }

  /** Both pointers go to the base: after a reset of a full queue its contents are the buffer
      from the first slot on, and after a reset of an empty one the next insert goes there. */
  lemma ResetGoesToBase(r: Ring, x: u64)
    requires Sound(r) && x != 0
    ensures |Contents(r)| == |r.buffer| ==> Contents(ResetRing(r)) == r.buffer
    ensures Contents(r) == [] ==> InsertRing(ResetRing(r), x).buffer == r.buffer[0 := x]
  {
    var n, r' := |r.buffer|, ResetRing(r);
    SlotsFullIff(r);
    MeetingPointersDecide(r);
    if |Contents(r)| == n {
      assert forall i: nat :: i < n ==> Slot(n, 0, i) == i;
    } else if Contents(r) == [] {
      assert r.buffer[0] == 0;
    }
  }

  /** All slots are in use exactly when the queue holds as many elements as it has slots. */
  lemma SlotsFullIff(r: Ring)
    requires Sound(r)
    ensures AllSlots(r, true) <==> |Contents(r)| == |r.buffer|
  {
    var n := |r.buffer|;
    forall k: nat | k < n
      ensures r.buffer[k] != 0 <==> Position(n, r.head, k) < Count(r)
    {
      assert r.buffer[Slot(n, r.head, Position(n, r.head, k))] == r.buffer[k];
    }
    assert r.buffer[Slot(n, r.head, n - 1)] != 0 <==> n - 1 < Count(r);
  }

  /** insert_tail returns TAIL as it leaves it. That pointer has moved exactly when a slot was
      free, provided that the buffer has two slots or none is free. */
  lemma ReturnedTailTells(r: Ring, x: u64)
    requires Sound(r)
    ensures (InsertRing(r, x).tail != r.tail <==> !AllSlots(r, true))
       <==> |r.buffer| >= 2 || AllSlots(r, true)
  {
    MeetingPointersDecide(r);
    SlotsFullIff(r);
  }

  // ----- Whole sequences of operations -----

  datatype Op = Insert(x: u64) | Pop

  /** What the caller observes: whether the returned TAIL moved, or the value popped. */
  datatype Outcome = Inserted(moved: bool) | Popped(v: u64)

  function RunRing(r: Ring, ops: seq<Op>): (Ring, seq<Outcome>)
    decreases ops
  {
    if ops == [] then (r, [])
    else match ops[0]
      case Insert(x) =>
        var r' := InsertRing(r, x);
        var (end, rest) := RunRing(r', ops[1..]);
        (end, [Inserted(r'.tail != r.tail)] + rest)
      case Pop =>
        var (end, rest) := RunRing(PopRing(r), ops[1..]);
        (end, [Popped(PopValue(r))] + rest)
  }

  /** The reference: a FIFO of at most n elements that pops 0 when it is empty. */
  function RunFifo(n: nat, q: seq<u64>, ops: seq<Op>): (seq<u64>, seq<Outcome>)
    decreases ops
  {
    if ops == [] then (q, [])
    else match ops[0]
      case Insert(x) =>
        var (end, rest) := RunFifo(n, if |q| < n then q + [x] else q, ops[1..]);
        (end, [Inserted(|q| < n)] + rest)
      case Pop =>
        var (end, rest) := RunFifo(n, if q == [] then q else q[1..], ops[1..]);
        (end, [Popped(if q == [] then 0 else q[0])] + rest)
  }

  /** The ring with its sentinel refines the bounded FIFO over every sequence of pops and
      non-zero inserts: same observations, same contents at the end. */
  lemma {:induction false} RingRefinesFifo(r: Ring, ops: seq<Op>)
    requires Sound(r) && |r.buffer| >= 2
    requires Insert(0) !in ops
    ensures var (end, seen) := RunRing(r, ops);
            Sound(end) && RunFifo(|r.buffer|, Contents(r), ops) == (Contents(end), seen)
    decreases ops
  {
    if ops != [] {
      match ops[0]
      case Insert(x) =>
        InsertIsFifo(r, x);
        MeetingPointersDecide(r);
        RingRefinesFifo(InsertRing(r, x), ops[1..]);
      case Pop =>
        PopIsFifo(r);
        assert Contents(r) != [] ==> Contents(r)[1..] == Contents(PopRing(r));
        RingRefinesFifo(PopRing(r), ops[1..]);
    }
  }

  // ----- The queue in place -----

  ghost predicate TookOldest(q: seq<u64>, v: u64, q': seq<u64>) {
    if v == 0 then q == [] && q' == [] else q == [v] + q'
  }

  ghost predicate AppendedIfRoom(n: nat, q: seq<u64>, x: u64, q': seq<u64>) {
    q' == if |q| < n then q + [x] else q
  }

  class RingQueue {
    const buffer: array<u64>
    var head: nat
    var tail: nat

    ghost predicate Valid()
      reads this
    {
      head < buffer.Length && tail < buffer.Length
    }

    function State(): Ring
      reads this, buffer
      requires Valid()
    {
      RawRing(buffer[..], head, tail)
    }

    /** A queue as the device model creates it: zeroed storage, pointers at the base. */
    constructor (n: nat)
      requires n > 0
      ensures Valid() && fresh(buffer) && buffer.Length == n
      ensures State() == EmptyRing(n)
    {
      buffer := new u64[n](_ => 0);
      head, tail := 0, 0;
      new;
      assert buffer[..] == EmptyRing(n).buffer;
    }

    method ResetQueuePointers()
      requires Valid()
      modifies this
      ensures Valid() && State() == ResetRing(old(State()))
    {
      head, tail := 0, 0;
    }

    method PopHead() returns (ret: u64)
      requires Valid()
      modifies this, buffer
      ensures Valid() && ret == PopValue(old(State())) && State() == PopRing(old(State()))
      ensures Sound(old(State())) ==>
        Sound(State()) && TookOldest(old(Contents(State())), ret, Contents(State()))
    {
      ghost var before := State();
      ret := buffer[head];
      if tail != head || buffer[head] != 0 {
        buffer[head] := 0;
        head := NextElement(buffer.Length, head);
      }
      assert State() == PopRing(before);
      if Sound(before) {
        PopIsFifo(before);
      }
    }

    method InsertTail(toInsert: u64) returns (ret: nat)
      requires Valid()
      modifies this, buffer
      ensures Valid() && ret == tail && State() == InsertRing(old(State()), toInsert)
      ensures toInsert != 0 && Sound(old(State())) ==>
        Sound(State()) && AppendedIfRoom(buffer.Length, old(Contents(State())), toInsert, Contents(State()))
    {
      ghost var before := State();
      ret := tail;
      if head != tail || buffer[tail] == 0 {
        buffer[tail] := toInsert;
        tail := NextElement(buffer.Length, tail);
        ret := tail;
      }
      assert State() == InsertRing(before, toInsert);
      if toInsert != 0 && Sound(before) {
        InsertIsFifo(before, toInsert);
      }
    }
  }
}
