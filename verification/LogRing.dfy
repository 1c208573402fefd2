/**
 The log buffer (src/log/rack_logger_ringbuffer.cpp): producers push into one ring, the single consumer
 pops from another, and the two are swapped when the consumer runs dry.  One index per ring serves as the
 write position of the first and as the read position of the second.
 */
module LogRing {
  import opened Arith
  import opened Common

  datatype Item<T> = Item(isWriting: bool, entry: T)

  /** The ring holds `c` from position `start` on, wrapping round. */
  ghost predicate Holds<T>(buffer: seq<Item<T>>, start: nat, c: seq<T>) {
    && |c| <= |buffer|
    && forall i {:trigger Slot(start, i, |buffer|)} | 0 <= i < |c| :: buffer[Slot(start, i, |buffer|)] == Item(true, c[i])
  }

  function Slot(start: nat, i: nat, size: nat): (r: nat)
    ensures size > 0 ==> r < size
  {
    if size > 0 then Rem(start + i, size) else 0
  }

  /** Appending to a full ring drops the oldest entry. */
  function DropOldest<T>(c: seq<T>, x: T, size: nat): (r: seq<T>)
    requires size > 0
    ensures |c| <= size ==> |r| <= size
  {
    if |c| < size then c + [x] else c[1..] + [x]
  }

  /** A 32-bit wrap does not move the slot when the size divides 2^32. */
  lemma {:induction false} WrapSlot(x: nat, size: nat)
    requires size > 0 && Rem(U32, size) == 0
    ensures Rem(x % U32, size) == Rem(x, size)
  {
    RemIs(U32, size);
    var q, k := x / U32, U32 / size;
    MultipleIs(U32, size);
    assert x == (q * k) * size + x % U32;
    DivAddMul(q * k, x % U32, size);
    RemIs(x, size);
    RemIs(x % U32, size);
  }

  lemma {:induction false} SlotShift(a: nat, b: nat, i: nat, size: nat)
    requires size > 0 && Rem(a, size) == Rem(b, size)
    ensures Slot(a, i, size) == Slot(b, i, size)
  {
    SlotFrom(a, i, size);
    SlotFrom(b, i, size);
  }

  lemma {:induction false} SlotFrom(a: nat, i: nat, size: nat)
    requires size > 0
    ensures Slot(a, i, size) == Rem(Rem(a, size) + i, size)
  {
    RemIs(a, size);
    RemIs(a + i, size);
    RemIs(a % size + i, size);
    DivBounds(a, size);
    DivAddMul(a / size, a % size + i, size);
  }

  /** Only the start's remainder matters. */
  lemma {:induction false} HoldsShift<T>(buffer: seq<Item<T>>, a: nat, b: nat, c: seq<T>)
    requires |buffer| > 0 && Rem(a, |buffer|) == Rem(b, |buffer|) && Holds(buffer, a, c)
    ensures Holds(buffer, b, c)
  {
    forall i | 0 <= i < |c|
      ensures buffer[Slot(b, i, |buffer|)] == Item(true, c[i])
    {
      SlotShift(a, b, i, |buffer|);
    }
  }

  /** Writing the slot just after the contents appends, and drops the oldest entry of a full ring. */
  lemma {:induction false} HoldsPush<T>(buffer: seq<Item<T>>, start: nat, c: seq<T>, x: T, at: nat, to: nat)
    requires |buffer| > 0 && Holds(buffer, start, c) && at == Slot(start, |c|, |buffer|)
    requires to == start + |c| + 1 - |DropOldest(c, x, |buffer|)|
    ensures Holds(buffer[at := Item(true, x)], to, DropOldest(c, x, |buffer|))
  {
    var size, r := |buffer|, DropOldest(c, x, |buffer|);
    forall i | 0 <= i < |r|
      ensures buffer[at := Item(true, x)][Slot(to, i, size)] == Item(true, r[i])
    {
      var k := to - start + i;
      assert Slot(to, i, size) == Slot(start, k, size);
      if k < |c| {
        SlotsApart(start, k, |c|, size);
        assert r[i] == c[k];
      }
    }
  }

  lemma {:induction false} SlotsApart(start: nat, j: nat, k: nat, size: nat)
    requires j < k < j + size
    ensures Slot(start, j, size) != Slot(start, k, size)
  {
    RemDistinct(start + j, start + k, size);
  }

  /** Marking the first slot as read leaves the rest. */
  lemma {:induction false} HoldsPop<T>(buffer: seq<Item<T>>, start: nat, c: seq<T>, it: Item<T>)
    requires |buffer| > 0 && Holds(buffer, start, c) && c != []
    ensures Holds(buffer[Slot(start, 0, |buffer|) := it], start + 1, c[1..])
  {
    var size := |buffer|;
    var after := buffer[Slot(start, 0, size) := it];
    forall i | 0 <= i < |c| - 1
      ensures after[Slot(start + 1, i, size)] == Item(true, c[1..][i])
    {
      assert Slot(start + 1, i, size) == Slot(start, i + 1, size);
      SlotsApart(start, 0, i + 1, size);
      assert buffer[Slot(start, i + 1, size)] == Item(true, c[i + 1]);
    }
  }

  /** Field values of a ring, all of 32 bits. */
  ghost predicate Sized<T>(buffer: seq<Item<T>>, w: nat, count: nat) {
    0 < |buffer| < U32 && w < U32 && count <= |buffer|
  }

  /** The size divides 2^32, so that the index can wrap at any time. */
  predicate Divides(size: nat) {
    size > 0 && Rem(U32, size) == 0
  }

  /** The index takes one step without its slot skipping any. */
  predicate NoSkip(w: nat, size: nat) {
    Divides(size) || w + 1 < U32
  }

  /** After a push the ring looks for the newest of `n` entries where it was written exactly when no slot is skipped. */
  lemma {:induction false} NewestFoundIff(w: nat, size: nat, n: nat)
    requires w < U32 && 0 < n <= size
    ensures Slot((w + 1) % U32 + size - n, n - 1, size) == Rem(w, size) <==> NoSkip(w, size)
  {
    if w + 1 < U32 {
      assert (w + 1) % U32 + size - n + (n - 1) == w + size;
    } else {
      assert (w + 1) % U32 == 0;
      assert Slot(0 + size - n, n - 1, size) == size - 1;
      if size > 1 {
        RemAdd(w, 1, size);
      }
    }
  }

  /** As the write ring: the index is one past the newest entry. */
  ghost predicate WriteRing<T>(buffer: seq<Item<T>>, w: nat, count: nat, c: seq<T>) {
    Sized(buffer, w, count) && count == |c| && Holds(buffer, w + |buffer| - count, c)
  }

  /** As the read ring: the index is at the oldest entry. */
  ghost predicate ReadRing<T>(buffer: seq<Item<T>>, w: nat, count: nat, c: seq<T>) {
    Sized(buffer, w, count) && count == |c| && Holds(buffer, w, c)
  }

  lemma {:induction false} PushKeeps<T>(buffer: seq<Item<T>>, w: nat, count: nat, c: seq<T>, x: T)
    requires WriteRing(buffer, w, count, c) && NoSkip(w, |buffer|)
    ensures WriteRing(buffer[Rem(w, |buffer|) := Item(true, x)], (w + 1) % U32,
                      if count < |buffer| then count + 1 else count, DropOldest(c, x, |buffer|))
  {
    var n := if count < |buffer| then count + 1 else count;
    PushHolds(buffer, w, c, x, n);
  }

  lemma {:induction false} PushHolds<T>(buffer: seq<Item<T>>, w: nat, c: seq<T>, x: T, n: nat)
    requires |buffer| > 0 && NoSkip(w, |buffer|) && |c| <= |buffer| && Holds(buffer, w + |buffer| - |c|, c)
    requires n == |DropOldest(c, x, |buffer|)|
    ensures Holds(buffer[Rem(w, |buffer|) := Item(true, x)], (w + 1) % U32 + |buffer| - n, DropOldest(c, x, |buffer|))
  {
    var size := |buffer|;
    var at, to := Rem(w, size), w + 1 + (size - n);
    PushSlots(w, size, |c|, n);
    HoldsPush(buffer, w + size - |c|, c, x, at, to);
    HoldsShift(buffer[at := Item(true, x)], to, (w + 1) % U32 + size - n, DropOldest(c, x, size));
  }

  lemma {:induction false} PushSlots(w: nat, size: nat, count: nat, n: nat)
    requires 0 < size && NoSkip(w, size) && count <= size && n <= size
    ensures Rem(w, size) == Slot(w + size - count, count, size)
    ensures Rem(w + 1 + (size - n), size) == Rem((w + 1) % U32 + size - n, size)
  {
    if w + 1 >= U32 {
      WrapSlot(w + 1, size);
      SlotShift((w + 1) % U32, w + 1, size - n, size);
    }
  }

  lemma {:induction false} PopKeeps<T>(buffer: seq<Item<T>>, w: nat, count: nat, c: seq<T>, it: Item<T>)
    requires ReadRing(buffer, w, count, c) && count > 0
    ensures buffer[Rem(w, |buffer|)] == Item(true, c[0])
    ensures NoSkip(w, |buffer|) ==> ReadRing(buffer[Rem(w, |buffer|) := it], (w + 1) % U32, count - 1, c[1..])
  {
    var size := |buffer|;
    assert Rem(w, size) == Slot(w, 0, size);
    if NoSkip(w, size) {
      HoldsPop(buffer, w, c, it);
      if w + 1 >= U32 {
        WrapSlot(w + 1, size);
      }
      HoldsShift(buffer[Rem(w, size) := it], w + 1, (w + 1) % U32, c[1..]);
    }
  }

  /** The fields of a ring as a value; its size is the length of the buffer. */
  datatype Ring<T> = Ring(w: nat, count: nat, buffer: seq<Item<T>>)

  ghost predicate WritesRing<T>(r: Ring<T>, c: seq<T>) {
    WriteRing(r.buffer, r.w, r.count, c)
  }

  ghost predicate ReadsRing<T>(r: Ring<T>, c: seq<T>) {
    ReadRing(r.buffer, r.w, r.count, c)
  }

  /** One push that nothing interrupts. */
  function AtomicPush<T>(r: Ring<T>, x: T): Ring<T>
    requires |r.buffer| > 0
  {
    Ring((r.w + 1) % U32, if r.count < |r.buffer| then r.count + 1 else r.count,
         r.buffer[Rem(r.w, |r.buffer|) := Item(true, x)])
  }

  /** One pop: the slot at the index, if it has been written. */
  function PopRing<T>(r: Ring<T>): (Ring<T>, Option<T>)
    requires |r.buffer| > 0
  {
    var k := Rem(r.w, |r.buffer|);
    if r.count == 0 || !r.buffer[k].isWriting then (r, None)
    else
      (Ring((r.w + 1) % U32, r.count - 1, r.buffer[k := r.buffer[k].(isWriting := false)]), Some(r.buffer[k].entry))
  }

  /** The index stepped back over the entries, in 32-bit arithmetic. */
  function RewindRing<T>(r: Ring<T>): Ring<T>
    requires 0 < |r.buffer| && r.count <= U32
  {
    r.(w := Rewound(r.w, |r.buffer|, r.count))
  }

  function Rewound(w: nat, size: nat, count: nat): nat
    requires 0 < size && count <= U32
  {
    Rem(((w + size) % U32 + U32 - count) % U32, size)
  }

  /** The steps of a rewind wrap without harm. */
  predicate RewindFits(w: nat, size: nat) {
    Divides(size) || w + size < U32
  }

  lemma {:induction false} RewoundIs(w: nat, size: nat, count: nat)
    requires 0 < size < U32 && count <= size && w < U32 && RewindFits(w, size)
    ensures Rewound(w, size, count) == Rem(w + size - count, size)
  {
    if w + size >= U32 {
      WholeTurn(w, size, count);
    }
  }

  /** A rewound write ring is a read ring; a rewound empty ring is an empty write ring. */
  lemma {:induction false} RewindKeeps<T>(r: Ring<T>, c: seq<T>)
    requires Sized(r.buffer, r.w, r.count)
    ensures var q := RewindRing(r);
      && Sized(q.buffer, q.w, q.count)
      && (WritesRing(r, c) && RewindFits(r.w, |r.buffer|) ==> ReadsRing(q, c))
      && (r.count == 0 ==> WritesRing(q, []))
  {
    var size, start := |r.buffer|, r.w + |r.buffer| - r.count;
    if WritesRing(r, c) && RewindFits(r.w, size) {
      RewoundIs(r.w, size, r.count);
      HoldsShift(r.buffer, start, Rem(start, size), c);
    }
  }

  class RingBuffer<T> {
    var size: nat
    var wIndex: nat
    var count: nat
    var buffer: seq<Item<T>>

    function Value(): Ring<T>
      reads this
    {
      Ring(wIndex, count, buffer)
    }

    ghost predicate Writing(c: seq<T>)
      reads this
    {
      size == |buffer| && WritesRing(Value(), c)
    }

    ghost predicate Reading(c: seq<T>)
      reads this
    {
      size == |buffer| && ReadsRing(Value(), c)
    }

    constructor (sz: nat, blank: T)
      requires 0 < sz < U32
      ensures Writing([]) && Reading([]) && size == sz
    {
      size, wIndex, count := sz, 0, 0;
      buffer := seq(sz, _ => Item(false, blank));
    }

    method Push(x: T, ghost c: seq<T>)
      requires Writing(c)
      modifies this
      ensures size == old(size) && (NoSkip(old(wIndex), size) ==> Writing(DropOldest(c, x, size)))
      ensures Value() == AtomicPush(old(Value()), x)
    {
      if NoSkip(wIndex, size) {
        PushKeeps(buffer, wIndex, count, c, x);
      }
      RemIs(wIndex, size);
      var writeIndex := wIndex % size;
      wIndex := (wIndex + 1) % U32;
      buffer := buffer[writeIndex := Item(true, x)];
      if count >= size {
        return;
      }
      count := count + 1;
    }

    /**
     Any ring: an empty one, or one whose next slot is not filled, refuses and stays as it is.  A read ring
     that is not empty never refuses and gives its oldest entry.
     */
    method Pop(ghost c: seq<T>) returns (r: Option<T>)
      requires 0 < size == |buffer|
      modifies this
      ensures size == old(size)
      ensures r.None? <==> old(count) == 0 || !old(buffer)[old(wIndex) % size].isWriting
      ensures r.None? ==> Value() == old(Value())
      ensures old(Reading(c)) ==> r == if c == [] then None else Some(c[0])
      ensures old(Reading(c)) && NoSkip(old(wIndex), size) ==> Reading(if c == [] then [] else c[1..])
      ensures (Value(), r) == PopRing(old(Value()))
    {
      RemIs(wIndex, size);
      if count == 0 {
        return None;
      }
      var k := wIndex % size;
      if Reading(c) {
        PopKeeps(buffer, wIndex, count, c, buffer[k].(isWriting := false));
      }
      var item := buffer[k];
      if item.isWriting {
        buffer := buffer[k := item.(isWriting := false)];
        wIndex := (wIndex + 1) % U32;
        count := count - 1;
        return Some(item.entry);
      }
      return None;
    }

    /** Turns a write ring into a read ring, and an empty ring into an empty write ring. */
    method ResetIndex(ghost c: seq<T>)
      requires Writing(c) || Reading(c)
      modifies this
      ensures size == old(size) && count == old(count) && buffer == old(buffer)
      ensures old(Writing(c)) && RewindFits(old(wIndex), size) ==> Reading(c)
      ensures c == [] ==> Writing([])
      ensures Value() == RewindRing(old(Value()))
    {
      RewindKeeps(Value(), c);
      wIndex := RewindIndex(wIndex, size, count);
    }
  }

  /** The index steps back over the entries. */
  method RewindIndex(w: nat, size: nat, count: nat) returns (r: nat)
    requires 0 < size < U32 && count <= size && w < U32
    ensures r == Rewound(w, size, count) && r < size
  {
    r := (w + size) % U32;
    r := (r + U32 - count) % U32;
    RemIs(r, size);
    r := r % size;
  }

  lemma {:induction false} WholeTurn(w: nat, size: nat, count: nat)
    requires 0 < size < U32 && Divides(size) && count <= size && w < U32 <= w + size
    ensures Rewound(w, size, count) == Rem(w + size - count, size)
  {
    var a, b := (w + size) % U32, w + size - count;
    assert a == w + size - U32 && a + U32 - count == b;
    WrapSlot(b, size);
  }

  /** RingBuffer::Swap. */
  method SwapRings<T>(a: RingBuffer<T>, b: RingBuffer<T>)
    requires a != b
    modifies a, b
    ensures a.size == old(b.size) && a.wIndex == old(b.wIndex) && a.count == old(b.count) && a.buffer == old(b.buffer)
    ensures b.size == old(a.size) && b.wIndex == old(a.wIndex) && b.count == old(a.count) && b.buffer == old(a.buffer)
  {
    a.size, b.size := b.size, a.size;
    a.count, b.count := b.count, a.count;
    a.buffer, b.buffer := b.buffer, a.buffer;
    a.wIndex, b.wIndex := b.wIndex, a.wIndex;
  }
}
