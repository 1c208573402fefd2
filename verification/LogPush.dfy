/**
 Pushes run under a shared lock, so producers interleave: each takes an index, writes its slot and then
 raises the count.  The model takes these three steps of every producer in any order.
 */
module LogPush {
  import opened Arith
  import opened Common
  import opened LogRing

  /** A push under way: its slot and its place in the order of indices, before and after the write. */
  datatype Producer<T> = Reserved(slot: nat, ticket: nat, x: T) | Written

  /**
   `order` lists the entries in the order in which their producers took an index; `writer` gives for
   every slot written so far the ticket of its last write.
   */
  datatype State<T> = State(ring: Ring<T>, producers: map<nat, Producer<T>>, order: seq<T>, writer: map<nat, nat>)

  datatype Step<T> = Reserve(id: nat, x: T) | Write(id: nat) | Count(id: nat)

  /** No push under way. */
  function Start<T>(r0: Ring<T>): State<T> {
    State(r0, map[], [], map[])
  }

  predicate Can<T>(s: State<T>, step: Step<T>) {
    match step
    case Reserve(id, _) => id !in s.producers
    case Write(id) => id in s.producers && s.producers[id].Reserved? && s.producers[id].slot < |s.ring.buffer|
    case Count(id) => id in s.producers && s.producers[id].Written?
  }

  function After<T>(s: State<T>, step: Step<T>): State<T>
    requires |s.ring.buffer| > 0 && Can(s, step)
  {
    var r := s.ring;
    match step
    case Reserve(id, x) =>
      State(r.(w := (r.w + 1) % U32), s.producers[id := Reserved(Rem(r.w, |r.buffer|), |s.order|, x)], s.order + [x],
            s.writer)
    case Write(id) =>
      var p := s.producers[id];
      State(r.(buffer := r.buffer[p.slot := Item(true, p.x)]), s.producers[id := Written], s.order,
            s.writer[p.slot := p.ticket])
    case Count(id) =>
      s.(ring := r.(count := if r.count < |r.buffer| then r.count + 1 else r.count), producers := s.producers - {id})
  }

  /** No producer is overtaken by as many others as the ring has slots before it writes. */
  predicate InTime<T>(s: State<T>, step: Step<T>) {
    step.Write? && Can(s, step) ==> s.producers[step.id].ticket + |s.ring.buffer| >= |s.order|
  }

  /** The state after a run from ring `r0` with no push under way; a timed run admits steps in time only. */
  function Play<T>(r0: Ring<T>, steps: seq<Step<T>>, timed: bool): Option<State<T>>
    decreases |steps|
  {
    if |steps| == 0 then Some(Start(r0))
    else
      var n := |steps| - 1;
      var p := Play(r0, steps[..n], timed);
      if p.Some? && |p.value.ring.buffer| > 0 && Can(p.value, steps[n]) && (timed ==> InTime(p.value, steps[n]))
      then Some(After(p.value, steps[n]))
      else None
  }

  /** The same pushes one after the other. */
  function Fold<T>(r0: Ring<T>, order: seq<T>): (r: Ring<T>)
    requires |r0.buffer| > 0
    ensures |r.buffer| == |r0.buffer|
  {
    if |order| == 0 then r0 else AtomicPush(Fold(r0, order[..|order| - 1]), order[|order| - 1])
  }

  ghost predicate Fits<T>(r: Ring<T>) {
    Sized(r.buffer, r.w, r.count) && Divides(|r.buffer|)
  }

  lemma FoldSnoc<T>(r0: Ring<T>, order: seq<T>, x: T)
    requires |r0.buffer| > 0
    ensures Fold(r0, order + [x]) == AtomicPush(Fold(r0, order), x)
  {
    assert (order + [x])[..|order|] == order;
  }

  lemma NextIndex(a: nat)
    ensures (a % U32 + 1) % U32 == (a + 1) % U32
  {
  }

  lemma {:induction false} FoldIndex<T>(r0: Ring<T>, order: seq<T>)
    requires Fits(r0)
    ensures Fold(r0, order).w == (r0.w + |order|) % U32
    decreases |order|
  {
    if |order| > 0 {
      var n := |order| - 1;
      FoldIndex(r0, order[..n]);
      assert Fold(r0, order).w == (Fold(r0, order[..n]).w + 1) % U32;
      NextIndex(r0.w + n);
    }
  }

  // ---------------------------------------------------------------- the newest ticket of a slot

  /** Slot of ticket `t`, counted from index `w0`. */
  function SlotOf(w0: nat, t: nat, size: nat): nat
    requires size > 0
  {
    Rem(w0 + t, size)
  }

  /** The newest of the first `n` tickets that has slot `k`. */
  function Newest(w0: nat, n: nat, k: nat, size: nat): (r: Option<nat>)
    requires size > 0
    ensures r.Some? ==> r.value < n && SlotOf(w0, r.value, size) == k
    ensures forall u | 0 <= u < n && SlotOf(w0, u, size) == k :: r.Some? && u <= r.value
  {
    if n == 0 then None
    else if SlotOf(w0, n - 1, size) == k then Some(n - 1)
    else Newest(w0, n - 1, k, size)
  }

  /** Tickets of one slot are a whole ring apart. */
  lemma {:induction false} SameSlot(w0: nat, t: nat, u: nat, size: nat)
    requires size > 0 && SlotOf(w0, t, size) == SlotOf(w0, u, size) && t < u
    ensures t + size <= u
  {
    if u < t + size {
      RemDistinct(w0 + t, w0 + u, size);
    }
  }

  /** After sequential pushes a slot holds the entry of its newest ticket. */
  lemma {:induction false} FoldAt<T>(r0: Ring<T>, order: seq<T>, k: nat)
    requires Fits(r0) && k < |r0.buffer|
    ensures var t := Newest(r0.w, |order|, k, |r0.buffer|);
      Fold(r0, order).buffer[k] == if t.Some? then Item(true, order[t.value]) else r0.buffer[k]
    decreases |order|
  {
    if |order| > 0 {
      var n, size := |order| - 1, |r0.buffer|;
      FoldAt(r0, order[..n], k);
      FoldBuffer(r0, order);
    }
  }

  lemma {:induction false} FoldBuffer<T>(r0: Ring<T>, order: seq<T>)
    requires Fits(r0) && |order| > 0
    ensures var n := |order| - 1;
      Fold(r0, order).buffer == Fold(r0, order[..n]).buffer[SlotOf(r0.w, n, |r0.buffer|) := Item(true, order[n])]
  {
    var n := |order| - 1;
    FoldIndex(r0, order[..n]);
    WrapSlot(r0.w + n, |r0.buffer|);
  }

  // ---------------------------------------------------------------- what every run keeps

  /** A producer that has not written knows its slot and its entry. */
  ghost predicate Knows<T>(r0: Ring<T>, order: seq<T>, p: Producer<T>)
    requires |r0.buffer| > 0
  {
    p.Reserved? ==> p.ticket < |order| && order[p.ticket] == p.x && p.slot == SlotOf(r0.w, p.ticket, |r0.buffer|)
  }

  ghost predicate AllKnow<T>(r0: Ring<T>, s: State<T>)
    requires |r0.buffer| > 0
  {
    forall id | id in s.producers :: Knows(r0, s.order, s.producers[id])
  }

  /** Counting the pushes under way gives the sequential count. */
  ghost predicate CountDue<T>(r0: Ring<T>, s: State<T>)
    requires |r0.buffer| > 0
  {
    var due := s.ring.count + |s.producers|;
    s.ring.count <= |r0.buffer| && Fold(r0, s.order).count == if due < |r0.buffer| then due else |r0.buffer|
  }

  /** A slot holds the entry of its last write, or what it held at the start. */
  ghost predicate HasLast<T>(r0: Ring<T>, s: State<T>, k: nat)
    requires k < |r0.buffer| == |s.ring.buffer|
  {
    if k in s.writer then
      && s.writer[k] < |s.order| && SlotOf(r0.w, s.writer[k], |r0.buffer|) == k
      && s.ring.buffer[k] == Item(true, s.order[s.writer[k]])
    else s.ring.buffer[k] == r0.buffer[k]
  }

  /** The producer of ticket `t` has not written yet. */
  ghost predicate Outstanding<T>(s: State<T>, t: nat) {
    exists id :: id in s.producers && s.producers[id].Reserved? && s.producers[id].ticket == t
  }

  /** Every ticket is outstanding, or its slot has been written. */
  ghost predicate Accounted<T>(r0: Ring<T>, s: State<T>)
    requires |r0.buffer| > 0
  {
    forall t: nat | t < |s.order| :: Outstanding(s, t) || SlotOf(r0.w, t, |r0.buffer|) in s.writer
  }

  ghost predicate Inv<T>(r0: Ring<T>, s: State<T>)
    requires |r0.buffer| > 0
  {
    && |s.ring.buffer| == |r0.buffer| && s.ring.w == Fold(r0, s.order).w
    && AllKnow(r0, s) && CountDue(r0, s) && Accounted(r0, s)
    && forall k: nat | k < |r0.buffer| :: HasLast(r0, s, k)
  }

  /** In a timed run the newest ticket of a slot is outstanding or was the last to write it. */
  ghost predicate Prompt<T>(r0: Ring<T>, s: State<T>)
    requires |r0.buffer| > 0
  {
    forall k: nat | k < |r0.buffer| && Newest(r0.w, |s.order|, k, |r0.buffer|).Some? ::
      var t := Newest(r0.w, |s.order|, k, |r0.buffer|).value;
      Outstanding(s, t) || (k in s.writer && s.writer[k] == t)
  }

  /** What was outstanding stays so, unless its producer is the one that steps. */
  lemma {:induction false} StillOutstanding<T>(s: State<T>, step: Step<T>, t: nat)
    requires |s.ring.buffer| > 0 && Can(s, step) && Outstanding(s, t)
    ensures Outstanding(After(s, step), t) || (step.Write? && s.producers[step.id].ticket == t)
  {
    var s' := After(s, step);
    var id :| id in s.producers && s.producers[id].Reserved? && s.producers[id].ticket == t;
    if !(step.Write? && step.id == id) {
      assert id in s'.producers && s'.producers[id] == s.producers[id];
    }
  }

  lemma {:induction false} StepKnows<T>(r0: Ring<T>, s: State<T>, step: Step<T>)
    requires Fits(r0) && Inv(r0, s) && Can(s, step)
    ensures AllKnow(r0, After(s, step))
  {
    if step.Reserve? {
      FoldIndex(r0, s.order);
      WrapSlot(r0.w + |s.order|, |r0.buffer|);
    }
  }

  lemma {:induction false} OneMore<T>(m: map<nat, Producer<T>>, id: nat, p: Producer<T>)
    requires id !in m
    ensures |m[id := p]| == |m| + 1
  {
    assert m[id := p].Keys == m.Keys + {id};
    assert |m[id := p].Keys| == |m.Keys| + 1;
  }

  /** One more push, and one more under way. */
  lemma {:induction false} ReserveCounts<T>(r0: Ring<T>, s: State<T>, id: nat, x: T)
    requires |s.ring.buffer| == |r0.buffer| > 0 && id !in s.producers
    requires CountDue(r0, s) && s.ring.w == Fold(r0, s.order).w
    ensures CountDue(r0, After(s, Reserve(id, x)))
    ensures After(s, Reserve(id, x)).ring.w == Fold(r0, s.order + [x]).w
  {
    FoldSnoc(r0, s.order, x);
    OneMore(s.producers, id, Reserved(Rem(s.ring.w, |s.ring.buffer|), |s.order|, x));
  }

  lemma {:induction false} StepCounts<T>(r0: Ring<T>, s: State<T>, step: Step<T>)
    requires Fits(r0) && Inv(r0, s) && Can(s, step)
    ensures CountDue(r0, After(s, step)) && After(s, step).ring.w == Fold(r0, After(s, step).order).w
  {
    var s' := After(s, step);
    match step
    case Reserve(id, x) =>
      ReserveCounts(r0, s, id, x);
    case Write(id) =>
      assert |s'.producers| == |s.producers| by {
        assert s'.producers.Keys == s.producers.Keys;
      }
    case Count(id) =>
      assert |s'.producers| == |s.producers| - 1 by {
        assert s'.producers.Keys == s.producers.Keys - {id};
      }
  }

  lemma {:induction false} StepAccounts<T>(r0: Ring<T>, s: State<T>, step: Step<T>)
    requires Fits(r0) && Inv(r0, s) && Can(s, step)
    ensures Accounted(r0, After(s, step))
  {
    var s' := After(s, step);
    forall t: nat | t < |s'.order|
      ensures Outstanding(s', t) || SlotOf(r0.w, t, |r0.buffer|) in s'.writer
    {
      if t == |s.order| {
        assert s'.producers[step.id].ticket == t;
      } else if Outstanding(s, t) {
        StillOutstanding(s, step, t);
      }
    }
  }

  lemma {:induction false} StepLast<T>(r0: Ring<T>, s: State<T>, step: Step<T>, k: nat)
    requires Fits(r0) && Inv(r0, s) && Can(s, step) && k < |r0.buffer|
    ensures HasLast(r0, After(s, step), k)
  {
    assert HasLast(r0, s, k);
    if step.Write? {
      assert Knows(r0, s.order, s.producers[step.id]);
    }
  }

  lemma {:induction false} StepKeeps<T>(r0: Ring<T>, s: State<T>, step: Step<T>)
    requires Fits(r0) && Inv(r0, s) && Can(s, step)
    ensures Inv(r0, After(s, step))
  {
    StepKnows(r0, s, step);
    StepCounts(r0, s, step);
    StepAccounts(r0, s, step);
    forall k: nat | k < |r0.buffer|
      ensures HasLast(r0, After(s, step), k)
    {
      StepLast(r0, s, step, k);
    }
  }

  lemma {:induction false} StepPrompt<T>(r0: Ring<T>, s: State<T>, step: Step<T>)
    requires Fits(r0) && Inv(r0, s) && Prompt(r0, s) && Can(s, step) && InTime(s, step)
    ensures Prompt(r0, After(s, step))
  {
    var s', size := After(s, step), |r0.buffer|;
    forall k: nat | k < size && Newest(r0.w, |s'.order|, k, size).Some?
      ensures var t := Newest(r0.w, |s'.order|, k, size).value;
        Outstanding(s', t) || (k in s'.writer && s'.writer[k] == t)
    {
      var t := Newest(r0.w, |s'.order|, k, size).value;
      if t == |s.order| {
        assert s'.producers[step.id].ticket == t;
      } else {
        assert Newest(r0.w, |s.order|, k, size) == Some(t);
        PromptAt(r0, s, step, k, t);
      }
    }
  }

  lemma {:induction false} PromptAt<T>(r0: Ring<T>, s: State<T>, step: Step<T>, k: nat, t: nat)
    requires Fits(r0) && Inv(r0, s) && Prompt(r0, s) && Can(s, step) && InTime(s, step)
    requires k < |r0.buffer| && Newest(r0.w, |s.order|, k, |r0.buffer|) == Some(t)
    ensures var s' := After(s, step); Outstanding(s', t) || (k in s'.writer && s'.writer[k] == t)
  {
    if step.Write? {
      var p, size := s.producers[step.id], |r0.buffer|;
      assert Knows(r0, s.order, p);
      if p.slot == k && p.ticket < t {
        SameSlot(r0.w, p.ticket, t, size);
        assert false;
      }
    }
    if Outstanding(s, t) {
      StillOutstanding(s, step, t);
    }
  }

  lemma {:induction false} StartIsGood<T>(r0: Ring<T>)
    requires Fits(r0)
    ensures Inv(r0, Start(r0)) && Prompt(r0, Start(r0))
  {
  }

  lemma {:induction false} PlayKeeps<T>(r0: Ring<T>, steps: seq<Step<T>>, timed: bool)
    requires Fits(r0) && Play(r0, steps, timed).Some?
    ensures Inv(r0, Play(r0, steps, timed).value)
    ensures timed ==> Prompt(r0, Play(r0, steps, timed).value)
    decreases |steps|
  {
    if |steps| == 0 {
      StartIsGood(r0);
    } else {
      var n := |steps| - 1;
      PlayKeeps(r0, steps[..n], timed);
      var p := Play(r0, steps[..n], timed).value;
      StepKeeps(r0, p, steps[n]);
      if timed {
        StepPrompt(r0, p, steps[n]);
      }
    }
  }

  // ---------------------------------------------------------------- when interleaved pushes are sequential pushes

  /** The last write to slot `k` carries the entry of the slot's newest ticket. */
  predicate NewestWins<T(==)>(r0: Ring<T>, s: State<T>, k: nat)
    requires |r0.buffer| > 0
  {
    var t := Newest(r0.w, |s.order|, k, |r0.buffer|);
    t.Some? ==> k in s.writer && s.writer[k] < |s.order| && s.order[s.writer[k]] == s.order[t.value]
  }

  ghost predicate AllNewestWin<T>(r0: Ring<T>, s: State<T>)
    requires |r0.buffer| > 0
  {
    forall k: nat | k < |r0.buffer| :: NewestWins(r0, s, k)
  }

  lemma {:induction false} NoneOutstanding<T>(r0: Ring<T>, s: State<T>, t: nat)
    requires Fits(r0) && Inv(r0, s) && s.producers == map[] && t < |s.order|
    ensures SlotOf(r0.w, t, |r0.buffer|) in s.writer
  {
    assert !Outstanding(s, t);
  }

  lemma {:induction false} SlotIff<T>(r0: Ring<T>, s: State<T>, k: nat)
    requires Fits(r0) && Inv(r0, s) && s.producers == map[] && k < |r0.buffer|
    ensures s.ring.buffer[k] == Fold(r0, s.order).buffer[k] <==> NewestWins(r0, s, k)
  {
    var t := Newest(r0.w, |s.order|, k, |r0.buffer|);
    FoldAt(r0, s.order, k);
    assert HasLast(r0, s, k);
    if t.Some? {
      NoneOutstanding(r0, s, t.value);
    }
  }

  /**
   Whenever no push is under way, the ring is as if the pushes had run one by one, in the order of their
   indices, exactly when every slot was last written with the entry of its newest ticket.
   */
  lemma {:induction false} LinearizesIff<T>(r0: Ring<T>, s: State<T>)
    requires Fits(r0) && Inv(r0, s) && s.producers == map[]
    ensures s.ring == Fold(r0, s.order) <==> AllNewestWin(r0, s)
  {
    forall k: nat | k < |r0.buffer|
      ensures s.ring.buffer[k] == Fold(r0, s.order).buffer[k] <==> NewestWins(r0, s, k)
    {
      SlotIff(r0, s, k);
    }
    assert s.ring.count == Fold(r0, s.order).count && s.ring.w == Fold(r0, s.order).w;
    if AllNewestWin(r0, s) {
      assert s.ring.buffer == Fold(r0, s.order).buffer;
    }
  }

  /** The same for every run, in any interleaving of any number of producers. */
  lemma {:induction false} PushesLinearizeIff<T>(r0: Ring<T>, steps: seq<Step<T>>)
    requires Fits(r0) && Play(r0, steps, false).Some? && Play(r0, steps, false).value.producers == map[]
    ensures var s := Play(r0, steps, false).value; s.ring == Fold(r0, s.order) <==> AllNewestWin(r0, s)
  {
    PlayKeeps(r0, steps, false);
    LinearizesIff(r0, Play(r0, steps, false).value);
  }

  /** In particular when no producer is overtaken by a whole ring before it writes. */
  lemma {:induction false} PushesLinearize<T>(r0: Ring<T>, steps: seq<Step<T>>)
    requires Fits(r0) && Play(r0, steps, true).Some? && Play(r0, steps, true).value.producers == map[]
    ensures var s := Play(r0, steps, true).value; AllNewestWin(r0, s) && s.ring == Fold(r0, s.order)
  {
    PlayKeeps(r0, steps, true);
    var s := Play(r0, steps, true).value;
    forall k: nat | k < |r0.buffer|
      ensures NewestWins(r0, s, k)
    {
      assert HasLast(r0, s, k);
    }
    LinearizesIff(r0, s);
  }

  /** And whenever there were no more pushes than slots, in any interleaving. */
  lemma {:induction false} FewPushesWin<T>(r0: Ring<T>, s: State<T>)
    requires Fits(r0) && Inv(r0, s) && s.producers == map[] && |s.order| <= |r0.buffer|
    ensures AllNewestWin(r0, s)
  {
    forall k: nat | k < |r0.buffer|
      ensures NewestWins(r0, s, k)
    {
      var t := Newest(r0.w, |s.order|, k, |r0.buffer|);
      assert HasLast(r0, s, k);
      if t.Some? {
        NoneOutstanding(r0, s, t.value);
        if s.writer[k] < t.value {
          SameSlot(r0.w, s.writer[k], t.value, |r0.buffer|);
        }
      }
    }
  }

  /** The contents after the pushes `order`, oldest entries dropped. */
  function AllPushed<T>(c: seq<T>, order: seq<T>, size: nat): seq<T>
    requires size > 0
  {
    if |order| == 0 then c else DropOldest(AllPushed(c, order[..|order| - 1], size), order[|order| - 1], size)
  }

  lemma {:induction false} AtomicKeeps<T>(r: Ring<T>, c: seq<T>, x: T)
    requires WritesRing(r, c) && NoSkip(r.w, |r.buffer|)
    ensures WritesRing(AtomicPush(r, x), DropOldest(c, x, |r.buffer|))
  {
    PushKeeps(r.buffer, r.w, r.count, c, x);
  }

  /** And so the consumer, which waits for all of them, finds a drop-oldest queue. */
  lemma {:induction false} FoldHolds<T>(r0: Ring<T>, c: seq<T>, order: seq<T>)
    requires WritesRing(r0, c) && Divides(|r0.buffer|)
    ensures WritesRing(Fold(r0, order), AllPushed(c, order, |r0.buffer|))
    decreases |order|
  {
    if |order| > 0 {
      var n := |order| - 1;
      FoldHolds(r0, c, order[..n]);
      AtomicKeeps(Fold(r0, order[..n]), AllPushed(c, order[..n], |r0.buffer|), order[n]);
    }
  }

  lemma {:induction false} PlayOne<T>(r0: Ring<T>, steps: seq<Step<T>>, n: nat, p: State<T>, q: State<T>)
    requires n < |steps| && Play(r0, steps[..n], false) == Some(p) && |p.ring.buffer| > 0 && Can(p, steps[n])
    requires q == After(p, steps[n])
    ensures Play(r0, steps[..n + 1], false) == Some(q)
  {
    assert steps[..n + 1][..n] == steps[..n];
  }

  const ONE_SLOT: Ring<int> := Ring(0, 0, [Item(false, 0)])

  const OVERTAKING: seq<Step<int>> := [Reserve(1, 10), Reserve(2, 20), Write(2), Write(1), Count(1), Count(2)]

  lemma {:induction false} OvertakingStarts()
    ensures Play(ONE_SLOT, OVERTAKING[..3], false)
      == Some(State(Ring(2, 0, [Item(true, 20)]), map[1 := Reserved(0, 0, 10), 2 := Written], [10, 20], map[0 := 1]))
  {
    var p0 := Start(ONE_SLOT);
    var p1 := State(ONE_SLOT.(w := 1), map[1 := Reserved(0, 0, 10)], [10], map[]);
    var p2 := State(ONE_SLOT.(w := 2), map[1 := Reserved(0, 0, 10), 2 := Reserved(0, 1, 20)], [10, 20], map[]);
    var p3 := State(Ring(2, 0, [Item(true, 20)]), map[1 := Reserved(0, 0, 10), 2 := Written], [10, 20], map[0 := 1]);
    PlayOne(ONE_SLOT, OVERTAKING, 0, p0, p1);
    PlayOne(ONE_SLOT, OVERTAKING, 1, p1, p2);
    PlayOne(ONE_SLOT, OVERTAKING, 2, p2, p3);
  }

  lemma {:induction false} OvertakingWrites()
    ensures Play(ONE_SLOT, OVERTAKING[..4], false)
      == Some(State(Ring(2, 0, [Item(true, 10)]), map[1 := Written, 2 := Written], [10, 20], map[0 := 0]))
  {
    OvertakingStarts();
    var p3 := State(Ring(2, 0, [Item(true, 20)]), map[1 := Reserved(0, 0, 10), 2 := Written], [10, 20], map[0 := 1]);
    var p4 := State(Ring(2, 0, [Item(true, 10)]), map[1 := Written, 2 := Written], [10, 20], map[0 := 0]);
    PlayOne(ONE_SLOT, OVERTAKING, 3, p3, p4);
  }

  lemma {:induction false} OvertakingEnds()
    ensures Play(ONE_SLOT, OVERTAKING, false) == Some(State(Ring(2, 1, [Item(true, 10)]), map[], [10, 20], map[0 := 0]))
  {
    OvertakingWrites();
    var p4 := State(Ring(2, 0, [Item(true, 10)]), map[1 := Written, 2 := Written], [10, 20], map[0 := 0]);
    var p5 := State(Ring(2, 1, [Item(true, 10)]), map[2 := Written], [10, 20], map[0 := 0]);
    var p6 := State(Ring(2, 1, [Item(true, 10)]), map[], [10, 20], map[0 := 0]);
    PlayOne(ONE_SLOT, OVERTAKING, 4, p4, p5);
    PlayOne(ONE_SLOT, OVERTAKING, 5, p5, p6);
    assert OVERTAKING[..6] == OVERTAKING;
  }

  /** An overtaken producer overwrites a newer entry: here the older of two pushes survives in a ring of one slot. */
  lemma {:induction false} OvertakenWriteMisplaces()
    ensures Play(ONE_SLOT, OVERTAKING, false) == Some(State(Ring(2, 1, [Item(true, 10)]), map[], [10, 20], map[0 := 0]))
    ensures Fold(ONE_SLOT, [10, 20]).buffer == [Item(true, 20)]
  {
    OvertakingEnds();
    FoldSnoc(ONE_SLOT, [], 10);
    FoldSnoc(ONE_SLOT, [10], 20);
    assert [10] + [20] == [10, 20] && [] + [10] == [10];
  }
}
