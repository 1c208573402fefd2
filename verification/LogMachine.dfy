/**
 The log with its producers interleaved: every push is three steps under the shared lock, a pop and the
 stop need the lock alone.  Runs of this machine are compared with runs of the log in which a push is one
 step, the pushes taken in the order of their indices.
 */
module LogMachine {
  import opened Arith
  import opened Common
  import opened LogRing
  import opened LogPush
  import Atomic = LogBuffer

  /** `base` is the write ring as the last swap left it, and `push` what producers have done since. */
  datatype Machine<T> = Machine(rd: Ring<T>, base: Ring<T>, push: State<T>, stop: bool, out: seq<T>)

  datatype Act<T> = Produce(step: Step<T>) | Pop | Stop

  predicate Shaped<T>(m: Machine<T>) {
    && 0 < |m.rd.buffer| == |m.push.ring.buffer| < U32
    && m.rd.count <= |m.rd.buffer| && m.push.ring.count <= |m.rd.buffer|
  }

  predicate Enabled<T>(m: Machine<T>, a: Act<T>) {
    match a
    case Produce(step) => Can(m.push, step)
    case Pop => |m.push.producers| == 0
    case Stop => |m.push.producers| == 0
  }

  /** The consumer finds its own ring empty and the other not. */
  predicate Swapping<T>(m: Machine<T>) {
    m.rd.count == 0 && m.push.ring.count > 0
  }

  function Swapped<T>(m: Machine<T>): Machine<T>
    requires Shaped(m)
  {
    if Swapping(m) then
      m.(rd := RewindRing(m.push.ring), base := RewindRing(m.rd), push := Start(RewindRing(m.rd)))
    else m
  }

  function Next<T>(m: Machine<T>, a: Act<T>): Machine<T>
    requires Shaped(m) && Enabled(m, a)
  {
    match a
    case Produce(step) => if step.Reserve? && m.stop then m else m.(push := After(m.push, step))
    case Pop =>
      var s := Swapped(m);
      var (rd, x) := PopRing(s.rd);
      s.(rd := rd, out := if x.Some? then s.out + [x.value] else s.out)
    case Stop => m.(stop := true)
  }

  /** Any schedule is a run: a step that cannot be taken leaves the machine as it is. */
  function Exec<T>(init: Machine<T>, acts: seq<Act<T>>): Machine<T> {
    if |acts| == 0 then init
    else
      var m := Exec(init, acts[..|acts| - 1]);
      if Shaped(m) && Enabled(m, acts[|acts| - 1]) then Next(m, acts[|acts| - 1]) else m
  }

  /** The atomic operation that a step stands for: a push where it takes its index. */
  function OpOf<T>(m: Machine<T>, a: Act<T>): seq<Atomic.Op<T>> {
    if !Enabled(m, a) then []
    else
      match a
      case Produce(step) => if step.Reserve? then [Atomic.Push(step.x)] else []
      case Pop => [Atomic.Pop]
      case Stop => [Atomic.Stop]
  }

  function Ops<T>(init: Machine<T>, acts: seq<Act<T>>): seq<Atomic.Op<T>> {
    if |acts| == 0 then []
    else Ops(init, acts[..|acts| - 1]) + OpOf(Exec(init, acts[..|acts| - 1]), acts[|acts| - 1])
  }

  /** At every swap of the run each slot was last written with the entry of its newest ticket. */
  ghost predicate AllWin<T>(init: Machine<T>, acts: seq<Act<T>>) {
    if |acts| == 0 then true
    else
      var m, a := Exec(init, acts[..|acts| - 1]), acts[|acts| - 1];
      AllWin(init, acts[..|acts| - 1]) && (a.Pop? && Enabled(m, a) && Swapping(m) && |m.base.buffer| > 0 ==>
        AllNewestWin(m.base, m.push))
  }

  // ---------------------------------------------------------------- what the rings hold

  /** The entries of a ring from position `start` on. */
  function Entries<T>(r: Ring<T>, start: nat): (c: seq<T>)
    requires |r.buffer| > 0
    ensures |c| == r.count && forall i | 0 <= i < r.count :: c[i] == r.buffer[Slot(start, i, |r.buffer|)].entry
  {
    seq(r.count, i requires 0 <= i < r.count => r.buffer[Slot(start, i, |r.buffer|)].entry)
  }

  function ReadEntries<T>(r: Ring<T>): seq<T>
    requires |r.buffer| > 0
  {
    Entries(r, r.w)
  }

  function WriteEntries<T>(r: Ring<T>): seq<T>
    requires |r.buffer| > 0 && r.count <= |r.buffer|
  {
    Entries(r, r.w + |r.buffer| - r.count)
  }

  lemma {:induction false} ReadsUnique<T>(r: Ring<T>, c: seq<T>)
    requires ReadsRing(r, c)
    ensures ReadEntries(r) == c
  {
    assert forall i | 0 <= i < |c| :: r.buffer[Slot(r.w, i, |r.buffer|)] == Item(true, c[i]);
  }

  /** Sequential pushes from an empty ring leave the last ones. */
  lemma {:induction false} AllPushedIs<T>(order: seq<T>, size: nat)
    requires size > 0
    ensures AllPushed([], order, size) == if |order| <= size then order else order[|order| - size..]
    decreases |order|
  {
    if |order| > 0 {
      var n := |order| - 1;
      AllPushedIs(order[..n], size);
      assert order == order[..n] + [order[n]];
    }
  }

  /** The slot of the i-th live entry is the slot of its ticket. */
  lemma {:induction false} LiveSlot(w0: nat, n: nat, cnt: nat, i: nat, size: nat)
    requires 0 < size && Rem(U32, size) == 0 && cnt <= size && cnt <= n && i < cnt
    ensures Slot((w0 + n) % U32 + size - cnt, i, size) == SlotOf(w0, n - cnt + i, size)
  {
    WrapSlot(w0 + n, size);
    SlotShift((w0 + n) % U32, w0 + n, size - cnt + i, size);
  }

  /** The last `size` tickets are the newest of their slots. */
  lemma {:induction false} LiveIsNewest(w0: nat, n: nat, t: nat, size: nat)
    requires size > 0 && t < n <= t + size
    ensures Newest(w0, n, SlotOf(w0, t, size), size) == Some(t)
  {
    var u := Newest(w0, n, SlotOf(w0, t, size), size).value;
    if t < u {
      SameSlot(w0, t, u, size);
    }
  }

  /** And a newest ticket is among the last `size`. */
  lemma {:induction false} NewestIsLive(w0: nat, n: nat, k: nat, size: nat)
    requires size > 0 && Newest(w0, n, k, size).Some?
    ensures n <= Newest(w0, n, k, size).value + size
  {
    var t := Newest(w0, n, k, size).value;
    assert SlotOf(w0, t + size, size) == SlotOf(w0, t, size);
  }

  /** A quiet write ring that was empty at the last swap: as many entries as after sequential pushes. */
  lemma {:induction false} QuietCount<T>(r0: Ring<T>, s: State<T>)
    requires Fits(r0) && r0.count == 0 && Inv(r0, s) && s.producers == map[]
    ensures s.ring.count == (if |s.order| <= |r0.buffer| then |s.order| else |r0.buffer|)
    ensures s.ring.count == |AllPushed([], s.order, |r0.buffer|)|
  {
    FoldHolds(r0, [], s.order);
    AllPushedIs(s.order, |r0.buffer|);
  }

  /** Nothing is under way since the ring was empty. */
  ghost predicate Quiet<T>(r0: Ring<T>, s: State<T>) {
    Fits(r0) && r0.count == 0 && Inv(r0, s) && s.producers == map[]
  }

  /** Its i-th entry lies in the slot of ticket `t`, the newest of the slot. */
  lemma {:induction false} QuietSlot<T>(r0: Ring<T>, s: State<T>, i: nat, t: nat)
    requires Quiet(r0, s) && i < s.ring.count && t + s.ring.count == |s.order| + i
    ensures t < |s.order|
    ensures Slot(s.ring.w + |r0.buffer| - s.ring.count, i, |r0.buffer|) == SlotOf(r0.w, t, |r0.buffer|)
    ensures Newest(r0.w, |s.order|, SlotOf(r0.w, t, |r0.buffer|), |r0.buffer|) == Some(t)
  {
    QuietShape(r0, s);
    var w0, n, size := r0.w, |s.order|, |r0.buffer|;
    LivePlace(w0, n, s.ring.count, i, t, size);
  }

  lemma {:induction false} QuietShape<T>(r0: Ring<T>, s: State<T>)
    requires Quiet(r0, s)
    ensures s.ring.w == (r0.w + |s.order|) % U32 && |s.ring.buffer| == |r0.buffer| > 0 && Rem(U32, |r0.buffer|) == 0
    ensures s.ring.count == if |s.order| <= |r0.buffer| then |s.order| else |r0.buffer|
  {
    QuietCount(r0, s);
    FoldIndex(r0, s.order);
  }

  lemma {:induction false} LivePlace(w0: nat, n: nat, cnt: nat, i: nat, t: nat, size: nat)
    requires 0 < size && Rem(U32, size) == 0 && cnt == (if n <= size then n else size) && i < cnt && t + cnt == n + i
    ensures t < n && Slot((w0 + n) % U32 + size - cnt, i, size) == SlotOf(w0, t, size)
    ensures Newest(w0, n, SlotOf(w0, t, size), size) == Some(t)
  {
    LiveSlot(w0, n, cnt, i, size);
    LiveIsNewest(w0, n, t, size);
  }

  /** The slot of a ticket holds the entry of its last write. */
  lemma {:induction false} QuietHeld<T>(r0: Ring<T>, s: State<T>, t: nat, k: nat)
    requires Quiet(r0, s) && t < |s.order| && k == SlotOf(r0.w, t, |r0.buffer|)
    ensures k in s.writer && s.writer[k] < |s.order| && k < |s.ring.buffer|
    ensures s.ring.buffer[k] == Item(true, s.order[s.writer[k]])
  {
    NoneOutstanding(r0, s, t);
    assert HasLast(r0, s, k);
  }

  lemma {:induction false} QuietWrites<T>(r0: Ring<T>, s: State<T>)
    requires Quiet(r0, s)
    ensures s.ring.count <= |s.ring.buffer| && WritesRing(s.ring, WriteEntries(s.ring))
  {
    QuietShape(r0, s);
    forall i | 0 <= i < s.ring.count
      ensures s.ring.buffer[Slot(s.ring.w + |s.ring.buffer| - s.ring.count, i, |s.ring.buffer|)]
           == Item(true, WriteEntries(s.ring)[i])
    {
      QuietItem(r0, s, i, |s.order| - s.ring.count + i);
    }
  }

  lemma {:induction false} QuietItem<T>(r0: Ring<T>, s: State<T>, i: nat, t: nat)
    requires Quiet(r0, s) && i < s.ring.count <= |s.ring.buffer| && t + s.ring.count == |s.order| + i
    ensures s.ring.buffer[Slot(s.ring.w + |s.ring.buffer| - s.ring.count, i, |s.ring.buffer|)]
         == Item(true, WriteEntries(s.ring)[i])
  {
    QuietSlot(r0, s, i, t);
    QuietHeld(r0, s, t, SlotOf(r0.w, t, |r0.buffer|));
  }

  lemma {:induction false} QuietEntry<T>(r0: Ring<T>, s: State<T>, i: nat, t: nat, k: nat)
    requires Quiet(r0, s) && i < s.ring.count && t + s.ring.count == |s.order| + i && k == SlotOf(r0.w, t, |r0.buffer|)
    ensures s.ring.count <= |s.ring.buffer| && k in s.writer && s.writer[k] < |s.order| && t < |s.order|
    ensures Newest(r0.w, |s.order|, k, |r0.buffer|) == Some(t)
    ensures WriteEntries(s.ring)[i] == s.order[s.writer[k]]
  {
    QuietShape(r0, s);
    QuietSlot(r0, s, i, t);
    QuietHeld(r0, s, t, k);
  }

  lemma {:induction false} PushedEntry<T>(order: seq<T>, size: nat, i: nat, t: nat)
    requires size > 0 && i < |AllPushed([], order, size)| && t + |AllPushed([], order, size)| == |order| + i
    ensures t < |order| && AllPushed([], order, size)[i] == order[t]
  {
    AllPushedIs(order, size);
  }

  /** The entries of the i-th live ticket, in the ring and in sequence. */
  lemma {:induction false} QuietSameAt<T>(r0: Ring<T>, s: State<T>, i: nat, t: nat, d: seq<T>)
    requires Quiet(r0, s) && i < s.ring.count && t + s.ring.count == |s.order| + i
    requires d == AllPushed([], s.order, |r0.buffer|) && |d| == s.ring.count <= |s.ring.buffer|
    ensures WriteEntries(s.ring)[i] == d[i] <==> NewestWins(r0, s, SlotOf(r0.w, t, |r0.buffer|))
  {
    PushedEntry(s.order, |r0.buffer|, i, t);
    QuietEntry(r0, s, i, t, SlotOf(r0.w, t, |r0.buffer|));
  }

  /** The quiet write ring holds what sequential pushes leave exactly when the newest ticket won in every slot. */
  lemma {:induction false} QuietSameIff<T>(r0: Ring<T>, s: State<T>)
    requires Quiet(r0, s)
    ensures s.ring.count <= |s.ring.buffer|
    ensures WriteEntries(s.ring) == AllPushed([], s.order, |r0.buffer|) <==> AllNewestWin(r0, s)
  {
    var size, cnt, n := |r0.buffer|, s.ring.count, |s.order|;
    var c, d := WriteEntries(s.ring), AllPushed([], s.order, |r0.buffer|);
    QuietCount(r0, s);
    if c == d {
      forall k: nat | k < size
        ensures NewestWins(r0, s, k)
      {
        if Newest(r0.w, n, k, size).Some? {
          NewestIsLive(r0.w, n, k, size);
          var t := Newest(r0.w, n, k, size).value;
          QuietSameAt(r0, s, t - (n - cnt), t, d);
        }
      }
    }
    if AllNewestWin(r0, s) {
      forall i | 0 <= i < cnt
        ensures c[i] == d[i]
      {
        QuietSameAt(r0, s, i, n - cnt + i, d);
      }
    }
  }

  // ---------------------------------------------------------------- refinement

  /** The machine in a run: both rings in order, and what producers did accounted for. */
  ghost predicate Sound<T>(m: Machine<T>, size: nat) {
    && |m.rd.buffer| == |m.base.buffer| == size > 0
    && Fits(m.base) && m.base.count == 0 && Inv(m.base, m.push)
    && Fits(m.rd) && ReadsRing(m.rd, ReadEntries(m.rd))
    && (m.stop ==> m.push.producers == map[])
  }

  /** The machine and the atomic log are at the same point. */
  ghost predicate InStep<T>(m: Machine<T>, t: Atomic.Trace<T>, size: nat) {
    && Sound(m, size) && m.stop == t.log.stop
    && t.log.write == AllPushed([], m.push.order, size) && t.since == |m.push.order|
    && |t.log.read| == m.rd.count && |t.out| == |m.out|
  }

  /** The consumer has been given, or is about to be given, the same entries. */
  ghost predicate SameSoFar<T>(m: Machine<T>, t: Atomic.Trace<T>)
    requires |m.rd.buffer| > 0
  {
    m.out + ReadEntries(m.rd) == t.out + t.log.read
  }

  lemma {:induction false} ProduceInStep<T>(m: Machine<T>, t: Atomic.Trace<T>, step: Step<T>, size: nat)
    requires InStep(m, t, size) && Can(m.push, step)
    ensures Shaped(m)
    ensures var m' := Next(m, Produce(step));
      var t' := if step.Reserve? then Atomic.Step(t, Atomic.Push(step.x), size) else t;
      InStep(m', t', size) && (SameSoFar(m', t') <==> SameSoFar(m, t))
  {
    StepKeeps(m.base, m.push, step);
    if step.Reserve? {
      assert (m.push.order + [step.x])[..|m.push.order|] == m.push.order;
    }
  }

  /** A pop from a read ring with entries. */
  lemma {:induction false} TakeOne<T>(r: Ring<T>)
    requires Fits(r) && ReadsRing(r, ReadEntries(r)) && r.count > 0
    ensures var (q, x) := PopRing(r);
      && |q.buffer| == |r.buffer| && Fits(q) && ReadsRing(q, ReadEntries(q)) && q.count == r.count - 1
      && x == Some(ReadEntries(r)[0]) && ReadEntries(q) == ReadEntries(r)[1..]
  {
    var c, k := ReadEntries(r), Rem(r.w, |r.buffer|);
    PopKeeps(r.buffer, r.w, r.count, c, r.buffer[k].(isWriting := false));
    var (q, x) := PopRing(r);
    ReadsUnique(q, c[1..]);
  }

  /** After the swap the read ring has the entries of the write ring, which starts anew. */
  lemma {:induction false} SwapSound<T>(m: Machine<T>, size: nat)
    requires Sound(m, size) && m.push.producers == map[]
    ensures Shaped(m) && Sound(Swapped(m), size)
    ensures Swapping(m) ==>
      && ReadEntries(Swapped(m).rd) == WriteEntries(m.push.ring) && Swapped(m).rd.count == m.push.ring.count
      && Swapped(m).push.order == [] && Swapped(m).push.ring.count == 0
  {
    if Swapping(m) {
      var c := WriteEntries(m.push.ring);
      QuietWrites(m.base, m.push);
      RewindKeeps(m.push.ring, c);
      ReadsUnique(RewindRing(m.push.ring), c);
      RewindKeeps(m.rd, []);
      StartIsGood(RewindRing(m.rd));
    }
  }

  lemma {:induction false} ConcatSplit<T>(a: seq<T>, b: seq<T>, c: seq<T>, d: seq<T>)
    requires |a| == |b|
    ensures a + c == b + d <==> a == b && c == d
  {
    if a + c == b + d {
      assert a == (a + c)[..|a|] && b == (b + d)[..|b|];
      assert c == (a + c)[|a|..] && d == (b + d)[|b|..];
    }
  }

  lemma {:induction false} HeadTail<T>(a: seq<T>, c: seq<T>)
    requires |c| > 0
    ensures a + [c[0]] + c[1..] == a + c
  {
    assert c == [c[0]] + c[1..];
  }

  /** A pop after the swap, if there was one: the machine gives out the head of its read ring. */
  lemma {:induction false} PopTakes<T>(m: Machine<T>, size: nat)
    requires Sound(m, size) && m.push.producers == map[]
    ensures Shaped(m)
    ensures var s, m' := Swapped(m), Next(m, Pop);
      && Sound(m', size) && m'.push == s.push && m'.base == s.base && m'.stop == m.stop
      && (s.rd.count == 0 ==> m' == s)
      && (s.rd.count > 0 ==>
           && m'.rd.count == s.rd.count - 1 && |m'.out| == |m.out| + 1
           && m'.out == m.out + [ReadEntries(s.rd)[0]] && ReadEntries(m'.rd) == ReadEntries(s.rd)[1..]
           && m'.out + ReadEntries(m'.rd) == m.out + ReadEntries(s.rd))
  {
    SwapSound(m, size);
    var s := Swapped(m);
    if s.rd.count > 0 {
      TakeOne(s.rd);
      HeadTail(m.out, ReadEntries(s.rd));
    }
  }

  /** What a pop of the atomic log does, by the lengths of its two parts. */
  lemma {:induction false} AtomicPop<T>(t: Atomic.Trace<T>, size: nat)
    requires size > 0
    ensures var t', from := Atomic.Step(t, Atomic.Pop, size), if |t.log.read| == 0 then t.log.write else t.log.read;
      && (|from| == 0 ==> t' == t)
      && (|from| > 0 ==>
           && t'.log.read == from[1..] && t'.out + t'.log.read == t.out + from && |t'.out| == |t.out| + 1
           && t'.log.stop == t.log.stop
           && t'.log.write == (if |t.log.read| == 0 then [] else t.log.write)
           && t'.since == (if |t.log.read| == 0 then 0 else t.since))
  {
    var from := if |t.log.read| == 0 then t.log.write else t.log.read;
    if |from| > 0 {
      assert Atomic.Contents(t.log)[0] == from[0];
      HeadTail(t.out, from);
    }
  }

  /** The same pop on both sides. */
  lemma {:induction false} PopInStep<T>(m: Machine<T>, t: Atomic.Trace<T>, size: nat)
    requires InStep(m, t, size) && m.push.producers == map[]
    ensures Shaped(m) && InStep(Next(m, Pop), Atomic.Step(t, Atomic.Pop, size), size)
  {
    QuietCount(m.base, m.push);
    PopTakes(m, size);
    SwapSound(m, size);
    AtomicPop(t, size);
  }

  /** It keeps both sides the same exactly when they were and, at a swap, the newest ticket won in every slot. */
  lemma {:induction false} PopSameIff<T>(m: Machine<T>, t: Atomic.Trace<T>, size: nat)
    requires InStep(m, t, size) && m.push.producers == map[]
    ensures Shaped(m) && |Next(m, Pop).rd.buffer| > 0
    ensures SameSoFar(Next(m, Pop), Atomic.Step(t, Atomic.Pop, size)) <==>
      SameSoFar(m, t) && (Swapping(m) ==> AllNewestWin(m.base, m.push))
  {
    var m', t' := Next(m, Pop), Atomic.Step(t, Atomic.Pop, size);
    QuietCount(m.base, m.push);
    PopTakes(m, size);
    AtomicPop(t, size);
    if Swapping(m) {
      SwapSound(m, size);
      QuietSameIff(m.base, m.push);
      var c, d := WriteEntries(m.push.ring), t.log.write;
      assert m'.out + ReadEntries(m'.rd) == m.out + c && t'.out + t'.log.read == t.out + d;
      ConcatSplit(m.out, t.out, c, d);
      assert m.out + ReadEntries(m.rd) == m.out && t.out + t.log.read == t.out;
    }
  }

  // ---------------------------------------------------------------- whole runs

  /** Two empty rings of one size, nothing under way, nothing given out. */
  ghost predicate Initial<T>(m: Machine<T>, size: nat) {
    && |m.rd.buffer| == |m.base.buffer| == size
    && Fits(m.rd) && m.rd.count == 0 && Fits(m.base) && m.base.count == 0
    && m.push == Start(m.base) && !m.stop && m.out == []
  }

  lemma {:induction false} SoundShaped<T>(m: Machine<T>, size: nat)
    requires Sound(m, size)
    ensures Shaped(m)
  {
  }

  /** One step on both sides. */
  lemma {:induction false} BothStep<T>(m: Machine<T>, t: Atomic.Trace<T>, a: Act<T>, size: nat)
    requires InStep(m, t, size) && Enabled(m, a)
    ensures Shaped(m) && |Next(m, a).rd.buffer| > 0
    ensures var t' := if |OpOf(m, a)| == 0 then t else Atomic.Step(t, OpOf(m, a)[0], size);
      && InStep(Next(m, a), t', size)
      && (SameSoFar(Next(m, a), t') <==>
           SameSoFar(m, t) && (a.Pop? && Swapping(m) ==> AllNewestWin(m.base, m.push)))
  {
    match a
    case Produce(step) =>
      ProduceInStep(m, t, step, size);
    case Pop =>
      PopInStep(m, t, size);
      PopSameIff(m, t, size);
    case Stop =>
      SoundShaped(m, size);
  }

  lemma {:induction false} AtomicRunOn<T>(ops: seq<Atomic.Op<T>>, more: seq<Atomic.Op<T>>, size: nat)
    requires size > 0 && |more| <= 1
    ensures Atomic.Run(ops + more, size)
         == if |more| == 0 then Atomic.Run(ops, size) else Atomic.Step(Atomic.Run(ops, size), more[0], size)
  {
    if |more| == 0 {
      assert ops + more == ops;
    } else {
      assert (ops + more)[..|ops|] == ops;
    }
  }

  /**
   Every interleaving of pushes and pops refines the log with atomic pushes, taken in the order of their
   indices: the consumer gets the same entries exactly when at every swap each slot was last written with
   the entry of its newest ticket.
   */
  lemma {:induction false} RefinesIff<T>(init: Machine<T>, acts: seq<Act<T>>, size: nat)
    requires size > 0 && Initial(init, size)
    ensures var m, t := Exec(init, acts), Atomic.Run(Ops(init, acts), size);
      InStep(m, t, size) && (SameSoFar(m, t) <==> AllWin(init, acts))
    decreases |acts|
  {
    if |acts| == 0 {
      StartIsGood(init.base);
    } else {
      var front, a := acts[..|acts| - 1], acts[|acts| - 1];
      RefinesIff(init, front, size);
      var m, t := Exec(init, front), Atomic.Run(Ops(init, front), size);
      AtomicRunOn(Ops(init, front), OpOf(m, a), size);
      SoundShaped(m, size);
      if Enabled(m, a) {
        BothStep(m, t, a, size);
      }
    }
  }

  lemma {:induction false} SubsequencePrefix<T>(a: seq<T>, b: seq<T>, c: seq<T>)
    requires Atomic.Subsequence(a + b, c)
    ensures Atomic.Subsequence(a, c)
    decreases |b|
  {
    if |b| == 0 {
      assert a + b == a;
    } else {
      var n := |b| - 1;
      Atomic.SubsequenceLess(a + b, c, |a| + n);
      assert (a + b)[..|a| + n] + (a + b)[|a| + n + 1..] == a + b[..n];
      SubsequencePrefix(a, b[..n], c);
    }
  }

  /** A prefix of what the atomic log keeps is in order. */
  lemma {:induction false} KeptInOrder<T>(x: seq<T>, read: seq<T>, t: Atomic.Trace<T>)
    requires |x| == |t.out| && x + read == t.out + t.log.read && Atomic.Subsequence(Atomic.Kept(t), t.accepted)
    ensures x == t.out && Atomic.Subsequence(x + read, t.accepted)
  {
    ConcatSplit(x, t.out, read, t.log.read);
    assert Atomic.Kept(t) == (x + read) + t.log.write;
    SubsequencePrefix(x + read, t.log.write, t.accepted);
  }

  /** Then what comes out is what went in, in the order of the indices, with some entries missing. */
  lemma {:induction false} OutInOrder<T>(init: Machine<T>, acts: seq<Act<T>>, size: nat)
    requires size > 0 && Initial(init, size) && AllWin(init, acts)
    ensures |Exec(init, acts).rd.buffer| > 0
    ensures var m, t := Exec(init, acts), Atomic.Run(Ops(init, acts), size);
      m.out == t.out && Atomic.Subsequence(m.out + ReadEntries(m.rd), t.accepted)
  {
    RefinesIff(init, acts, size);
    var m, t := Exec(init, acts), Atomic.Run(Ops(init, acts), size);
    Atomic.OutIsSubsequence(Ops(init, acts), size);
    KeptInOrder(m.out, ReadEntries(m.rd), t);
  }

  lemma {:induction false} MostGrows<T>(t: Atomic.Trace<T>, op: Atomic.Op<T>, size: nat)
    requires size > 0
    ensures t.most <= Atomic.Step(t, op, size).most
  {
  }

  /** With at most `size` pushes between swaps nobody can be overtaken, in any interleaving. */
  lemma {:induction false} FewWin<T>(init: Machine<T>, acts: seq<Act<T>>, size: nat)
    requires size > 0 && Initial(init, size) && Atomic.Run(Ops(init, acts), size).most <= size
    ensures AllWin(init, acts)
    decreases |acts|
  {
    if |acts| > 0 {
      var front, a := acts[..|acts| - 1], acts[|acts| - 1];
      var m, t := Exec(init, front), Atomic.Run(Ops(init, front), size);
      AtomicRunOn(Ops(init, front), OpOf(m, a), size);
      if |OpOf(m, a)| > 0 {
        MostGrows(t, OpOf(m, a)[0], size);
      }
      FewWin(init, front, size);
      RefinesIff(init, front, size);
      Atomic.RunIsGood(Ops(init, front), size);
      if a.Pop? && Enabled(m, a) {
        FewPushesWin(m.base, m.push);
      }
    }
  }

  /** Everything given out or still inside, when no push is under way. */
  function Kept<T>(m: Machine<T>): seq<T>
    requires Shaped(m)
  {
    m.out + ReadEntries(m.rd) + WriteEntries(m.push.ring)
  }

  /**
   In every interleaving that ends with no push under way: nothing that was accepted is lost, and all of it
   is in the order of the indices, exactly when there were never more than `size` pushes between two swaps.
   */
  lemma {:induction false} NothingLostIff<T>(init: Machine<T>, acts: seq<Act<T>>, size: nat)
    requires size > 0 && Initial(init, size) && Exec(init, acts).push.producers == map[]
    ensures Shaped(Exec(init, acts))
    ensures var t := Atomic.Run(Ops(init, acts), size);
      Kept(Exec(init, acts)) == t.accepted <==> t.most <= size
  {
    var ops := Ops(init, acts);
    var m, t := Exec(init, acts), Atomic.Run(ops, size);
    RefinesIff(init, acts, size);
    Atomic.RunIsGood(ops, size);
    Atomic.NothingLostIff(ops, size);
    KeptLength(m, t, size);
    if t.most <= size {
      FewWin(init, acts, size);
      KeptSame(m, t, size);
    }
  }

  lemma {:induction false} KeptLength<T>(m: Machine<T>, t: Atomic.Trace<T>, size: nat)
    requires InStep(m, t, size) && m.push.producers == map[]
    ensures Shaped(m) && |Kept(m)| == |Atomic.Kept(t)|
  {
    SoundShaped(m, size);
    QuietCount(m.base, m.push);
  }

  lemma {:induction false} KeptSame<T>(m: Machine<T>, t: Atomic.Trace<T>, size: nat)
    requires InStep(m, t, size) && m.push.producers == map[] && SameSoFar(m, t) && t.since <= size
    ensures Shaped(m) && Kept(m) == Atomic.Kept(t)
  {
    SoundShaped(m, size);
    FewPushesWin(m.base, m.push);
    QuietSameIff(m.base, m.push);
    assert Atomic.Kept(t) == t.out + t.log.read + t.log.write;
  }

  /** A pop keeps everything, and gives out the next entry whenever there is one. */
  lemma {:induction false} PopKeepsAll<T>(m: Machine<T>, size: nat)
    requires Sound(m, size) && m.push.producers == map[]
    ensures Shaped(m) && Sound(Next(m, Pop), size) && Shaped(Next(m, Pop))
    ensures Next(m, Pop).push.producers == map[] && Next(m, Pop).stop == m.stop
    ensures Kept(Next(m, Pop)) == Kept(m)
    ensures |m.out| < |Kept(m)| ==> |Next(m, Pop).out| == |m.out| + 1
  {
    SwapKeepsAll(m, size);
    PopTakes(m, size);
    var s, m' := Swapped(m), Next(m, Pop);
    SoundShaped(m', size);
    if s.rd.count > 0 {
      assert Kept(m') == (m'.out + ReadEntries(m'.rd)) + WriteEntries(s.push.ring);
    }
  }

  lemma {:induction false} SwapKeepsAll<T>(m: Machine<T>, size: nat)
    requires Sound(m, size) && m.push.producers == map[]
    ensures Shaped(m) && Sound(Swapped(m), size) && Shaped(Swapped(m)) && Swapped(m).push.producers == map[]
    ensures Kept(Swapped(m)) == Kept(m) && Swapped(m).out == m.out
    ensures |m.out| < |Kept(m)| ==> Swapped(m).rd.count > 0
  {
    SwapSound(m, size);
    SoundShaped(Swapped(m), size);
    if Swapping(m) {
      var c := WriteEntries(m.push.ring);
      assert ReadEntries(m.rd) == [] && WriteEntries(Swapped(m).push.ring) == [];
      assert m.out + [] + c == m.out + c + [];
    }
  }

  /** Once stopped, with no push under way. */
  ghost predicate Draining<T>(m: Machine<T>, size: nat, all: seq<T>) {
    Sound(m, size) && Shaped(m) && m.stop && m.push.producers == map[] && Kept(m) == all
  }

  /**
   After the stop every interleaving gives the consumer exactly what was inside, in order, whatever
   producers still try; each pop gives one entry until nothing is left.
   */
  lemma {:induction false} AfterStop<T>(m: Machine<T>, more: seq<Act<T>>, size: nat, all: seq<T>)
    requires Draining(m, size, all)
    ensures Draining(Exec(m, more), size, all)
    ensures Exec(m, more).rd.count == 0 && Exec(m, more).push.ring.count == 0 ==> Exec(m, more).out == all
    decreases |more|
  {
    if |more| > 0 {
      var front, a := more[..|more| - 1], more[|more| - 1];
      AfterStop(m, front, size, all);
      var p := Exec(m, front);
      if a.Pop? {
        PopKeepsAll(p, size);
      }
    }
  }

  /** The stop itself, in any run that has come to rest. */
  lemma {:induction false} StopDrains<T>(init: Machine<T>, acts: seq<Act<T>>, size: nat)
    requires size > 0 && Initial(init, size) && Exec(init, acts).push.producers == map[]
    ensures Shaped(Exec(init, acts))
    ensures Draining(Exec(init, acts + [Stop]), size, Kept(Exec(init, acts)))
  {
    RefinesIff(init, acts, size);
    SoundShaped(Exec(init, acts), size);
    assert (acts + [Stop])[..|acts|] == acts;
  }
}
