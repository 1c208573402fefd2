/**
 The double-buffered log as its users see it: a first-in first-out queue that, when producers outrun
 the consumer, loses the oldest entries of the ring being written.
 */
module LogBuffer {
  import opened Arith
  import opened Common
  import opened LogRing

  /** Entries on their way out, oldest first: the read ring, then the write ring. */
  datatype Log<T> = Log(read: seq<T>, write: seq<T>, stop: bool)

  function Contents<T>(l: Log<T>): seq<T> {
    l.read + l.write
  }

  function Pushed<T>(l: Log<T>, x: T, size: nat): Log<T>
    requires size > 0
  {
    if l.stop then l else l.(write := DropOldest(l.write, x, size))
  }

  /** The consumer swaps the rings when its own is empty. */
  predicate Swaps<T>(l: Log<T>) {
    |l.read| == 0 && |l.write| > 0
  }

  function Popped<T>(l: Log<T>): Log<T> {
    if Swaps(l) then Log(l.write[1..], [], l.stop)
    else if |l.read| > 0 then l.(read := l.read[1..])
    else l
  }

  class Buffer<T> {
    const readBuffer: RingBuffer<T>
    const writeBuffer: RingBuffer<T>
    var stop: bool
    ghost var log: Log<T>

    ghost predicate Valid()
      reads this, readBuffer, writeBuffer
    {
      && readBuffer != writeBuffer && readBuffer.size == writeBuffer.size && Divides(writeBuffer.size)
      && readBuffer.Reading(log.read) && writeBuffer.Writing(log.write) && stop == log.stop
    }

    constructor (size: nat, blank: T)
      requires 0 < size < U32 && U32 % size == 0
      ensures Valid() && log == Log([], [], false) && writeBuffer.size == size
      ensures fresh(readBuffer) && fresh(writeBuffer)
    {
      readBuffer := new RingBuffer<T>(size, blank);
      writeBuffer := new RingBuffer<T>(size, blank);
      stop := false;
      log := Log([], [], false);
      RemIs(U32, size);
    }

    method Push(x: T)
      requires Valid()
      modifies this, writeBuffer
      ensures Valid() && log == Pushed(old(log), x, old(writeBuffer.size)) && writeBuffer.size == old(writeBuffer.size)
    {
      if stop {
        return;
      }
      writeBuffer.Push(x, log.write);
      log := Pushed(log, x, writeBuffer.size);
    }

    /** Gives out the oldest entry, and refuses only when both rings are empty. */
    method Pop() returns (r: Option<T>)
      requires Valid()
      modifies this, readBuffer, writeBuffer
      ensures Valid() && log == Popped(old(log)) && writeBuffer.size == old(writeBuffer.size)
      ensures r == if Contents(old(log)) == [] then None else Some(Contents(old(log))[0])
    {
      if readBuffer.count == 0 {
        if writeBuffer.count == 0 {
          return None;
        }
        SwapRings(readBuffer, writeBuffer);
        assert readBuffer.Writing(log.write) && writeBuffer.Reading([]);
        readBuffer.ResetIndex(log.write);
        writeBuffer.ResetIndex([]);
        log := Log(log.write, [], log.stop);
      }
      r := readBuffer.Pop(log.read);
      log := log.(read := log.read[1..]);
    }

    /** Moves the oldest entry to the consumer's output. */
    method PopInto(given: seq<T>) returns (out: seq<T>, more: bool)
      requires Valid()
      modifies this, readBuffer, writeBuffer
      ensures Valid() && stop == old(stop) && out + Contents(log) == given + Contents(old(log))
      ensures if more then |Contents(log)| < |Contents(old(log))| else Contents(log) == []
    {
      PopsOne(log);
      var r := Pop();
      more := r.Some?;
      out := if more then given + [r.value] else given;
    }

    /** Exit: no push is accepted from here on, and the consumer drains what is left, in order. */
    method Exit() returns (out: seq<T>)
      requires Valid()
      modifies this, readBuffer, writeBuffer
      ensures Valid() && stop && readBuffer.count == 0 && writeBuffer.count == 0
      ensures out == Contents(old(log))
    {
      stop := true;
      log := log.(stop := true);
      ghost var all := Contents(log);
      out := [];
      var more := true;
      while more
        invariant Valid() && stop && out + Contents(log) == all
        invariant !more ==> Contents(log) == []
        decreases more, |Contents(log)|
      {
        out, more := PopInto(out);
      }
    }
  }

  lemma PopsOne<T>(l: Log<T>)
    ensures Contents(Popped(l)) == if Contents(l) == [] then [] else Contents(l)[1..]
  {
  }

  // ---------------------------------------------------------------- whole runs

  datatype Op<T> = Push(x: T) | Pop | Stop

  /**
   A run: the log, everything given out, everything accepted, how many pushes found the write ring full,
   the pushes since the last swap, and the most there ever were between two swaps.
   */
  datatype Trace<T> = Trace(log: Log<T>, out: seq<T>, accepted: seq<T>, lost: nat, since: nat, most: nat)

  function Step<T>(t: Trace<T>, op: Op<T>, size: nat): Trace<T>
    requires size > 0
  {
    match op
    case Push(x) =>
      if t.log.stop then t
      else
        var n := t.since + 1;
        Trace(Pushed(t.log, x, size), t.out, t.accepted + [x],
              t.lost + (if |t.log.write| >= size then 1 else 0), n, if n > t.most then n else t.most)
    case Pop =>
      if Contents(t.log) == [] then t
      else
        t.(log := Popped(t.log), out := t.out + [Contents(t.log)[0]], since := if Swaps(t.log) then 0 else t.since)
    case Stop => t.(log := t.log.(stop := true))
  }

  function Run<T>(ops: seq<Op<T>>, size: nat): Trace<T>
    requires size > 0
  {
    if |ops| == 0 then Trace(Log([], [], false), [], [], 0, 0, 0)
    else Step(Run(ops[..|ops| - 1], size), ops[|ops| - 1], size)
  }

  /** `a` is `b` with some entries left out. */
  predicate Subsequence<T(==)>(a: seq<T>, b: seq<T>)
    decreases |b|
  {
    if |a| == 0 then true
    else if |b| == 0 then false
    else
      || (a[|a| - 1] == b[|b| - 1] && Subsequence(a[..|a| - 1], b[..|b| - 1]))
      || Subsequence(a, b[..|b| - 1])
  }

  lemma {:induction false} SubsequenceLess<T>(a: seq<T>, b: seq<T>, i: nat)
    requires Subsequence(a, b) && i < |a|
    ensures Subsequence(a[..i] + a[i + 1..], b)
    decreases |b|
  {
    var n, m := |a| - 1, |b| - 1;
    var c := a[..i] + a[i + 1..];
    if Subsequence(a, b[..m]) {
      SubsequenceLess(a, b[..m], i);
    } else if i == n {
      assert c == a[..n];
      SubsequenceMore(a[..n], b[..m], b[m]);
      assert b[..m] + [b[m]] == b;
    } else {
      SubsequenceLess(a[..n], b[..m], i);
      assert c[..n - 1] == a[..n][..i] + a[..n][i + 1..];
    }
  }

  lemma SubsequenceMore<T>(a: seq<T>, b: seq<T>, x: T)
    requires Subsequence(a, b)
    ensures Subsequence(a, b + [x]) && Subsequence(a + [x], b + [x])
  {
    assert (b + [x])[..|b|] == b && (a + [x])[..|a|] == a;
  }

  lemma {:induction false} SubsequenceLength<T>(a: seq<T>, b: seq<T>)
    requires Subsequence(a, b)
    ensures |a| <= |b| && (|a| == |b| ==> a == b)
    decreases |b|
  {
    if a != [] {
      var n, m := |a| - 1, |b| - 1;
      if Subsequence(a, b[..m]) {
        SubsequenceLength(a, b[..m]);
      } else {
        SubsequenceLength(a[..n], b[..m]);
        assert a == a[..n] + [a[n]] && b == b[..m] + [b[m]];
      }
    }
  }

  /** Everything given out or still inside, in order. */
  function Kept<T>(t: Trace<T>): seq<T> {
    t.out + Contents(t.log)
  }

  ghost predicate Good<T>(t: Trace<T>, size: nat) {
    && Subsequence(Kept(t), t.accepted)
    && |t.accepted| == |Kept(t)| + t.lost
    && |t.log.write| == (if t.since < size then t.since else size)
    && t.since <= t.most
    && (t.lost == 0 <==> t.most <= size)
  }

  lemma {:induction false} PushIsGood<T>(t: Trace<T>, x: T, size: nat)
    requires size > 0 && Good(t, size) && !t.log.stop
    ensures Good(Step(t, Push(x), size), size)
  {
    var t' := Step(t, Push(x), size);
    var k := |t.out + t.log.read|;
    assert Subsequence(Kept(t'), t'.accepted) by {
      if |t.log.write| < size {
        assert Kept(t') == Kept(t) + [x];
        SubsequenceMore(Kept(t), t.accepted, x);
      } else {
        var less := Kept(t)[..k] + Kept(t)[k + 1..];
        assert Kept(t') == less + [x];
        SubsequenceLess(Kept(t), t.accepted, k);
        SubsequenceMore(less, t.accepted, x);
      }
    }
  }

  lemma {:induction false} PopIsGood<T>(t: Trace<T>, size: nat)
    requires size > 0 && Good(t, size)
    ensures Good(Step(t, Pop, size), size) && Kept(Step(t, Pop, size)) == Kept(t)
  {
    if Contents(t.log) != [] {
      PopsOne(t.log);
      assert Kept(Step(t, Pop, size)) == Kept(t);
    }
  }

  lemma {:induction false} RunIsGood<T>(ops: seq<Op<T>>, size: nat)
    requires size > 0
    ensures Good(Run(ops, size), size)
    decreases |ops|
  {
    if ops != [] {
      var t, op := Run(ops[..|ops| - 1], size), ops[|ops| - 1];
      RunIsGood(ops[..|ops| - 1], size);
      match op
      case Push(x) =>
        if !t.log.stop {
          PushIsGood(t, x, size);
        }
      case Pop =>
        PopIsGood(t, size);
      case Stop =>
        assert Kept(Step(t, Stop, size)) == Kept(t);
    }
  }

  /** In every run what comes out is what went in, in order, with some entries missing. */
  lemma OutIsSubsequence<T>(ops: seq<Op<T>>, size: nat)
    requires size > 0
    ensures Subsequence(Kept(Run(ops, size)), Run(ops, size).accepted)
    ensures |Run(ops, size).accepted| == |Kept(Run(ops, size))| + Run(ops, size).lost
  {
    RunIsGood(ops, size);
  }

  /** Nothing is missing iff there were never more than `size` pushes between two swaps. */
  lemma NothingLostIff<T>(ops: seq<Op<T>>, size: nat)
    requires size > 0
    ensures Kept(Run(ops, size)) == Run(ops, size).accepted <==> Run(ops, size).most <= size
  {
    RunIsGood(ops, size);
    SubsequenceLength(Kept(Run(ops, size)), Run(ops, size).accepted);
  }

  /** `u` is a later state of the stopped run `t`. */
  ghost predicate Later<T>(t: Trace<T>, u: Trace<T>) {
    u.log.stop && u.accepted == t.accepted && t.out <= u.out && Kept(u) == Kept(t)
  }

  lemma {:induction false} LaterStep<T>(t: Trace<T>, u: Trace<T>, op: Op<T>, size: nat)
    requires size > 0 && Later(t, u) && Good(u, size)
    ensures Later(t, Step(u, op, size))
  {
    if op.Pop? {
      PopIsGood(u, size);
    }
  }

  /** After the stop, the consumer gets exactly what was inside, in order, whatever producers still try. */
  lemma {:induction false} AfterStop<T>(ops: seq<Op<T>>, more: seq<Op<T>>, size: nat)
    requires size > 0
    ensures Later(Run(ops + [Stop], size), Run(ops + [Stop] + more, size))
    ensures Contents(Run(ops + [Stop] + more, size).log) == [] ==>
      Run(ops + [Stop] + more, size).out == Kept(Run(ops, size))
    decreases |more|
  {
    var all, n := ops + [Stop], |more| - 1;
    var t := Run(all, size);
    assert Kept(t) == Kept(Run(ops, size)) && t.log.stop by {
      assert all[..|ops|] == ops && all[|ops|] == Stop;
    }
    if more == [] {
      assert all + more == all;
    } else {
      AfterStop(ops, more[..n], size);
      RunIsGood(all + more[..n], size);
      LaterStep(t, Run(all + more[..n], size), more[n], size);
      assert (all + more)[..|all| + n] == all + more[..n] && (all + more)[|all| + n] == more[n];
    }
  }
}
