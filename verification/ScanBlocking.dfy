/**
 Who waits for whom in the scan protocol.  An enable call waits for running works while it holds the read
 lock, and the last round of a normal scan waits for the write lock: exactly when the call can still end.
 */
module ScanBlocking {
  import opened Common
  import opened ScanProtocol
  import opened ScanRounds
  import opened ScanEnable

  /** Some scan or enable call holds the read lock. */
  ghost predicate SomeReader(s: State) {
    || (exists i :: 0 <= i < |s.listed| && s.listed[i].work == Scanning)
    || (exists i :: 0 <= i < |s.orphans| && s.orphans[i].work == Scanning)
    || (exists t :: t in s.enablers && s.enablers[t].Submitting?)
  }

  /** A work that is on its way is held up only before the write lock of a last round, by a reader. */
  lemma {:induction false} WorkWaitsIff(s: State, orphan: bool, i: nat)
    requires i < |if orphan then s.orphans else s.listed|
    ensures var work := (if orphan then s.orphans else s.listed)[i].work;
      !Enabled(s, WorkStep(orphan, i)) <==> work == Idle || (work == Waiting && SomeReader(s))
  {
  }

  /** While a reader is in, the list and the enable state stay as they are and no disable takes effect. */
  lemma {:induction false} ReaderKeepsOut(s: State, a: Action)
    requires SomeReader(s) && (a.Disable? || a.AddMove? || a.RemoveUnlink?)
    ensures Step(s, a) == s
  {
  }

  // ---------------------------------------------------------------- removal

  /** The work of process `p`, listed or unlinked, is on its thread. */
  ghost predicate OnThread(s: State, p: int) {
    || (exists i :: 0 <= i < |s.listed| && s.listed[i].pid == p && s.listed[i].work.Running())
    || (exists i :: 0 <= i < |s.orphans| && s.orphans[i].pid == p && s.orphans[i].work.Running())
  }

  /** Step `a` ends a round of process `p`. */
  predicate EndsOne(s: State, a: Action, p: int) {
    a.WorkStep? && Enabled(s, a) &&
    var ap := (if a.orphan then s.orphans else s.listed)[a.i];
    ap.pid == p && ap.work == Finishing
  }

  /** A process goes away only when its work is off its thread: nothing but the end of a round takes it off. */
  lemma {:induction false} RunningIsNotFreed(s: State, a: Action, p: int)
    requires OnThread(s, p) && !EndsOne(s, a, p)
    ensures OnThread(Step(s, a), p)
  {
    if Enabled(s, a) {
      var n := Step(s, a);
      if i :| 0 <= i < |s.listed| && s.listed[i].pid == p && s.listed[i].work.Running() {
        ListedStays(s, a, i);
      } else {
        var i :| 0 <= i < |s.orphans| && s.orphans[i].pid == p && s.orphans[i].work.Running();
        var k := if a.RemoveDestroy? && a.i < i then i - 1 else i;
        assert k < |n.orphans| && n.orphans[k].pid == p && n.orphans[k].work.Running();
      }
    }
  }

  lemma {:induction false} ListedStays(s: State, a: Action, i: nat)
    requires Enabled(s, a) && i < |s.listed| && s.listed[i].work.Running() && !EndsOne(s, a, s.listed[i].pid)
    ensures OnThread(Step(s, a), s.listed[i].pid)
  {
    var n, p := Step(s, a), s.listed[i].pid;
    match a
    case AddMove(t) =>
      AppendPrefix(UpdateAll(s.listed, s.adders[t]), s.listed, s.adders[t], s.enableOn);
      assert n.listed[i].pid == p && n.listed[i].work.Running();
    case RemoveUnlink(k) =>
      if k == i {
        assert n.orphans[|s.orphans|] == s.listed[i];
      } else {
        assert n.listed[if i < k then i else i - 1] == s.listed[i];
      }
    case _ =>
      assert n.listed[i].pid == p && n.listed[i].work.Running();
  }

  /** A removed process is no longer listed; the others still are, as they were. */
  lemma {:induction false} RemovedIs(s: State, i: nat)
    requires Base(s) && Enabled(s, RemoveUnlink(i))
    ensures var n := Step(s, RemoveUnlink(i));
      && !HasPid(n.listed, s.listed[i].pid) && s.listed[i] in n.orphans
      && (forall k | 0 <= k < |s.listed| && k != i :: s.listed[k] in n.listed)
      && (forall k | 0 <= k < |n.listed| :: n.listed[k] in s.listed)
  {
    var n := Step(s, RemoveUnlink(i));
    assert n.orphans[|s.orphans|] == s.listed[i];
    assert forall k | 0 <= k < |n.listed| :: n.listed[k] == if k < i then s.listed[k] else s.listed[k + 1];
    forall k | 0 <= k < |s.listed| && k != i
      ensures s.listed[k] in n.listed
    {
      assert n.listed[if k < i then k else k - 1] == s.listed[k];
    }
  }

  // ---------------------------------------------------------------- a call that can not end

  /** The work waits for the write lock, or is bound to: it has begun the only round of a normal scan. */
  predicate Bound(ap: Ap) {
    ap.work == Waiting || (ap.work == Started && ap.params.scanType == NORMAL_SCAN && ap.params.ntimes <= 1)
  }

  /** Call `t` has yet to submit entry `j`, whose work waits for the call to end. */
  ghost predicate Deadlocked(s: State, t: nat, j: nat) {
    Holds(s, t) && s.enablers[t].next <= j < |s.listed| && Bound(s.listed[j])
  }

  lemma {:induction false} DeadlockStep(s: State, a: Action, t: nat, j: nat)
    requires Deadlocked(s, t, j)
    ensures Deadlocked(Step(s, a), t, j)
  {
    if Enabled(s, a) {
      assert !WriteFree(s);
      assert a != EnableUnlock(t);
    }
  }

  /** In every continuation the call never ends: nothing is added or removed any more and no disable takes effect. */
  lemma {:induction false} DeadlockIsForever(s: State, acts: seq<Action>, t: nat, j: nat)
    requires Deadlocked(s, t, j)
    ensures Deadlocked(Run(s, acts), t, j) && SomeReader(Run(s, acts)) && !Enabled(Run(s, acts), EnableUnlock(t))
    decreases |acts|
  {
    if acts != [] {
      DeadlockIsForever(s, acts[..|acts| - 1], t, j);
      DeadlockStep(Run(s, acts[..|acts| - 1]), acts[|acts| - 1], t, j);
    }
  }

  // ---------------------------------------------------------------- a call that can end

  /** Some continuation lets the call give the lock up. */
  ghost predicate CanEnd(s: State, t: nat) {
    exists acts: seq<Action> :: Enabled(Run(s, acts), EnableUnlock(t))
  }

  /** `acts` leads from `s` to `now`. */
  ghost predicate Leads(s: State, acts: seq<Action>, now: State) {
    Run(s, acts) == now
  }

  lemma {:induction false} LeadsOn(s: State, acts: seq<Action>, now: State, a: Action) returns (more: seq<Action>)
    requires Leads(s, acts, now)
    ensures Leads(s, more, Step(now, a))
  {
    more := acts + [a];
    RunOne(s, acts, a);
  }

  /** The works that follow entry `i`, none of which is bound to wait. */
  ghost predicate NoneBound(s: State, i: nat) {
    forall j | i <= j < |s.listed| :: !Bound(s.listed[j])
  }

  /** Number of steps until a work is off its thread. */
  function ToGo(work: Work): nat {
    match work
    case Idle => 0
    case Queued => 0
    case Started => 5
    case Waiting => 4
    case Prepared => 3
    case Scanning => 2
    case Finishing => 1
  }

  /** The process that the call has reset: not bound, and a work that has just begun is not in its last round. */
  predicate Free(ap: Ap) {
    ap.work != Waiting && (ap.work == Started ==> !LastScanning(ap))
  }

  /** The running work of a reset process is let go on until it is off its thread. */
  lemma {:induction false} LetFinish(s: State, t: nat) returns (acts: seq<Action>, now: State)
    requires Holds(s, t) && s.enablers[t].reset && s.enablers[t].next < |s.listed|
    requires Free(s.listed[s.enablers[t].next])
    ensures Leads(s, acts, now) && now == s.(listed := now.listed) && |now.listed| == |s.listed|
    ensures forall j | 0 <= j < |s.listed| && j != s.enablers[t].next :: now.listed[j] == s.listed[j]
    ensures !now.listed[s.enablers[t].next].work.Running()
    decreases ToGo(s.listed[s.enablers[t].next].work)
  {
    var i := s.enablers[t].next;
    acts, now := [], s;
    if s.listed[i].work.Running() {
      var w := WorkStep(false, i);
      var s1 := Step(s, w);
      assert Enabled(s, w) && s1.listed == s.listed[i := WorkNext(s.listed[i])];
      var rest;
      rest, now := LetFinish(s1, t);
      acts := [w] + rest;
      RunOne(s, [], w);
      assert [] + [w] == [w];
      RunAppend(s, [w], rest);
    }
  }

  /** One more process is submitted, the ones after it are left as they are. */
  lemma {:induction false} SubmitNext(s: State, t: nat) returns (acts: seq<Action>, now: State)
    requires Holds(s, t) && !s.enablers[t].reset && s.enablers[t].next < |s.listed|
    requires !Bound(s.listed[s.enablers[t].next])
    ensures Leads(s, acts, now) && Holds(now, t) && now.enablers[t] == Submitting(s.enablers[t].next + 1, false)
    ensures |now.listed| == |s.listed|
    ensures forall j | s.enablers[t].next < j < |s.listed| :: now.listed[j] == s.listed[j]
  {
    var i := s.enablers[t].next;
    var s1 := Step(s, EnableReset(t));
    RunOne(s, [], EnableReset(t));
    assert [] + [EnableReset(t)] == [EnableReset(t)];
    var rest, s2 := LetFinish(s1, t);
    RunAppend(s, [EnableReset(t)], rest);
    now := Step(s2, EnableSubmit(t));
    assert Enabled(s2, EnableSubmit(t));
    acts := LeadsOn(s, [EnableReset(t)] + rest, s2, EnableSubmit(t));
  }

  lemma {:induction false} SubmitRest(s: State, t: nat) returns (acts: seq<Action>)
    requires Holds(s, t) && !s.enablers[t].reset && NoneBound(s, s.enablers[t].next)
    ensures Enabled(Run(s, acts), EnableUnlock(t))
    decreases |s.listed| - s.enablers[t].next
  {
    acts := [];
    if s.enablers[t].next < |s.listed| {
      var first, now := SubmitNext(s, t);
      var rest := SubmitRest(now, t);
      acts := first + rest;
      RunAppend(s, first, rest);
    }
  }

  /**
   From every state in which an enable call is about to reset a process: the call can come to its end exactly
   when no process it has yet to submit is bound to wait for the write lock.
   */
  lemma {:induction false} EnableEndsIff(s: State, t: nat)
    requires Holds(s, t) && !s.enablers[t].reset
    ensures CanEnd(s, t) <==> NoneBound(s, s.enablers[t].next)
  {
    if NoneBound(s, s.enablers[t].next) {
      var acts := SubmitRest(s, t);
    } else {
      var j :| s.enablers[t].next <= j < |s.listed| && Bound(s.listed[j]);
      forall acts: seq<Action>
        ensures !Enabled(Run(s, acts), EnableUnlock(t))
      {
        DeadlockIsForever(s, acts, t, j);
      }
    }
  }

  /** Two steps of the work of the only process, in the only round of a normal scan. */
  lemma {:induction false} TwoSteps(s: State, ap: Ap)
    requires s.listed == [ap] && ap.work == Queued && ap.params.scanType == NORMAL_SCAN && ap.params.ntimes == 1
    ensures var w := WorkStep(false, 0); Run(s, [w, w]) == s.(listed := [ap.(work := Waiting)])
  {
    var w := WorkStep(false, 0);
    RunTwo(s, w, w);
    assert Step(s, w) == s.(listed := [ap.(work := Started)]);
  }

  /** The case is real: enable begins, a process is added and starts its last round, enable takes the lock. */
  lemma {:induction false} DeadlockIsReachable() returns (acts: seq<Action>)
    ensures Deadlocked(Run(INITIAL, acts), 0, 0)
  {
    var p, w := Payload(1, Params(0, 0, NORMAL_SCAN, 1, 0)), WorkStep(false, 0);
    var begin, add := [EnableBegin(0)], [AddBuild(1, [p]), AddMove(1)];
    RunOne(INITIAL, [], EnableBegin(0));
    assert [] + [EnableBegin(0)] == begin;
    var s1 := Step(INITIAL, EnableBegin(0));
    AddToEmpty(s1, 1, p);
    RunAppend(INITIAL, begin, add);
    var s2 := Run(s1, add);
    assert s2.listed == [NewAp(p, true)];
    TwoSteps(s2, s2.listed[0]);
    RunAppend(INITIAL, begin + add, [w, w]);
    RunOne(INITIAL, begin + add + [w, w], EnableLock(0));
    acts := begin + add + [w, w] + [EnableLock(0)];
  }
}
