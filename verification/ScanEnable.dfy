/**
 What an enable call delivers while everything else goes on: it submits every listed process once, and how
 many rounds a submitted process then has before it.
 */
module ScanEnable {
  import opened Common
  import opened ScanProtocol
  import opened ScanRounds

  function PidsOf(listed: seq<Ap>): (r: seq<int>)
    ensures |r| == |listed| && forall i | 0 <= i < |r| :: r[i] == listed[i].pid
  {
    seq(|listed|, i requires 0 <= i < |listed| => listed[i].pid)
  }

  /** Call `t` holds the read lock and submits works. */
  predicate Holds(s: State, t: nat) {
    t in s.enablers && s.enablers[t].Submitting?
  }

  /** Step `a` has call `t` submit entry `i`. */
  predicate SubmitsAt(s: State, a: Action, t: nat, i: nat) {
    a == EnableSubmit(t) && Enabled(s, a) && s.enablers[t].next == i
  }

  /** How often call `t` submits entry `i`. */
  function Submits(s: State, acts: seq<Action>, t: nat, i: nat): nat {
    if acts == [] then 0
    else
      var n := |acts| - 1;
      Submits(s, acts[..n], t, i) + if SubmitsAt(Run(s, acts[..n]), acts[n], t, i) then 1 else 0
  }

  ghost predicate EachOnce(s: State, acts: seq<Action>, t: nat) {
    forall i: nat | i < |s.listed| :: Submits(s, acts, t, i) == 1
  }

  /** While the call holds the lock nobody enters or leaves the list, and only the call itself moves on in it. */
  lemma {:induction false} HeldStep(s: State, a: Action, t: nat)
    requires Holds(s, t) && a != EnableUnlock(t)
    ensures Holds(Step(s, a), t) && PidsOf(Step(s, a).listed) == PidsOf(s.listed)
    ensures Step(s, a).enablers[t].next == s.enablers[t].next + (if a == EnableSubmit(t) && Enabled(s, a) then 1 else 0)
    ensures s.enablers[t].reset && !(a == EnableSubmit(t) && Enabled(s, a)) ==> Step(s, a).enablers[t].reset
  {
    if Enabled(s, a) {
      assert !WriteFree(s);
      var r := Step(s, a).listed;
      match a
      case EnableReset(u) => assert PidsOf(r) == PidsOf(s.listed);
      case EnableSubmit(u) => assert PidsOf(r) == PidsOf(s.listed);
      case WorkStep(orphan, i) => assert PidsOf(r) == PidsOf(s.listed);
      case _ =>
    }
  }

  /**
   In every interleaving: from the moment an enable call takes the lock until it gives it up, the list stays
   the same, and when it gives it up it has submitted every listed process exactly once.
   */
  lemma {:induction false} SubmitsEachOnce(s: State, acts: seq<Action>, t: nat)
    requires t in s.enablers && s.enablers[t] == Submitting(0, false) && EnableUnlock(t) !in acts
    ensures var now := Run(s, acts);
      && Holds(now, t) && PidsOf(now.listed) == PidsOf(s.listed) && now.enablers[t].next <= |s.listed|
      && (forall i: nat | i < |s.listed| :: Submits(s, acts, t, i) == if i < now.enablers[t].next then 1 else 0)
      && (Enabled(now, EnableUnlock(t)) <==> EachOnce(s, acts, t))
    decreases |acts|
  {
    if acts != [] {
      var n := |acts| - 1;
      SubmitsEachOnce(s, acts[..n], t);
      HeldStep(Run(s, acts[..n]), acts[n], t);
    }
    var now := Run(s, acts);
    assert |now.listed| == |s.listed| by {
      assert |PidsOf(now.listed)| == |PidsOf(s.listed)|;
    }
    var k := now.enablers[t].next;
    if k < |s.listed| {
      assert Submits(s, acts, t, k) == 0;
      assert !EachOnce(s, acts, t);
    } else {
      assert forall i: nat | i < |s.listed| :: Submits(s, acts, t, i) == 1;
    }
  }

  // ---------------------------------------------------------------- calls that nothing interrupts

  /** The steps with which call `t` submits `n` processes. */
  function SubmitCalls(t: nat, n: nat): seq<Action> {
    if n == 0 then [] else SubmitCalls(t, n - 1) + [EnableReset(t)] + [EnableSubmit(t)]
  }

  /** A whole enable call over a list of `n` processes. */
  function EnableCall(t: nat, n: nat): seq<Action> {
    [EnableBegin(t), EnableLock(t)] + SubmitCalls(t, n) + [EnableUnlock(t)]
  }

  /** The first `n` processes are queued with all rounds ahead, the others are as they were. */
  ghost predicate QueuedUpTo(now: seq<Ap>, was: seq<Ap>, n: nat) {
    && |now| == |was|
    && (forall i | 0 <= i < |was| && i < n :: now[i] == was[i].(cur := 0, work := Queued, done := false))
    && (forall i | n <= i < |was| :: now[i] == was[i])
  }

  lemma {:induction false} SubmitOne(s: State, now: State, t: nat, n: nat)
    requires Holds(now, t) && now.enablers[t] == Submitting(n, false) && QueuedUpTo(now.listed, s.listed, n)
    requires n < |s.listed| && !s.listed[n].work.Running() && now == s.(listed := now.listed, enablers := now.enablers)
    requires now.enablers == s.enablers[t := Submitting(n, false)]
    ensures var next := Step(Step(now, EnableReset(t)), EnableSubmit(t));
      && next == s.(listed := next.listed, enablers := next.enablers)
      && next.enablers == s.enablers[t := Submitting(n + 1, false)] && QueuedUpTo(next.listed, s.listed, n + 1)
  {
    var mid := Step(now, EnableReset(t));
    assert Enabled(now, EnableReset(t)) && Enabled(mid, EnableSubmit(t));
    var next := Step(mid, EnableSubmit(t));
    assert next.enablers == s.enablers[t := Submitting(n + 1, false)];
  }

  lemma {:induction false} SubmitsUpTo(s: State, t: nat, n: nat)
    requires t in s.enablers && s.enablers[t] == Submitting(0, false) && n <= |s.listed|
    requires forall i | 0 <= i < |s.listed| :: !s.listed[i].work.Running()
    ensures var now := Run(s, SubmitCalls(t, n));
      && now == s.(listed := now.listed, enablers := now.enablers)
      && now.enablers == s.enablers[t := Submitting(n, false)] && QueuedUpTo(now.listed, s.listed, n)
  {
    if n == 0 {
      assert s.enablers == s.enablers[t := Submitting(0, false)];
    } else {
      SubmitsUpTo(s, t, n - 1);
      RunOne(s, SubmitCalls(t, n - 1), EnableReset(t));
      RunOne(s, SubmitCalls(t, n - 1) + [EnableReset(t)], EnableSubmit(t));
      SubmitOne(s, Run(s, SubmitCalls(t, n - 1)), t, n - 1);
    }
  }

  /**
   A whole enable call while no work is on its thread: scanning is on, every listed process is queued with all
   its rounds ahead and no completion signalled, and the call is over.
   */
  lemma {:induction false} EnableQueuesAll(s: State, t: nat)
    requires t !in s.enablers && forall i | 0 <= i < |s.listed| :: !s.listed[i].work.Running()
    ensures var now := Run(s, EnableCall(t, |s.listed|));
      now == s.(enableOn := true, listed := now.listed) && QueuedUpTo(now.listed, s.listed, |s.listed|)
  {
    var n := |s.listed|;
    RunTwo(s, EnableBegin(t), EnableLock(t));
    var begun := Run(s, [EnableBegin(t), EnableLock(t)]);
    assert begun == s.(enableOn := true, enablers := s.enablers[t := Submitting(0, false)]);
    SubmitsUpTo(begun, t, n);
    RunAppend(s, [EnableBegin(t), EnableLock(t)], SubmitCalls(t, n));
    var all := Run(begun, SubmitCalls(t, n));
    RunOne(s, [EnableBegin(t), EnableLock(t)] + SubmitCalls(t, n), EnableUnlock(t));
    assert Enabled(all, EnableUnlock(t));
    assert begun.enablers[t := Submitting(n, false)] - {t} == s.enablers;
  }

  /** A whole add call while no reader is in: the kept entries are moved to the list, and the call is over. */
  lemma {:induction false} AddMovesKept(s: State, t: nat, payload: seq<Payload>)
    requires t !in s.adders && WriteFree(s)
    ensures Run(s, [AddBuild(t, payload), AddMove(t)]) ==
      if DistinctPayload(KeptOf(s.listed, payload))
      then s.(listed := MoveToList(s.listed, KeptOf(s.listed, payload), s.enableOn)) else s
  {
    RunTwo(s, AddBuild(t, payload), AddMove(t));
    BuildIs(s.listed, payload);
    var mid := Step(s, AddBuild(t, payload));
    if DistinctPayload(KeptOf(s.listed, payload)) {
      assert mid == s.(adders := s.adders[t := KeptOf(s.listed, payload)]) && WriteFree(mid);
      assert mid.adders - {t} == s.adders;
    }
  }

  // ---------------------------------------------------------------- the rounds of a submitted process

  /** Step `a` ends a round of listed process `p`. */
  predicate EndsRoundOf(s: State, a: Action, p: int) {
    WorksOn(s, a, p) && s.listed[a.i].work == Finishing
  }

  function RoundsEnded(s: State, acts: seq<Action>, p: int): nat {
    if acts == [] then 0
    else
      var n := |acts| - 1;
      RoundsEnded(s, acts[..n], p) + if EndsRoundOf(Run(s, acts[..n]), acts[n], p) then 1 else 0
  }

  /** A step on an undisturbed process, at its place in the list. */
  lemma {:induction false} PlaceStep(s: State, a: Action, t: nat, i: nat)
    requires Base(s) && Holds(s, t) && a != EnableUnlock(t) && i < |s.listed| && !Disturbs(s, a, s.listed[i].pid)
    ensures i < |Step(s, a).listed|
    ensures var ap, now := s.listed[i], Step(s, a).listed[i];
      && now.pid == ap.pid && now.params == ap.params
      && now.cur == ap.cur + if EndsRoundOf(s, a, ap.pid) then 1 else 0
  {
    HeldStep(s, a, t);
    assert |PidsOf(Step(s, a).listed)| == |PidsOf(s.listed)|;
    assert Enabled(s, a) ==> !WriteFree(s);
    var p := s.listed[i].pid;
    assert WorksOn(s, a, p) ==> a.i == i;
  }

  lemma {:induction false} RoundsBetween(s: State, acts: seq<Action>, t: nat, i: nat)
    requires Base(s) && Holds(s, t) && s.enablers[t] == Submitting(i, true) && i < |s.listed|
    requires LeftAlone(s, acts, s.listed[i].pid)
    ensures var now := Run(s, acts);
      && Base(now) && Holds(now, t) && now.enablers[t] == Submitting(i, true) && i < |now.listed|
      && now.listed[i].pid == s.listed[i].pid && now.listed[i].params == s.listed[i].params
      && now.listed[i].cur == s.listed[i].cur + RoundsEnded(s, acts, s.listed[i].pid)
    decreases |acts|
  {
    if acts != [] {
      var n, p := |acts| - 1, s.listed[i].pid;
      assert forall k | 0 <= k < n :: acts[..n][..k] == acts[..k];
      RoundsBetween(s, acts[..n], t, i);
      var mid := Run(s, acts[..n]);
      StepKeepsBase(mid, acts[n]);
      assert !Disturbs(mid, acts[n], p);
      if acts[n] == EnableUnlock(t) {
        assert Step(mid, acts[n]) == mid;
      } else {
        PlaceStep(mid, acts[n], t, i);
        HeldStep(mid, acts[n], t);
      }
    }
  }

  /**
   In every interleaving: a process that an enable call has reset and then submits is queued with as many
   rounds behind it as its old work ended in between; so all its rounds are ahead exactly when none was.
   */
  lemma {:induction false} SubmittedRounds(acts: seq<Action>, between: seq<Action>, t: nat)
    requires Enabled(Run(INITIAL, acts), EnableReset(t))
    requires var s := Run(INITIAL, acts);
      && LeftAlone(Step(s, EnableReset(t)), between, s.listed[s.enablers[t].next].pid)
      && Enabled(Run(Step(s, EnableReset(t)), between), EnableSubmit(t))
    ensures var s := Run(INITIAL, acts);
      var i, ap := s.enablers[t].next, s.listed[s.enablers[t].next];
      var ended := RoundsEnded(Step(s, EnableReset(t)), between, ap.pid);
      var now := Step(Run(Step(s, EnableReset(t)), between), EnableSubmit(t));
      && i < |now.listed| && now.listed[i] == ap.(cur := ended, work := Queued, done := false)
      && now.enablers[t] == Submitting(i + 1, false)
      && (Rounds(now.listed[i]) == (if ap.params.ntimes > 1 then ap.params.ntimes else 1)
          <==> ended == 0 || ap.params.ntimes <= 1)
  {
    var s := Run(INITIAL, acts);
    PidsStayDistinct(acts);
    StepKeepsBase(s, EnableReset(t));
    var i := s.enablers[t].next;
    RoundsBetween(Step(s, EnableReset(t)), between, t, i);
  }

  /**
   The case is real: a work in its last step when the call resets the process ends its round afterwards, and
   the process is submitted with one round already behind it.
   */
  lemma {:induction false} ResetLosesRound(s: State, t: nat)
    requires Enabled(s, EnableReset(t)) && s.listed[s.enablers[t].next].work == Finishing
    requires s.listed[s.enablers[t].next].params.ntimes > 1
    ensures var i := s.enablers[t].next;
      var between := Step(Step(s, EnableReset(t)), WorkStep(false, i));
      var now := Step(between, EnableSubmit(t));
      Enabled(between, EnableSubmit(t)) && now.listed[i].work == Queued && now.listed[i].cur == 1
  {
  }

  /** Four steps of a work that is the only process: it stands before the end of its round. */
  lemma {:induction false} FourSteps(s: State, ap: Ap)
    requires s.listed == [ap] && ap.work == Queued && ap.params.scanType != NORMAL_SCAN
    ensures var w := WorkStep(false, 0);
      Run(s, [w, w] + [w] + [w]) == s.(listed := [ap.(work := Finishing)])
  {
    var w := WorkStep(false, 0);
    RunTwo(s, w, w);
    RunOne(s, [w, w], w);
    RunOne(s, [w, w] + [w], w);
    var s1 := s.(listed := [ap.(work := Started)]);
    assert Step(s, w) == s1;
    assert Step(s1, w) == s.(listed := [ap.(work := Prepared)]);
    assert Step(Step(s1, w), w) == s.(listed := [ap.(work := Scanning)]);
  }

  /** A run that leads there: enable begins, a process is added and scanned, enable goes on. */
  lemma {:induction false} ResetRaceIsReachable() returns (acts: seq<Action>)
    ensures var s := Run(INITIAL, acts);
      && Enabled(s, EnableReset(0)) && s.listed[s.enablers[0].next].work == Finishing
      && s.listed[s.enablers[0].next].params.ntimes > 1
  {
    var p, w := Payload(1, Params(0, 0, 0, 3, 0)), WorkStep(false, 0);
    var begin, add, work := [EnableBegin(0)], [AddBuild(1, [p]), AddMove(1)], [w, w] + [w] + [w];
    RunOne(INITIAL, [], EnableBegin(0));
    assert [] + [EnableBegin(0)] == begin;
    var s1 := Step(INITIAL, EnableBegin(0));
    AddToEmpty(s1, 1, p);
    RunAppend(INITIAL, begin, add);
    var s2 := Run(s1, add);
    assert s2.listed == [NewAp(p, true)] && WriteFree(s2);
    FourSteps(s2, s2.listed[0]);
    RunAppend(INITIAL, begin + add, work);
    RunOne(INITIAL, begin + add + work, EnableLock(0));
    acts := begin + add + work + [EnableLock(0)];
  }
}
