/**
 The enable / disable / add / remove / scan-work protocol of access_tracking.c and access_pid.c as a
 state machine.  A step is what one thread does between two lock operations; steps of different
 threads interleave freely.  Sections under the write side of ap_data.lock are single steps that
 need every reader gone; readers are scan works inside the bitmap scan and enable calls that are
 submitting works.
 */
module ScanProtocol {
  import opened Common

  const NORMAL_SCAN: int := 1

  datatype Params = Params(numaNodes: nat, scanTime: nat, scanType: int, ntimes: nat, pidType: nat)

  /** Where the scan work of a process is; Waiting is before the write lock of a last round. */
  datatype Work = Idle | Queued | Started | Waiting | Prepared | Scanning | Finishing {
    /** The work function is on a worker thread. */
    predicate Running() {
      !Idle? && !Queued?
    }
  }

  /** A tracked process; `done` is the state of its completion. */
  datatype Ap = Ap(pid: int, params: Params, cur: nat, work: Work, done: bool)

  datatype Payload = Payload(pid: int, params: Params)

  /**
   An enable call: enable_on is set, or it holds the read lock and submits works one by one.  It resets
   the round counter of a process first and then waits for the old work before it queues the new one.
   */
  datatype EnablePhase = Begun | Submitting(next: nat, reset: bool)

  datatype State = State(
    enableOn: bool,
    listed: seq<Ap>,
    orphans: seq<Ap>,
    adders: map<nat, seq<Payload>>,
    enablers: map<nat, EnablePhase>)

  datatype Action =
    | EnableBegin(t: nat) | EnableLock(t: nat) | EnableReset(t: nat) | EnableSubmit(t: nat) | EnableUnlock(t: nat)
    | Disable
    | AddBuild(t: nat, payload: seq<Payload>) | AddMove(t: nat)
    | RemoveUnlink(i: nat) | RemoveDestroy(i: nat)
    | WorkStep(orphan: bool, i: nat)

  const INITIAL: State := State(false, [], [], map[], map[])

  // ---------------------------------------------------------------- the list operations

  /** Some entry of the list has this pid. */
  predicate HasPid(aps: seq<Ap>, pid: int) {
    exists i | 0 <= i < |aps| :: aps[i].pid == pid
  }

  /** An entry equal to the payload in everything but the pid type. */
  predicate SameEntry(ap: Ap, p: Payload) {
    && ap.pid == p.pid && ap.params.numaNodes == p.params.numaNodes && ap.params.scanTime == p.params.scanTime
    && ap.params.scanType == p.params.scanType && ap.params.ntimes == p.params.ntimes
  }

  /** The payload entries to add; None when the payload names a pid twice. */
  function Build(listed: seq<Ap>, payload: seq<Payload>): Option<seq<Payload>> {
    if payload == [] then Some([])
    else
      var n := |payload| - 1;
      var front := Build(listed, payload[..n]);
      var p := payload[n];
      if front.None? then None
      else if p.pid < 0 || exists i | 0 <= i < |listed| :: SameEntry(listed[i], p) then front
      else if exists i | 0 <= i < |front.value| :: front.value[i].pid == p.pid then None
      else Some(front.value + [p])
  }

  /** The first entry with the payload's pid takes over its parameters. */
  function UpdateOne(listed: seq<Ap>, p: Payload): (r: seq<Ap>)
    ensures |r| == |listed|
    ensures forall i | 0 <= i < |r| ::
      r[i].pid == listed[i].pid && r[i].work == listed[i].work && r[i].done == listed[i].done
  {
    if listed == [] then []
    else if listed[0].pid == p.pid then [listed[0].(params := p.params)] + listed[1..]
    else [listed[0]] + UpdateOne(listed[1..], p)
  }

  function UpdateAll(listed: seq<Ap>, pending: seq<Payload>): (r: seq<Ap>)
    ensures |r| == |listed|
    ensures forall i | 0 <= i < |r| ::
      r[i].pid == listed[i].pid && r[i].work == listed[i].work && r[i].done == listed[i].done
    decreases |pending|
  {
    if pending == [] then listed else UpdateAll(UpdateOne(listed, pending[0]), pending[1..])
  }

  /** A new process: queued at once while scanning is enabled, marked complete otherwise. */
  function NewAp(p: Payload, enableOn: bool): Ap {
    Ap(p.pid, p.params, 0, if enableOn then Queued else Idle, !enableOn)
  }

  function AppendNew(listed: seq<Ap>, known: seq<Ap>, pending: seq<Payload>, enableOn: bool): seq<Ap>
    decreases |pending|
  {
    if pending == [] then listed
    else if HasPid(known, pending[0].pid) then AppendNew(listed, known, pending[1..], enableOn)
    else AppendNew(listed + [NewAp(pending[0], enableOn)], known, pending[1..], enableOn)
  }

  /** move_to_ap_data_list: update the pids that are listed, append the others. */
  function MoveToList(listed: seq<Ap>, pending: seq<Payload>, enableOn: bool): seq<Ap> {
    AppendNew(UpdateAll(listed, pending), listed, pending, enableOn)
  }

  // ---------------------------------------------------------------- steps

  /** No reader holds ap_data.lock. */
  predicate WriteFree(s: State) {
    && (forall i | 0 <= i < |s.listed| :: !s.listed[i].work.Scanning?)
    && (forall i | 0 <= i < |s.orphans| :: !s.orphans[i].work.Scanning?)
    && (forall t | t in s.enablers :: s.enablers[t].Begun?)
  }

  predicate AllDone(s: State) {
    forall i | 0 <= i < |s.listed| :: s.listed[i].done
  }

  /** This round is the last one, for which the bitmaps are reallocated under the write lock. */
  predicate LastScanning(ap: Ap) {
    ap.params.scanType == NORMAL_SCAN && ap.cur + 1 >= ap.params.ntimes
  }

  predicate WorkEnabled(s: State, ap: Ap) {
    match ap.work
    case Idle => false
    case Waiting => WriteFree(s)
    case _ => true
  }

  /** One step of access_work_func. */
  function WorkNext(ap: Ap): Ap
    requires !ap.work.Idle?
  {
    match ap.work
    case Queued => ap.(work := Started)
    case Started => if LastScanning(ap) then ap.(work := Waiting) else ap.(work := Prepared)
    case Waiting => ap.(work := Prepared)
    case Prepared => ap.(work := Scanning)
    case Scanning => ap.(work := Finishing)
    case Finishing =>
      if ap.cur + 1 < ap.params.ntimes then ap.(cur := ap.cur + 1, work := Queued)
      else ap.(cur := ap.cur + 1, work := Idle, done := true)
  }

  predicate Enabled(s: State, a: Action) {
    match a
    case EnableBegin(t) => t !in s.enablers
    case EnableLock(t) => t in s.enablers && s.enablers[t].Begun?
    case EnableReset(t) =>
      t in s.enablers && s.enablers[t].Submitting? && !s.enablers[t].reset && s.enablers[t].next < |s.listed|
    // cancel_delayed_work_sync waits for a running work before the work is queued anew
    case EnableSubmit(t) =>
      && t in s.enablers && s.enablers[t].Submitting? && s.enablers[t].reset
      && s.enablers[t].next < |s.listed| && !s.listed[s.enablers[t].next].work.Running()
    case EnableUnlock(t) =>
      t in s.enablers && s.enablers[t].Submitting? && s.enablers[t].next >= |s.listed|
    case Disable => WriteFree(s)
    case AddBuild(t, payload) => t !in s.adders && Build(s.listed, payload).Some?
    case AddMove(t) => t in s.adders && WriteFree(s)
    case RemoveUnlink(i) => i < |s.listed| && WriteFree(s)
    case RemoveDestroy(i) => i < |s.orphans| && !s.orphans[i].work.Running()
    case WorkStep(orphan, i) =>
      var aps := if orphan then s.orphans else s.listed;
      i < |aps| && WorkEnabled(s, aps[i])
  }

  function Apply(s: State, a: Action): State
    requires Enabled(s, a)
  {
    match a
    case EnableBegin(t) => s.(enableOn := true, enablers := s.enablers[t := Begun])
    case EnableLock(t) => s.(enablers := s.enablers[t := Submitting(0, false)])
    case EnableReset(t) =>
      var i := s.enablers[t].next;
      s.(listed := s.listed[i := s.listed[i].(cur := 0)], enablers := s.enablers[t := Submitting(i, true)])
    case EnableSubmit(t) =>
      var i := s.enablers[t].next;
      s.(listed := s.listed[i := s.listed[i].(work := Queued, done := false)],
         enablers := s.enablers[t := Submitting(i + 1, false)])
    case EnableUnlock(t) => s.(enablers := s.enablers - {t})
    case Disable => if AllDone(s) then s.(enableOn := false) else s
    case AddBuild(t, payload) => s.(adders := s.adders[t := Build(s.listed, payload).value])
    case AddMove(t) =>
      s.(listed := MoveToList(s.listed, s.adders[t], s.enableOn), adders := s.adders - {t})
    case RemoveUnlink(i) =>
      s.(listed := s.listed[..i] + s.listed[i + 1..], orphans := s.orphans + [s.listed[i]])
    case RemoveDestroy(i) => s.(orphans := s.orphans[..i] + s.orphans[i + 1..])
    case WorkStep(orphan, i) =>
      if orphan then s.(orphans := s.orphans[i := WorkNext(s.orphans[i])])
      else s.(listed := s.listed[i := WorkNext(s.listed[i])])
  }

  /** Any schedule is a run: a step that cannot be taken leaves the state as it is. */
  function Step(s: State, a: Action): State {
    if Enabled(s, a) then Apply(s, a) else s
  }

  function Run(s: State, acts: seq<Action>): State {
    if acts == [] then s else Step(Run(s, acts[..|acts| - 1]), acts[|acts| - 1])
  }

  /** Disable returns 0 in `s`. */
  predicate DisableSucceeds(s: State) {
    WriteFree(s) && AllDone(s)
  }

  // ---------------------------------------------------------------- the invariant

  ghost predicate DistinctPids(aps: seq<Ap>) {
    forall i, j | 0 <= i < j < |aps| :: aps[i].pid != aps[j].pid
  }

  ghost predicate DistinctPayload(ps: seq<Payload>) {
    forall i, j | 0 <= i < j < |ps| :: ps[i].pid != ps[j].pid
  }

  /** A signalled completion means that nothing is queued or running. */
  predicate Settled(ap: Ap) {
    ap.done ==> ap.work.Idle?
  }

  /** No listed process has a queued or running scan. */
  ghost predicate Quiet(s: State) {
    forall i | 0 <= i < |s.listed| :: s.listed[i].work.Idle?
  }

  ghost predicate Base(s: State) {
    && DistinctPids(s.listed)
    && (forall i | 0 <= i < |s.listed| :: Settled(s.listed[i]))
    && (forall t | t in s.adders :: DistinctPayload(s.adders[t]))
  }

  ghost predicate Inv(s: State) {
    Base(s) && (!s.enableOn ==> s.enablers == map[] && Quiet(s))
  }

  lemma {:induction false} BuildDistinct(listed: seq<Ap>, payload: seq<Payload>)
    requires Build(listed, payload).Some?
    ensures DistinctPayload(Build(listed, payload).value)
    decreases |payload|
  {
    if payload != [] {
      BuildDistinct(listed, payload[..|payload| - 1]);
    }
  }

  lemma {:induction false} AppendKeeps(listed: seq<Ap>, known: seq<Ap>, pending: seq<Payload>, enableOn: bool)
    requires DistinctPids(listed) && DistinctPayload(pending)
    requires forall i | 0 <= i < |listed| :: Settled(listed[i])
    requires forall i, j | 0 <= i < |listed| && 0 <= j < |pending| ::
      listed[i].pid == pending[j].pid ==> HasPid(known, pending[j].pid)
    ensures var r := AppendNew(listed, known, pending, enableOn);
      && DistinctPids(r)
      && (forall i | 0 <= i < |r| :: Settled(r[i]))
      && (!enableOn && (forall i | 0 <= i < |listed| :: listed[i].work.Idle?) ==>
          forall i | 0 <= i < |r| :: r[i].work.Idle?)
    decreases |pending|
  {
    if pending != [] {
      if HasPid(known, pending[0].pid) {
        AppendKeeps(listed, known, pending[1..], enableOn);
      } else {
        AppendKeeps(listed + [NewAp(pending[0], enableOn)], known, pending[1..], enableOn);
      }
    }
  }

  lemma MoveKeeps(listed: seq<Ap>, pending: seq<Payload>, enableOn: bool)
    requires DistinctPids(listed) && DistinctPayload(pending)
    requires forall i | 0 <= i < |listed| :: Settled(listed[i])
    ensures var r := MoveToList(listed, pending, enableOn);
      && DistinctPids(r)
      && (forall i | 0 <= i < |r| :: Settled(r[i]))
      && (!enableOn && (forall i | 0 <= i < |listed| :: listed[i].work.Idle?) ==>
          forall i | 0 <= i < |r| :: r[i].work.Idle?)
  {
    AppendKeeps(UpdateAll(listed, pending), listed, pending, enableOn);
  }

  lemma ReplaceKeeps(listed: seq<Ap>, i: nat, ap: Ap)
    requires DistinctPids(listed) && i < |listed| && ap.pid == listed[i].pid && Settled(ap)
    requires forall k | 0 <= k < |listed| :: Settled(listed[k])
    ensures var r := listed[i := ap];
      DistinctPids(r) && forall k | 0 <= k < |r| :: Settled(r[k])
  {
  }

  lemma UnlinkKeeps(listed: seq<Ap>, i: nat)
    requires DistinctPids(listed) && i < |listed|
    requires forall k | 0 <= k < |listed| :: Settled(listed[k])
    ensures var r := listed[..i] + listed[i + 1..];
      && DistinctPids(r)
      && (forall k | 0 <= k < |r| :: Settled(r[k]))
      && (forall k | 0 <= k < |r| :: r[k] in listed)
  {
    var r := listed[..i] + listed[i + 1..];
    assert forall k | 0 <= k < |r| :: r[k] == if k < i then listed[k] else listed[k + 1];
  }

  lemma StepKeepsBase(s: State, a: Action)
    requires Base(s)
    ensures Base(Step(s, a))
  {
    if Enabled(s, a) {
      match a
      case EnableReset(t) =>
        var i := s.enablers[t].next;
        ReplaceKeeps(s.listed, i, s.listed[i].(cur := 0));
      case EnableSubmit(t) =>
        var i := s.enablers[t].next;
        ReplaceKeeps(s.listed, i, s.listed[i].(work := Queued, done := false));
      case AddBuild(t, payload) => BuildDistinct(s.listed, payload);
      case AddMove(t) => MoveKeeps(s.listed, s.adders[t], s.enableOn);
      case RemoveUnlink(i) => UnlinkKeeps(s.listed, i);
      case WorkStep(orphan, i) =>
        if !orphan {
          ReplaceKeeps(s.listed, i, WorkNext(s.listed[i]));
        }
      case _ =>
    }
  }

  /** Every step keeps the invariant, except a disable that takes effect under an enable call. */
  lemma StepKeepsInv(s: State, a: Action)
    requires Inv(s)
    requires a.Disable? && DisableSucceeds(s) ==> s.enablers == map[]
    ensures Inv(Step(s, a))
  {
    StepKeepsBase(s, a);
    if Enabled(s, a) {
      match a
      case AddMove(t) => MoveKeeps(s.listed, s.adders[t], s.enableOn);
      case RemoveUnlink(i) => UnlinkKeeps(s.listed, i);
      case _ =>
    }
  }

  // ---------------------------------------------------------------- disable

  ghost predicate NoEnable(acts: seq<Action>) {
    forall k | 0 <= k < |acts| :: !acts[k].EnableBegin?
  }

  lemma {:induction false} StaysDisabled(s: State, acts: seq<Action>)
    requires Inv(s) && !s.enableOn && NoEnable(acts)
    ensures Inv(Run(s, acts)) && !Run(s, acts).enableOn
    decreases |acts|
  {
    if acts != [] {
      var n := |acts| - 1;
      StaysDisabled(s, acts[..n]);
      StepKeepsInv(Run(s, acts[..n]), acts[n]);
    }
  }

  lemma {:induction false} RunAppend(s: State, xs: seq<Action>, ys: seq<Action>)
    ensures Run(s, xs + ys) == Run(Run(s, xs), ys)
    decreases |ys|
  {
    if ys == [] {
      assert xs + ys == xs;
    } else {
      var n := |ys| - 1;
      assert (xs + ys)[..|xs + ys| - 1] == xs + ys[..n];
      RunAppend(s, xs, ys[..n]);
    }
  }

  /** Listed pids are distinct in every interleaving whatever. */
  lemma {:induction false} PidsStayDistinct(acts: seq<Action>)
    ensures Base(Run(INITIAL, acts))
    decreases |acts|
  {
    if acts != [] {
      PidsStayDistinct(acts[..|acts| - 1]);
      StepKeepsBase(Run(INITIAL, acts[..|acts| - 1]), acts[|acts| - 1]);
    }
  }

  /**
   In every interleaving: once disable has returned 0 with no enable call under way, no listed
   process has a queued or running scan and none gets one until the next enable; listed pids are
   pairwise distinct throughout.
   */
  lemma {:induction false} DisableQuiesces(acts: seq<Action>, later: seq<Action>)
    requires DisableSucceeds(Run(INITIAL, acts)) && Run(INITIAL, acts).enablers == map[]
    requires NoEnable(later)
    ensures var s := Run(INITIAL, acts + [Disable] + later);
      Quiet(s) && !s.enableOn && DistinctPids(s.listed)
  {
    PidsStayDistinct(acts);
    var s := Run(INITIAL, acts);
    StepKeepsInv(s, Disable);
    assert (acts + [Disable])[..|acts|] == acts;
    RunAppend(INITIAL, acts + [Disable], later);
    StaysDisabled(Step(s, Disable), later);
  }

  // ---------------------------------------------------------------- the condition is exact

  /** Nothing gets scanned after a disable in `s` until the next enable. */
  ghost predicate DisableHolds(s: State) {
    forall later: seq<Action> :: NoEnable(later) ==> Quiet(Run(Step(s, Disable), later))
  }

  lemma RunOne(s: State, acts: seq<Action>, a: Action)
    ensures Run(s, acts + [a]) == Step(Run(s, acts), a)
  {
    assert (acts + [a])[..|acts|] == acts;
  }

  lemma RunTwo(s: State, a: Action, b: Action)
    ensures Run(s, [a, b]) == Step(Step(s, a), b)
  {
    RunOne(s, [], a);
    RunOne(s, [a], b);
    assert [] + [a] == [a] && [a] + [b] == [a, b];
  }

  /** What is left of an enable call that had only set enable_on. */
  function RestOfEnable(t: nat): seq<Action> {
    [EnableLock(t), EnableReset(t)] + [EnableSubmit(t)]
  }

  /** It goes on to queue the first listed process. */
  lemma EnableOvertakes(s: State, t: nat)
    requires |s.listed| > 0 && t in s.enablers && s.enablers[t].Begun? && !s.listed[0].work.Running()
    ensures !Quiet(Run(s, RestOfEnable(t)))
  {
    RunTwo(s, EnableLock(t), EnableReset(t));
    RunOne(s, [EnableLock(t), EnableReset(t)], EnableSubmit(t));
    var s1 := Step(s, EnableLock(t));
    assert Enabled(s1, EnableReset(t));
    var s2 := Step(s1, EnableReset(t));
    assert Enabled(s2, EnableSubmit(t));
    assert Step(s2, EnableSubmit(t)).listed[0].work == Queued;
  }

  /** A process can be added to an empty list at any time when no reader is in. */
  lemma AddToEmpty(s: State, a: nat, p: Payload)
    requires s.listed == [] && WriteFree(s) && a !in s.adders && p.pid >= 0
    ensures var s' := Run(s, [AddBuild(a, [p]), AddMove(a)]);
      s'.listed == [NewAp(p, s.enableOn)] && s'.orphans == s.orphans && s'.enablers == s.enablers
  {
    RunTwo(s, AddBuild(a, [p]), AddMove(a));
    BuildOne(s.listed, p);
    var s1, added := Step(s, AddBuild(a, [p])), [NewAp(p, s.enableOn)];
    assert s1.adders[a] == [p] && Enabled(s1, AddMove(a));
    assert MoveToList(s1.listed, [p], s.enableOn) == added by {
      assert [p][1..] == [] && [] + added == added;
      assert UpdateAll(s1.listed, [p]) == [];
      assert AppendNew(added, s1.listed, [p][1..], s.enableOn) == added;
    }
  }

  lemma BuildOne(listed: seq<Ap>, p: Payload)
    requires listed == [] && p.pid >= 0
    ensures Build(listed, [p]) == Some([p])
  {
    var none: seq<Payload> := [p][..0];
    assert none == [];
    assert Build(listed, none) == Some(none);
    assert none + [p] == [p];
  }

  lemma FreshKey(m: map<nat, seq<Payload>>) returns (a: nat)
    ensures a !in m
  {
    a := MaxKey(m.Keys) + 1;
  }

  ghost function MaxKey(keys: set<nat>): (r: nat)
    ensures forall k | k in keys :: k <= r
  {
    if keys == {} then 0
    else
      var k :| k in keys;
      assert keys == keys - {k} + {k};
      var r := MaxKey(keys - {k});
      if k > r then k else r
  }

  lemma {:induction false} HoldsIff(s: State)
    requires Base(s) && DisableSucceeds(s)
    ensures DisableHolds(s) <==> s.enablers == map[]
  {
    var d := Step(s, Disable);
    if s.enablers == map[] {
      StepKeepsInv(s, Disable);
      forall later: seq<Action> | NoEnable(later) ensures Quiet(Run(d, later)) {
        StaysDisabled(d, later);
      }
    } else {
      var t :| t in s.enablers;
      if |d.listed| > 0 {
        EnableOvertakes(d, t);
        assert NoEnable(RestOfEnable(t));
      } else {
        AddThenOvertake(d, t);
      }
    }
  }

  lemma {:induction false} AddThenOvertake(d: State, t: nat)
    requires d.listed == [] && WriteFree(d) && t in d.enablers
    ensures exists later: seq<Action> :: NoEnable(later) && !Quiet(Run(d, later))
  {
    var a := FreshKey(d.adders);
    var p := Payload(1, Params(0, 0, 0, 1, 0));
    AddToEmpty(d, a, p);
    var add := [AddBuild(a, [p]), AddMove(a)];
    EnableOvertakes(Run(d, add), t);
    RunAppend(d, add, RestOfEnable(t));
    assert NoEnable(add + RestOfEnable(t));
  }

  /**
   In every interleaving: a disable that returns 0 holds until the next enable exactly when no enable
   call is under way; one that is will queue scans behind it.
   */
  lemma DisableHoldsIff(acts: seq<Action>)
    requires DisableSucceeds(Run(INITIAL, acts))
    ensures DisableHolds(Run(INITIAL, acts)) <==> Run(INITIAL, acts).enablers == map[]
  {
    PidsStayDistinct(acts);
    HoldsIff(Run(INITIAL, acts));
  }
}
