/**
 What the scan protocol delivers: the rounds of a scan work, in any interleaving with other processes, and
 the lists that adding processes builds.
 */
module ScanRounds {
  import opened Common
  import opened ScanProtocol

  // ---------------------------------------------------------------- the end of a round

  /** Step `a` ends a round of process `ap`, which it leaves as `now`. */
  ghost predicate EndsRound(s: State, a: Action, ap: Ap, now: Ap) {
    && a.WorkStep? && Enabled(s, a)
    && (if a.orphan then s.orphans[a.i] == ap && Step(s, a).orphans[a.i] == now
        else s.listed[a.i] == ap && Step(s, a).listed[a.i] == now)
    && ap.work == Finishing
  }

  /**
   A round that ends counts as one.  It signals completion exactly when the rounds asked for are over, and
   then nothing is queued; otherwise the next round is queued and nothing is signalled.
   */
  lemma RoundEnds(s: State, a: Action, ap: Ap, now: Ap)
    requires EndsRound(s, a, ap, now) && !ap.done
    ensures now.pid == ap.pid && now.params == ap.params && now.cur == ap.cur + 1
    ensures now.done <==> now.cur >= ap.params.ntimes
    ensures now.work == if now.done then Idle else Queued
  {
  }

  // ---------------------------------------------------------------- a work left alone

  /** Step `a` is a step of the scan work of listed process `p`. */
  predicate WorksOn(s: State, a: Action, p: int) {
    a.WorkStep? && !a.orphan && Enabled(s, a) && s.listed[a.i].pid == p
  }

  /** Step `a` enables, updates or removes process `p`. */
  predicate Disturbs(s: State, a: Action, p: int) {
    Enabled(s, a) &&
    match a
    case EnableReset(t) => s.listed[s.enablers[t].next].pid == p
    case EnableSubmit(t) => s.listed[s.enablers[t].next].pid == p
    case AddMove(t) => exists j | 0 <= j < |s.adders[t]| :: s.adders[t][j].pid == p
    case RemoveUnlink(i) => s.listed[i].pid == p
    case _ => false
  }

  ghost predicate LeftAlone(s: State, acts: seq<Action>, p: int) {
    forall k | 0 <= k < |acts| :: !Disturbs(Run(s, acts[..k]), acts[k], p)
  }

  /** The steps of the work of `p` in the run. */
  function WorkSteps(s: State, acts: seq<Action>, p: int): nat {
    if acts == [] then 0
    else
      var n := |acts| - 1;
      WorkSteps(s, acts[..n], p) + if WorksOn(Run(s, acts[..n]), acts[n], p) then 1 else 0
  }

  /** The rounds that a queued work has before it. */
  function Rounds(ap: Ap): nat {
    if ap.params.ntimes > ap.cur + 1 then ap.params.ntimes - ap.cur else 1
  }

  /** The last round of a normal scan has one step more, the wait for the write lock. */
  function LastLen(ap: Ap): nat {
    if ap.params.scanType == NORMAL_SCAN then 6 else 5
  }

  /** The steps that a queued work has before it. */
  function StepsLeft(ap: Ap): nat {
    5 * (Rounds(ap) - 1) + LastLen(ap)
  }

  /** Where a work is `m` steps into a round. */
  function PhaseNo(m: nat, waits: bool): Work {
    if m == 0 then Queued
    else if m == 1 then Started
    else if m == 2 && waits then Waiting
    else
      match if waits then m - 1 else m
      case 2 => Prepared
      case 3 => Scanning
      case _ => Finishing
  }

  /** The process after `n` steps of its work from the queue. */
  function AfterSteps(ap: Ap, n: nat): Ap {
    var before := 5 * (Rounds(ap) - 1);
    if n < before then ap.(cur := ap.cur + n / 5, work := PhaseNo(n % 5, false))
    else if n < StepsLeft(ap) then
      ap.(cur := ap.cur + Rounds(ap) - 1, work := PhaseNo(n - before, ap.params.scanType == NORMAL_SCAN))
    else ap.(cur := ap.cur + Rounds(ap), work := Idle, done := true)
  }

  lemma {:induction false} OneStepOn(ap: Ap, n: nat)
    requires ap.work == Queued && !ap.done && n < StepsLeft(ap)
    ensures WorkNext(AfterSteps(ap, n)) == AfterSteps(ap, n + 1)
  {
  }

  lemma {:induction false} UpdateOther(listed: seq<Ap>, pending: seq<Payload>, i: nat)
    requires i < |listed| && forall j | 0 <= j < |pending| :: pending[j].pid != listed[i].pid
    ensures UpdateAll(listed, pending)[i] == listed[i]
    decreases |pending|
  {
    if pending != [] {
      UpdateOneOther(listed, pending[0], i);
      UpdateOther(UpdateOne(listed, pending[0]), pending[1..], i);
    }
  }

  /** One update leaves processes with another pid alone. */
  lemma {:induction false} UpdateOneOther(listed: seq<Ap>, p: Payload, i: nat)
    requires i < |listed| && listed[i].pid != p.pid
    ensures UpdateOne(listed, p)[i] == listed[i]
    decreases i
  {
    if i > 0 && listed[0].pid != p.pid {
      UpdateOneOther(listed[1..], p, i - 1);
    }
  }

  /** The first process with the pid takes over the parameters. */
  lemma {:induction false} UpdateOneSame(listed: seq<Ap>, p: Payload, i: nat)
    requires i < |listed| && listed[i].pid == p.pid && forall k | 0 <= k < i :: listed[k].pid != p.pid
    ensures UpdateOne(listed, p)[i] == listed[i].(params := p.params)
    decreases i
  {
    if i > 0 {
      var rest := listed[1..];
      assert forall k | 0 <= k < i - 1 :: rest[k] == listed[k + 1];
      UpdateOneSame(rest, p, i - 1);
    }
  }

  /** Appending keeps what is there. */
  lemma {:induction false} AppendPrefix(listed: seq<Ap>, known: seq<Ap>, pending: seq<Payload>, enableOn: bool)
    ensures listed <= AppendNew(listed, known, pending, enableOn)
    decreases |pending|
  {
    if pending != [] {
      if HasPid(known, pending[0].pid) {
        AppendPrefix(listed, known, pending[1..], enableOn);
      } else {
        AppendPrefix(listed + [NewAp(pending[0], enableOn)], known, pending[1..], enableOn);
      }
    }
  }

  lemma {:induction false} MoveOther(listed: seq<Ap>, pending: seq<Payload>, enableOn: bool, i: nat)
    requires i < |listed| && forall j | 0 <= j < |pending| :: pending[j].pid != listed[i].pid
    ensures i < |MoveToList(listed, pending, enableOn)| && MoveToList(listed, pending, enableOn)[i] == listed[i]
  {
    UpdateOther(listed, pending, i);
    AppendPrefix(UpdateAll(listed, pending), listed, pending, enableOn);
  }

  /** Only its own work moves an undisturbed process. */
  lemma {:induction false} StepOn(s: State, a: Action, ap: Ap)
    requires Base(s) && ap in s.listed && !Disturbs(s, a, ap.pid)
    ensures WorksOn(s, a, ap.pid) ==> !ap.work.Idle? && WorkNext(ap) in Step(s, a).listed
    ensures !WorksOn(s, a, ap.pid) ==> ap in Step(s, a).listed
  {
    var i :| 0 <= i < |s.listed| && s.listed[i] == ap;
    if Enabled(s, a) {
      var r := Step(s, a).listed;
      match a
      case EnableReset(t) => assert r[i] == ap;
      case EnableSubmit(t) => assert r[i] == ap;
      case AddMove(t) => MoveOther(s.listed, s.adders[t], s.enableOn, i);
      case RemoveUnlink(k) => assert r[if i < k then i else i - 1] == ap;
      case WorkStep(orphan, k) =>
        if !orphan {
          assert r[i] == if k == i then WorkNext(ap) else ap;
        }
      case _ =>
    }
  }

  /** The process is in the list as `m` steps of its work left it. */
  ghost predicate OnCourse(s: State, ap: Ap, m: nat) {
    Base(s) && m <= StepsLeft(ap) && AfterSteps(ap, m) in s.listed
  }

  lemma {:induction false} CourseStep(s: State, a: Action, ap: Ap, m: nat)
    requires ap.work == Queued && !ap.done && OnCourse(s, ap, m) && !Disturbs(s, a, ap.pid)
    ensures OnCourse(Step(s, a), ap, m + if WorksOn(s, a, ap.pid) then 1 else 0)
  {
    StepKeepsBase(s, a);
    StepOn(s, a, AfterSteps(ap, m));
    if m < StepsLeft(ap) {
      OneStepOn(ap, m);
    }
  }

  lemma {:induction false} LeftAloneFront(s: State, acts: seq<Action>, p: int)
    requires acts != [] && LeftAlone(s, acts, p)
    ensures var n := |acts| - 1; LeftAlone(s, acts[..n], p) && !Disturbs(Run(s, acts[..n]), acts[n], p)
  {
    var n := |acts| - 1;
    assert forall k | 0 <= k < n :: acts[..n][..k] == acts[..k];
  }

  lemma {:induction false} CourseRun(s: State, acts: seq<Action>, ap: Ap)
    requires ap.work == Queued && !ap.done && OnCourse(s, ap, 0) && LeftAlone(s, acts, ap.pid)
    ensures OnCourse(Run(s, acts), ap, WorkSteps(s, acts, ap.pid))
    decreases |acts|
  {
    if acts != [] {
      var n := |acts| - 1;
      LeftAloneFront(s, acts, ap.pid);
      CourseRun(s, acts[..n], ap);
      CourseStep(Run(s, acts[..n]), acts[n], ap, WorkSteps(s, acts[..n], ap.pid));
    }
  }

  /**
   In every interleaving: a work queued with `cur` rounds behind it and left alone scans and signals after
   exactly max(1, ntimes - cur) rounds, not before and not later.  A round is five steps, and six if it is
   the last one of a normal scan, which waits for the write lock.
   */
  lemma {:induction false} SignalsAfterRounds(acts: seq<Action>, more: seq<Action>, ap: Ap) returns (now: Ap)
    requires ap in Run(INITIAL, acts).listed && ap.work == Queued
    requires LeftAlone(Run(INITIAL, acts), more, ap.pid)
    ensures var n := WorkSteps(Run(INITIAL, acts), more, ap.pid);
      var left := if ap.params.ntimes - ap.cur > 1 then ap.params.ntimes - ap.cur else 1;
      var all := 5 * left + if ap.params.scanType == NORMAL_SCAN then 1 else 0;
      && now in Run(INITIAL, acts + more).listed && now.pid == ap.pid && now.params == ap.params
      && n <= all && (now.done <==> n == all) && (now.work == Idle <==> n == all)
      && (n == all ==> now.cur == ap.cur + left)
      && (n < all ==> now.cur == ap.cur + if n / 5 < left then n / 5 else left - 1)
      && (now.work == Queued <==> n < 5 * left && n % 5 == 0)
      && (now.work == Waiting <==> ap.params.scanType == NORMAL_SCAN && n == 5 * (left - 1) + 2)
      && (now.work == Scanning <==>
          if ap.params.scanType == NORMAL_SCAN && n >= 5 * (left - 1) then n == 5 * left - 1 else n < all && n % 5 == 3)
  {
    PidsStayDistinct(acts);
    RunAppend(INITIAL, acts, more);
    assert AfterSteps(ap, 0) == ap;
    CourseRun(Run(INITIAL, acts), more, ap);
    now := AfterSteps(ap, WorkSteps(Run(INITIAL, acts), more, ap.pid));
  }

  // ---------------------------------------------------------------- what adding builds

  /** A payload entry that is not skipped: a pid, and not the listed entry over again. */
  predicate Kept(listed: seq<Ap>, p: Payload) {
    p.pid >= 0 && forall i | 0 <= i < |listed| ::
      !(listed[i].pid == p.pid && listed[i].params.numaNodes == p.params.numaNodes
        && listed[i].params.scanTime == p.params.scanTime && listed[i].params.scanType == p.params.scanType
        && listed[i].params.ntimes == p.params.ntimes)
  }

  /** The payload entries that are not skipped, in order. */
  function KeptOf(listed: seq<Ap>, payload: seq<Payload>): seq<Payload> {
    if payload == [] then []
    else
      var n := |payload| - 1;
      KeptOf(listed, payload[..n]) + if Kept(listed, payload[n]) then [payload[n]] else []
  }

  /** A payload is accepted exactly when no pid is kept twice; then the kept entries are added. */
  lemma {:induction false} BuildIs(listed: seq<Ap>, payload: seq<Payload>)
    ensures Build(listed, payload).Some? <==> DistinctPayload(KeptOf(listed, payload))
    ensures Build(listed, payload).Some? ==> Build(listed, payload).value == KeptOf(listed, payload)
    decreases |payload|
  {
    if payload != [] {
      var n := |payload| - 1;
      var front, p := KeptOf(listed, payload[..n]), payload[n];
      BuildIs(listed, payload[..n]);
      assert Kept(listed, p) <==> !(p.pid < 0 || exists i | 0 <= i < |listed| :: SameEntry(listed[i], p));
      var all := front + [p];
      assert forall i | 0 <= i < |front| :: all[i] == front[i];
      if exists i | 0 <= i < |front| :: front[i].pid == p.pid {
        var i :| 0 <= i < |front| && front[i].pid == p.pid;
        assert all[i].pid == all[|front|].pid && !DistinctPayload(all);
      }
      if DistinctPayload(all) {
        assert DistinctPayload(front);
      }
    }
  }

  /** An updated process takes over the parameters and keeps everything else. */
  lemma {:induction false} UpdateAt(listed: seq<Ap>, pending: seq<Payload>, i: nat, j: nat)
    requires DistinctPids(listed) && DistinctPayload(pending)
    requires i < |listed| && j < |pending| && listed[i].pid == pending[j].pid
    ensures UpdateAll(listed, pending)[i] == listed[i].(params := pending[j].params)
    decreases |pending|
  {
    var next := UpdateOne(listed, pending[0]);
    if j == 0 {
      UpdateOneSame(listed, pending[0], i);
      UpdateOther(next, pending[1..], i);
    } else {
      UpdateOneOther(listed, pending[0], i);
      UpdateAt(next, pending[1..], i, j - 1);
    }
  }

  /** `ap` is the new process for payload entry `p`: no round behind it, queued or complete as scanning is on or off. */
  predicate IsNew(ap: Ap, p: Payload, enableOn: bool) {
    && ap.pid == p.pid && ap.params == p.params && ap.cur == 0
    && (enableOn ==> ap.work == Queued && !ap.done) && (!enableOn ==> ap.work == Idle && ap.done)
  }

  /** Entry `k` of `r` is the new process for an entry of `pending` whose pid is not known. */
  ghost predicate Added(r: seq<Ap>, k: nat, known: seq<Ap>, pending: seq<Payload>, enableOn: bool) {
    k < |r| && exists j :: 0 <= j < |pending| && !HasPid(known, pending[j].pid) && IsNew(r[k], pending[j], enableOn)
  }

  /** Payload entry `j` has its new process in `r`, at `from` or later. */
  ghost predicate Appended(r: seq<Ap>, from: nat, p: Payload, enableOn: bool) {
    exists k :: from <= k < |r| && IsNew(r[k], p, enableOn)
  }

  lemma {:induction false} AppendIs(listed: seq<Ap>, known: seq<Ap>, pending: seq<Payload>, enableOn: bool, from: nat)
    requires from <= |listed|
    ensures var r := AppendNew(listed, known, pending, enableOn);
      && listed <= r
      && (forall k | |listed| <= k < |r| :: Added(r, k, known, pending, enableOn))
      && (forall j | 0 <= j < |pending| :: !HasPid(known, pending[j].pid) ==> Appended(r, from, pending[j], enableOn))
    decreases |pending|
  {
    var r := AppendNew(listed, known, pending, enableOn);
    AppendPrefix(listed, known, pending, enableOn);
    if pending != [] {
      var p := pending[0];
      var next := if HasPid(known, p.pid) then listed else listed + [NewAp(p, enableOn)];
      AppendIs(next, known, pending[1..], enableOn, from);
      forall k | |listed| <= k < |r| ensures Added(r, k, known, pending, enableOn) {
        if k < |next| {
          assert IsNew(r[k], pending[0], enableOn);
        } else {
          assert Added(r, k, known, pending[1..], enableOn);
          var j :| 0 <= j < |pending| - 1 && !HasPid(known, pending[1..][j].pid) && IsNew(r[k], pending[1..][j], enableOn);
          assert pending[j + 1] == pending[1..][j];
        }
      }
      forall j | 0 <= j < |pending| && !HasPid(known, pending[j].pid) ensures Appended(r, from, pending[j], enableOn) {
        if j == 0 {
          assert IsNew(r[|listed|], p, enableOn);
        } else {
          assert pending[1..][j - 1] == pending[j];
        }
      }
    }
  }

  /**
   move_to_ap_data_list: a listed process named in the payload takes over its parameters and keeps its work and
   its rounds, the other listed ones stay as they are, and the rest of the list is exactly the new processes.
   */
  lemma {:induction false} MoveIs(listed: seq<Ap>, pending: seq<Payload>, enableOn: bool)
    requires DistinctPids(listed) && DistinctPayload(pending)
    ensures var r := MoveToList(listed, pending, enableOn);
      && |listed| <= |r|
      && (forall i, j | 0 <= i < |listed| && 0 <= j < |pending| && listed[i].pid == pending[j].pid ::
          r[i] == listed[i].(params := pending[j].params))
      && (forall i | 0 <= i < |listed| && (forall j | 0 <= j < |pending| :: pending[j].pid != listed[i].pid) ::
          r[i] == listed[i])
      && (forall k | |listed| <= k < |r| :: Added(r, k, listed, pending, enableOn))
      && (forall j | 0 <= j < |pending| && !HasPid(listed, pending[j].pid) ::
          Appended(r, |listed|, pending[j], enableOn))
  {
    var updated, r := UpdateAll(listed, pending), MoveToList(listed, pending, enableOn);
    AppendIs(updated, listed, pending, enableOn, |listed|);
    forall i, j | 0 <= i < |listed| && 0 <= j < |pending| && listed[i].pid == pending[j].pid
      ensures r[i] == listed[i].(params := pending[j].params)
    {
      UpdateAt(listed, pending, i, j);
    }
    forall i | 0 <= i < |listed| && (forall j | 0 <= j < |pending| :: pending[j].pid != listed[i].pid)
      ensures r[i] == listed[i]
    {
      UpdateOther(listed, pending, i);
    }
  }
}
