/**
 The admission flag of ap_data (access_pid.h): walk, bitmap read, mem_freq read and position
 conversion each test and clear the flag, work, and write the flag that admits the next stage.
 A step is one access to the flag under its spin lock.
 */
module AdmissionFlag {

  datatype Bit = WALK | READ | FREQ | MIG

  datatype Op = Walk | Read | Freq | Convert {
    /** The bit that check_and_clear_ap_state tests for the operation. */
    function Needs(): Bit {
      match this
      case Walk => WALK
      case Read => READ
      case Freq => FREQ
      case Convert => MIG
    }
  }

  /** How an admitted operation ends; only a bitmap read can end half-way. */
  datatype Outcome = Failed | Partial | Completed

  /** `inside`: threads between check and write; `rejected`: mem_freq reads that failed the check. */
  datatype State = State(flag: set<Bit>, inside: map<nat, Op>, rejected: set<nat>)

  datatype Action = Check(t: nat, op: Op) | Finish(t: nat, out: Outcome) | RejectWrite(t: nat)

  const INITIAL: State := State({WALK}, map[], {})

  /** The flag an admitted operation writes when it ends. */
  function After(op: Op, out: Outcome): set<Bit> {
    match op
    case Walk => if out.Failed? then {WALK} else {WALK, READ}
    case Read => if out.Failed? then {WALK} else if out.Completed? then {WALK, FREQ} else {WALK, READ}
    case Freq => if out.Failed? then {WALK, READ, FREQ} else {WALK, READ, FREQ, MIG}
    case Convert => {WALK, READ, FREQ, MIG}
  }

  predicate Enabled(s: State, a: Action) {
    match a
    case Check(t, _) => t !in s.inside && t !in s.rejected
    case Finish(t, _) => t in s.inside
    case RejectWrite(t) => t in s.rejected
  }

  /** A rejected mem_freq read still writes the flag on its way out; the others only return. */
  function Step(s: State, a: Action): State {
    if !Enabled(s, a) then s
    else
      match a
      case Check(t, op) =>
        if op.Needs() in s.flag then s.(flag := {}, inside := s.inside[t := op])
        else if op.Freq? then s.(rejected := s.rejected + {t})
        else s
      case Finish(t, out) => s.(flag := After(s.inside[t], out), inside := s.inside - {t})
      case RejectWrite(t) => s.(flag := {WALK, READ, FREQ}, rejected := s.rejected - {t})
  }

  function Run(s: State, acts: seq<Action>): State {
    if acts == [] then s else Step(Run(s, acts[..|acts| - 1]), acts[|acts| - 1])
  }

  /** Step `a` admits `op`. */
  predicate Admits(s: State, a: Action, op: Op) {
    Enabled(s, a) && a.Check? && a.op == op && op.Needs() in s.flag
  }

  /** Step `a` ends an admitted `op` with `out`. */
  predicate Ends(s: State, a: Action, op: Op, out: Outcome) {
    Enabled(s, a) && a.Finish? && s.inside[a.t] == op && a.out == out
  }

  /** Step `a` rejects a mem_freq read. */
  predicate RejectsFreq(s: State, a: Action) {
    Enabled(s, a) && a.Check? && a.op.Freq? && FREQ !in s.flag
  }

  /** No mem_freq read is rejected. */
  ghost predicate Clean(s: State, acts: seq<Action>) {
    forall k | 0 <= k < |acts| :: !RejectsFreq(Run(s, acts[..k]), acts[k])
  }

  /** At most one operation is between its check and its write. */
  ghost predicate Exclusive(s: State) {
    forall t, u | t in s.inside && u in s.inside :: t == u
  }

  // ---------------------------------------------------------------- progress since the latest walk

  datatype Phase = NoWalk | Walked | ReadDone | FreqDone

  /** A mem_freq read that returned data or nothing, but no error. */
  predicate FreqSucceeds(s: State, a: Action) {
    Ends(s, a, Freq, Completed) || Ends(s, a, Freq, Partial)
  }

  function NextPhase(s: State, p: Phase, a: Action): Phase {
    if Admits(s, a, Walk) then Walked
    else if p.Walked? && Ends(s, a, Read, Completed) then ReadDone
    else if p.ReadDone? && FreqSucceeds(s, a) then FreqDone
    else p
  }

  /** The phase that `acts` lead to from phase `p`. */
  function PhaseFrom(s: State, p: Phase, acts: seq<Action>): Phase {
    if acts == [] then p
    else
      var n := |acts| - 1;
      NextPhase(Run(s, acts[..n]), PhaseFrom(s, p, acts[..n]), acts[n])
  }

  /** What has followed the latest admitted walk. */
  function PhaseOf(s: State, acts: seq<Action>): Phase {
    PhaseFrom(s, NoWalk, acts)
  }

  ghost predicate Good(s: State, p: Phase) {
    && s.rejected == {}
    && Exclusive(s)
    && (s.flag == {} <==> s.inside != map[])
    && (s.flag != {} ==> WALK in s.flag)
    && (READ in s.flag ==> !p.NoWalk?)
    && (FREQ in s.flag ==> p.ReadDone? || p.FreqDone?)
    && (MIG in s.flag ==> p.FreqDone?)
    && (forall t | t in s.inside ::
      && (s.inside[t].Walk? ==> !p.NoWalk?)
      && (s.inside[t].Read? ==> !p.NoWalk?)
      && (s.inside[t].Freq? ==> p.ReadDone? || p.FreqDone?)
      && (s.inside[t].Convert? ==> p.FreqDone?))
  }

  lemma OneInside(s: State, t: nat)
    requires Exclusive(s) && t in s.inside
    ensures s.inside - {t} == map[]
  {
  }

  lemma GoodStep(s: State, p: Phase, a: Action)
    requires Good(s, p) && !RejectsFreq(s, a)
    ensures Good(Step(s, a), NextPhase(s, p, a))
  {
    if a.Finish? && a.t in s.inside {
      OneInside(s, a.t);
    }
  }

  lemma {:induction false} GoodRun(s: State, p: Phase, acts: seq<Action>)
    requires Good(s, p) && Clean(s, acts)
    ensures Good(Run(s, acts), PhaseFrom(s, p, acts))
    decreases |acts|
  {
    if acts != [] {
      var n := |acts| - 1;
      assert forall k | 0 <= k <= n :: acts[..n][..k] == acts[..k];
      GoodRun(s, p, acts[..n]);
      GoodStep(Run(s, acts[..n]), PhaseFrom(s, p, acts[..n]), acts[n]);
    }
  }

  lemma RunIsGood(acts: seq<Action>)
    requires Clean(INITIAL, acts)
    ensures Good(Run(INITIAL, acts), PhaseOf(INITIAL, acts))
  {
    GoodRun(INITIAL, NoWalk, acts);
  }

  // ---------------------------------------------------------------- the order of events

  /** Walk `w` is the latest one before `k`. */
  ghost predicate LatestWalk(acts: seq<Action>, w: nat, k: nat)
    requires k <= |acts|
  {
    && w < k && Admits(Run(INITIAL, acts[..w]), acts[w], Walk)
    && forall j | w < j < k :: !Admits(Run(INITIAL, acts[..j]), acts[j], Walk)
  }

  ghost predicate ReadAt(acts: seq<Action>, r: nat) {
    r < |acts| && Ends(Run(INITIAL, acts[..r]), acts[r], Read, Completed)
  }

  ghost predicate FreqAt(acts: seq<Action>, f: nat) {
    f < |acts| && FreqSucceeds(Run(INITIAL, acts[..f]), acts[f])
  }

  /** The latest walk before `k`, then a completed bitmap read, then a successful mem_freq read. */
  ghost predicate InOrder(acts: seq<Action>, k: nat)
    requires k <= |acts|
  {
    exists w: nat, r: nat, f: nat :: w < r < f < k && LatestWalk(acts, w, k) && ReadAt(acts, r) && FreqAt(acts, f)
  }

  lemma LatestWalkStep(acts: seq<Action>, w: nat, k: nat)
    requires k < |acts| && LatestWalk(acts, w, k) && !Admits(Run(INITIAL, acts[..k]), acts[k], Walk)
    ensures LatestWalk(acts, w, k + 1)
  {
  }

  /** Phase `p` before step `k` is backed by the events `w`, `r`, `f`. */
  ghost predicate Backed(acts: seq<Action>, k: nat, p: Phase, w: nat, r: nat, f: nat)
    requires k <= |acts|
  {
    && (!p.NoWalk? ==> LatestWalk(acts, w, k))
    && (p.ReadDone? || p.FreqDone? ==> w < r < k && ReadAt(acts, r))
    && (p.FreqDone? ==> r < f < k && FreqAt(acts, f))
  }

  lemma BackedStep(acts: seq<Action>, k: nat, p: Phase, w: nat, r: nat, f: nat) returns (w': nat, r': nat, f': nat)
    requires k < |acts| && Backed(acts, k, p, w, r, f)
    ensures Backed(acts, k + 1, NextPhase(Run(INITIAL, acts[..k]), p, acts[k]), w', r', f')
  {
    var s := Run(INITIAL, acts[..k]);
    w', r', f' := w, r, f;
    if Admits(s, acts[k], Walk) {
      w' := k;
    } else if !p.NoWalk? {
      LatestWalkStep(acts, w, k);
      if p.Walked? && Ends(s, acts[k], Read, Completed) {
        r' := k;
      } else if p.ReadDone? && FreqSucceeds(s, acts[k]) {
        f' := k;
      }
    }
  }

  /** The recorded phase is backed by events in that order. */
  lemma {:induction false} PhaseMeans(acts: seq<Action>, k: nat) returns (w: nat, r: nat, f: nat)
    requires k <= |acts|
    ensures Backed(acts, k, PhaseOf(INITIAL, acts[..k]), w, r, f)
  {
    w, r, f := 0, 0, 0;
    if k > 0 {
      w, r, f := PhaseMeans(acts, k - 1);
      w, r, f := BackedStep(acts, k - 1, PhaseOf(INITIAL, acts[..k - 1]), w, r, f);
      assert acts[..k][..k - 1] == acts[..k - 1];
    }
  }

  /**
   In every run without a rejected mem_freq read at most one operation is inside at any time, and a
   conversion is admitted only after a completed bitmap read and then a successful mem_freq read
   that both followed the latest walk.
   */
  lemma {:induction false} CleanRunsAreOrdered(acts: seq<Action>, k: nat)
    requires Clean(INITIAL, acts) && k <= |acts|
    ensures Exclusive(Run(INITIAL, acts[..k]))
    ensures k < |acts| && Admits(Run(INITIAL, acts[..k]), acts[k], Convert) ==> InOrder(acts, k)
  {
    assert forall j | 0 <= j < k :: acts[..k][..j] == acts[..j];
    RunIsGood(acts[..k]);
    var w, r, f := PhaseMeans(acts, k);
  }

  // ---------------------------------------------------------------- the condition is exact

  /** Exclusion survives every continuation without a further rejected mem_freq read. */
  ghost predicate StaysExclusive(s: State) {
    forall acts: seq<Action> :: Clean(s, acts) ==> Exclusive(Run(s, acts))
  }

  lemma RunThree(s: State, a: Action, b: Action, c: Action)
    ensures Run(s, [a, b, c]) == Step(Step(Step(s, a), b), c)
    ensures forall k | 0 <= k < 3 ::
      Run(s, [a, b, c][..k]) == if k == 0 then s else if k == 1 then Step(s, a) else Step(Step(s, a), b)
  {
    assert [a][..0] == [] && [a, b][..1] == [a] && [a, b, c][..2] == [a, b];
    assert [a, b, c][..1] == [a] && [a, b, c][..0] == [];
    assert Run(s, [a]) == Step(s, a);
    assert Run(s, [a, b]) == Step(Step(s, a), b);
  }

  /** A rejected mem_freq read lets two walks in. */
  lemma RejectionBreaksExclusion(s: State, t: nat)
    requires WALK in s.flag ==> s.inside == map[]
    requires WALK !in s.flag ==> s.inside != map[]
    requires t in s.rejected && t !in s.inside && s.rejected == {t} && Exclusive(s)
    ensures !StaysExclusive(s)
  {
    if WALK in s.flag {
      var u, v := t + 1, t + 2;
      RunThree(s, Check(u, Walk), RejectWrite(t), Check(v, Walk));
      var acts := [Check(u, Walk), RejectWrite(t), Check(v, Walk)];
      var e := Run(s, acts);
      assert u in e.inside && v in e.inside;
      assert Clean(s, acts);
    } else {
      var u :| u in s.inside;
      var v := t + u + 1;
      RunThree(s, RejectWrite(t), Check(v, Walk), Check(v, Walk));
      var acts := [RejectWrite(t), Check(v, Walk), Check(v, Walk)];
      var e := Run(s, acts);
      assert u in e.inside && v in e.inside;
      assert Clean(s, acts);
    }
  }

  /**
   From any state of a clean run, a mem_freq read by an outside thread keeps exclusion for good
   exactly when it is admitted.
   */
  lemma {:induction false} FreqReadSafeIff(s: State, p: Phase, t: nat)
    requires Good(s, p) && t !in s.inside
    ensures StaysExclusive(Step(s, Check(t, Freq))) <==> FREQ in s.flag
  {
    var s' := Step(s, Check(t, Freq));
    if FREQ in s.flag {
      GoodStep(s, p, Check(t, Freq));
      forall acts: seq<Action> | Clean(s', acts) ensures Exclusive(Run(s', acts)) {
        GoodRun(s', NextPhase(s, p, Check(t, Freq)), acts);
      }
    } else {
      RejectionBreaksExclusion(s', t);
    }
  }

  lemma {:induction false} RunSnoc(s: State, p: Phase, acts: seq<Action>, a: Action)
    ensures Run(s, acts + [a]) == Step(Run(s, acts), a)
    ensures PhaseFrom(s, p, acts + [a]) == NextPhase(Run(s, acts), PhaseFrom(s, p, acts), a)
    ensures Clean(s, acts) && !RejectsFreq(Run(s, acts), a) ==> Clean(s, acts + [a])
  {
    var all := acts + [a];
    assert all[..|acts|] == acts;
    assert forall k | 0 <= k < |acts| :: all[..k] == acts[..k];
  }

  /** In every continuation without a further rejected mem_freq read conversions are admitted in order only. */
  ghost predicate StaysOrdered(s: State, p: Phase) {
    forall acts: seq<Action>, a: Action ::
      Clean(s, acts) && Admits(Run(s, acts), a, Convert) ==> PhaseFrom(s, p, acts).FreqDone?
  }

  /** The clean run `acts` leads from `s` and phase `p` to `t` and phase `q`. */
  ghost predicate Leads(s: State, p: Phase, acts: seq<Action>, t: State, q: Phase) {
    Clean(s, acts) && Run(s, acts) == t && PhaseFrom(s, p, acts) == q
  }

  lemma {:induction false} LeadsOn(s: State, p: Phase, acts: seq<Action>, t: State, q: Phase, a: Action)
    requires Leads(s, p, acts, t, q) && !RejectsFreq(t, a)
    ensures Leads(s, p, acts + [a], Step(t, a), NextPhase(t, q, a))
  {
    RunSnoc(s, p, acts, a);
  }

  lemma {:induction false} BreaksOrder(s: State, p: Phase, acts: seq<Action>, t: State, a: Action)
    requires Leads(s, p, acts, t, Walked) && Admits(t, a, Convert)
    ensures !StaysOrdered(s, p)
  {
  }

  /** Nobody is inside: a walk, the late write, and a mem_freq read that completes. */
  lemma {:induction false} RejectionBreaksOrderIdle(s: State, p: Phase, t: nat)
    requires WALK in s.flag && s.inside == map[] && s.rejected == {t}
    ensures !StaysOrdered(s, p)
  {
    var u, v := t + 1, t + 2;
    var a0: seq<Action> := [];
    var a1 := a0 + [Check(u, Walk)];
    var a2 := a1 + [RejectWrite(t)];
    var s1 := Step(s, Check(u, Walk));
    var s2 := Step(s1, RejectWrite(t));
    LeadsOn(s, p, a0, s, p, Check(u, Walk));
    LeadsOn(s, p, a1, s1, Walked, RejectWrite(t));
    assert s2.flag == {WALK, READ, FREQ} && t !in s2.inside && v !in s2.inside && s2.rejected == {};
    FreqCompletes(s, p, a2, s2, t, v);
  }

  /** An admitted mem_freq read that completes in phase Walked admits a conversion. */
  lemma {:induction false} FreqCompletes(s: State, p: Phase, acts: seq<Action>, s2: State, t: nat, v: nat)
    requires Leads(s, p, acts, s2, Walked) && FREQ in s2.flag && s2.rejected == {}
    requires t != v && t !in s2.inside && v !in s2.inside
    ensures !StaysOrdered(s, p)
  {
    var s3 := Step(s2, Check(v, Freq));
    LeadsOn(s, p, acts, s2, Walked, Check(v, Freq));
    assert s3.inside[v] == Freq && t !in s3.inside && s3.rejected == {};
    FreqEnds(s, p, acts + [Check(v, Freq)], s3, t, v);
  }

  lemma {:induction false} FreqEnds(s: State, p: Phase, acts: seq<Action>, s3: State, t: nat, v: nat)
    requires Leads(s, p, acts, s3, Walked) && v in s3.inside && s3.inside[v] == Freq && s3.rejected == {}
    requires t != v && t !in s3.inside
    ensures !StaysOrdered(s, p)
  {
    var s4 := Step(s3, Finish(v, Completed));
    LeadsOn(s, p, acts, s3, Walked, Finish(v, Completed));
    BreaksOrder(s, p, acts + [Finish(v, Completed)], s4, Check(t, Convert));
  }

  /** Operation of `u` is inside: the late write, a mem_freq read, then a new walk before that read completes. */
  lemma {:induction false} RejectionBreaksOrderBusy(s: State, p: Phase, t: nat, u: nat)
    requires s.inside.Keys == {u} && s.rejected == {t} && t != u
    ensures !StaysOrdered(s, p)
  {
    var a0: seq<Action> := [];
    var s1 := Step(s, RejectWrite(t));
    LeadsOn(s, p, a0, s, p, RejectWrite(t));
    assert FREQ in s1.flag && s1.inside == s.inside && s1.rejected == {};
    FreqEnters(s, p, a0 + [RejectWrite(t)], s1, t, u);
  }

  lemma {:induction false} FreqEnters(s: State, p: Phase, acts: seq<Action>, s1: State, t: nat, u: nat)
    requires Leads(s, p, acts, s1, p) && FREQ in s1.flag && s1.inside.Keys == {u} && s1.rejected == {} && t != u
    ensures !StaysOrdered(s, p)
  {
    var v := t + u + 1;
    var s2 := Step(s1, Check(v, Freq));
    assert Enabled(s1, Check(v, Freq));
    LeadsOn(s, p, acts, s1, p, Check(v, Freq));
    assert s2.inside.Keys == {u, v} && s2.inside[v] == Freq && s2.rejected == {};
    WalkOvertakes(s, p, acts + [Check(v, Freq)], s2, t, u, v);
  }

  lemma {:induction false} WalkOvertakes(s: State, p: Phase, acts: seq<Action>, s2: State, t: nat, u: nat, v: nat)
    requires Leads(s, p, acts, s2, p) && u in s2.inside && v in s2.inside && s2.inside[v] == Freq
    requires t !in s2.inside && s2.rejected == {} && u != v
    ensures !StaysOrdered(s, p)
  {
    var s3 := Step(s2, Finish(u, Failed));
    var more := acts + [Finish(u, Failed)];
    LeadsOn(s, p, acts, s2, p, Finish(u, Failed));
    assert WALK in s3.flag && s3.inside[v] == Freq && t !in s3.inside && u !in s3.inside && s3.rejected == {};
    var s4 := Step(s3, Check(u, Walk));
    LeadsOn(s, p, more, s3, p, Check(u, Walk));
    FreqEnds(s, p, more + [Check(u, Walk)], s4, t, v);
  }

  /**
   From any state of a clean run, a mem_freq read by an outside thread keeps conversions in order for good
   exactly when it is admitted.
   */
  lemma {:induction false} FreqReadOrderIff(s: State, p: Phase, t: nat)
    requires Good(s, p) && t !in s.inside
    ensures StaysOrdered(Step(s, Check(t, Freq)), NextPhase(s, p, Check(t, Freq))) <==> FREQ in s.flag
  {
    var s', p' := Step(s, Check(t, Freq)), NextPhase(s, p, Check(t, Freq));
    if FREQ in s.flag {
      GoodStep(s, p, Check(t, Freq));
      forall acts: seq<Action>, a: Action | Clean(s', acts) && Admits(Run(s', acts), a, Convert)
        ensures PhaseFrom(s', p', acts).FreqDone?
      {
        GoodRun(s', p', acts);
      }
    } else if s.inside == map[] {
      RejectionBreaksOrderIdle(s', p', t);
    } else {
      var u :| u in s.inside;
      RejectionBreaksOrderBusy(s', p', t, u);
    }
  }

  // ---------------------------------------------------------------- the same in terms of events

  lemma {:induction false} PhaseUp(s: State, q: Phase, a: Action)
    ensures var p := NextPhase(s, q, a);
      if Admits(s, a, Walk) then p.Walked?
      else
        && (!q.NoWalk? ==> !p.NoWalk? && (Ends(s, a, Read, Completed) ==> !p.Walked?))
        && (q.ReadDone? || q.FreqDone? ==> !p.NoWalk? && !p.Walked? && (FreqSucceeds(s, a) ==> p.FreqDone?))
        && (q.FreqDone? ==> p.FreqDone?)
  {
  }

  /** Phase `p` before step `j` is as far as the events `w`, `r`, `f` say. */
  predicate FarEnough(p: Phase, w: nat, r: nat, f: nat, j: nat) {
    (j > w ==> !p.NoWalk?) && (j > r ==> !p.NoWalk? && !p.Walked?) && (j > f ==> p.FreqDone?)
  }

  ghost predicate Events(acts: seq<Action>, w: nat, r: nat, f: nat, k: nat) {
    k <= |acts| && w < r < f && LatestWalk(acts, w, k) && ReadAt(acts, r) && FreqAt(acts, f)
  }

  lemma {:induction false} FarEnoughStep(acts: seq<Action>, w: nat, r: nat, f: nat, k: nat, j: nat, q: Phase)
    requires Events(acts, w, r, f, k) && w <= j < k
    requires j > w ==> FarEnough(q, w, r, f, j)
    ensures FarEnough(NextPhase(Run(INITIAL, acts[..j]), q, acts[j]), w, r, f, j + 1)
  {
    var s, a := Run(INITIAL, acts[..j]), acts[j];
    assert Admits(s, a, Walk) <==> j == w;
    assert j == r ==> Ends(s, a, Read, Completed);
    assert j == f ==> FreqSucceeds(s, a);
    PhaseUp(s, q, a);
  }

  lemma {:induction false} PhaseAfter(acts: seq<Action>, w: nat, r: nat, f: nat, k: nat, j: nat)
    requires Events(acts, w, r, f, k) && w < j <= k
    ensures FarEnough(PhaseOf(INITIAL, acts[..j]), w, r, f, j)
    decreases j
  {
    if j - 1 > w {
      PhaseAfter(acts, w, r, f, k, j - 1);
    }
    FarEnoughStep(acts, w, r, f, k, j - 1, PhaseOf(INITIAL, acts[..j - 1]));
    PhaseAt(acts, j - 1);
  }

  lemma {:induction false} PhaseAt(acts: seq<Action>, j: nat)
    requires j < |acts|
    ensures PhaseOf(INITIAL, acts[..j + 1]) == NextPhase(Run(INITIAL, acts[..j]), PhaseOf(INITIAL, acts[..j]), acts[j])
  {
    assert acts[..j + 1][..j] == acts[..j];
  }

  /** The last phase stands for the order of events. */
  lemma {:induction false} FreqDoneIff(acts: seq<Action>, k: nat)
    requires k <= |acts|
    ensures PhaseOf(INITIAL, acts[..k]).FreqDone? <==> InOrder(acts, k)
  {
    var w, r, f := PhaseMeans(acts, k);
    if InOrder(acts, k) {
      var w: nat, r: nat, f: nat :|
        w < r < f < k && LatestWalk(acts, w, k) && ReadAt(acts, r) && FreqAt(acts, f);
      PhaseAfter(acts, w, r, f, k, k);
    }
  }

  lemma {:induction false} RunConcat(s: State, p: Phase, xs: seq<Action>, ys: seq<Action>)
    ensures Run(s, xs + ys) == Run(Run(s, xs), ys)
    ensures PhaseFrom(s, p, xs + ys) == PhaseFrom(Run(s, xs), PhaseFrom(s, p, xs), ys)
    decreases |ys|
  {
    if ys == [] {
      assert xs + ys == xs;
    } else {
      var n := |ys| - 1;
      assert (xs + ys)[..|xs + ys| - 1] == xs + ys[..n];
      RunConcat(s, p, xs, ys[..n]);
    }
  }

  /** After `acts`, clean continuations admit conversions in the order of events only. */
  ghost predicate ConvertsInOrder(acts: seq<Action>) {
    forall more: seq<Action>, a: Action ::
      Clean(Run(INITIAL, acts), more) && Admits(Run(Run(INITIAL, acts), more), a, Convert) ==>
        InOrder(acts + more, |acts + more|)
  }

  lemma {:induction false} OrderedIsInOrder(acts: seq<Action>)
    ensures ConvertsInOrder(acts) <==> StaysOrdered(Run(INITIAL, acts), PhaseOf(INITIAL, acts))
  {
    var s, p := Run(INITIAL, acts), PhaseOf(INITIAL, acts);
    forall more: seq<Action>
      ensures InOrder(acts + more, |acts + more|) <==> PhaseFrom(s, p, more).FreqDone?
    {
      RunConcat(INITIAL, NoWalk, acts, more);
      FreqDoneIff(acts + more, |acts + more|);
      assert (acts + more)[..|acts + more|] == acts + more;
    }
  }

  /**
   After any clean run: a mem_freq read is followed by conversions only in the order walk, completed bitmap
   read, successful mem_freq read, whatever happens later, exactly when it is admitted.
   */
  lemma {:induction false} FreqReadInOrderIff(acts: seq<Action>, t: nat)
    requires Clean(INITIAL, acts) && t !in Run(INITIAL, acts).inside
    ensures ConvertsInOrder(acts + [Check(t, Freq)]) <==> FREQ in Run(INITIAL, acts).flag
  {
    RunIsGood(acts);
    RunSnoc(INITIAL, NoWalk, acts, Check(t, Freq));
    OrderedIsInOrder(acts + [Check(t, Freq)]);
    FreqReadOrderIff(Run(INITIAL, acts), PhaseOf(INITIAL, acts), t);
  }

  /** A mem_freq read that is rejected, then one that is admitted and completes, as states. */
  lemma {:induction false} SkippingStates(s: State)
    requires s.flag == {WALK} && s.inside == map[] && s.rejected == {}
    ensures var s1 := Step(s, Check(0, Freq));
      var s2 := Step(s1, RejectWrite(0));
      var s3 := Step(s2, Check(0, Freq));
      && s1 == s.(rejected := {0}) && FREQ in s2.flag && 0 !in s2.inside && s2.rejected == {} && s2.inside == map[]
      && s3.inside == map[0 := Freq] && s3.rejected == {}
  {
  }

  lemma {:induction false} SkippingRun(a1: seq<Action>, a2: seq<Action>, a3: seq<Action>, a4: seq<Action>)
    requires a1 == [Check(0, Freq)] && a2 == a1 + [RejectWrite(0)]
    requires a3 == a2 + [Check(0, Freq)] && a4 == a3 + [Finish(0, Completed)]
    ensures var s3 := Step(Step(Step(INITIAL, Check(0, Freq)), RejectWrite(0)), Check(0, Freq));
      Run(INITIAL, a4) == Step(s3, Finish(0, Completed)) && PhaseOf(INITIAL, a4) == NextPhase(s3, PhaseOf(INITIAL, a3), a4[3])
    ensures PhaseOf(INITIAL, a3) == NoWalk
  {
    RunSnoc(INITIAL, NoWalk, [], Check(0, Freq));
    assert [] + [Check(0, Freq)] == a1;
    RunSnoc(INITIAL, NoWalk, a1, RejectWrite(0));
    RunSnoc(INITIAL, NoWalk, a2, Check(0, Freq));
    RunSnoc(INITIAL, NoWalk, a3, Finish(0, Completed));
  }

  /** One rejected and one admitted mem_freq read are enough to convert without any walk or bitmap read. */
  lemma {:induction false} RejectionSkipsStages()
    ensures var acts := [Check(0, Freq)] + [RejectWrite(0)] + [Check(0, Freq)] + [Finish(0, Completed)];
      && Admits(Run(INITIAL, acts), Check(1, Convert), Convert)
      && PhaseOf(INITIAL, acts) == NoWalk
  {
    var a1 := [Check(0, Freq)];
    var a2 := a1 + [RejectWrite(0)];
    var a3 := a2 + [Check(0, Freq)];
    SkippingRun(a1, a2, a3, a3 + [Finish(0, Completed)]);
    SkippingStates(INITIAL);
  }
}
