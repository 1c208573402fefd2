/**
 The bitmap buffer beside the admission flag (access_ioctl.c).  A walk that succeeds writes the flag first and
 frees the buffer afterwards; a bitmap read uses the buffer while it is inside.
 */
module BitmapBuffer {
  import opened AdmissionFlag

  /** `freeing`: threads that have written the flag of a successful walk and still have to free the buffer. */
  datatype Shared = Shared(s: State, freeing: set<nat>)

  datatype Event = Act(a: Action) | Free(t: nat)

  const START: Shared := Shared(INITIAL, {})

  /** A thread that has to free does that before anything else. */
  predicate Can(f: Shared, e: Event) {
    match e
    case Act(a) => Enabled(f.s, a) && a.t !in f.freeing
    case Free(t) => t in f.freeing
  }

  /** Step `a` ends a walk with success. */
  predicate WalkSucceeds(s: State, a: Action) {
    Enabled(s, a) && a.Finish? && s.inside[a.t].Walk? && !a.out.Failed?
  }

  function Next(f: Shared, e: Event): Shared {
    if !Can(f, e) then f
    else
      match e
      case Act(a) => Shared(Step(f.s, a), if WalkSucceeds(f.s, a) then f.freeing + {a.t} else f.freeing)
      case Free(t) => f.(freeing := f.freeing - {t})
  }

  function After(es: seq<Event>): Shared {
    if |es| == 0 then START else Next(After(es[..|es| - 1]), es[|es| - 1])
  }

  /** No mem_freq read is rejected. */
  ghost predicate NoneRejected(es: seq<Event>) {
    forall k | 0 <= k < |es| && es[k].Act? && Can(After(es[..k]), es[k]) :: !RejectsFreq(After(es[..k]).s, es[k].a)
  }

  /** A bitmap read is inside while a walk has yet to free the buffer. */
  ghost predicate UsedWhileFreed(f: Shared) {
    f.freeing != {} && exists u :: u in f.s.inside && f.s.inside[u].Read?
  }

  /** Event `e` admits a bitmap read before a walk has freed the buffer. */
  predicate AdmitsEarly(f: Shared, e: Event) {
    e.Act? && Can(f, e) && Admits(f.s, e.a, Read) && f.freeing != {}
  }

  ghost predicate NeverEarly(es: seq<Event>) {
    forall k | 0 <= k < |es| :: !AdmitsEarly(After(es[..k]), es[k])
  }

  lemma {:induction false} NextIsGood(f: Shared, p: Phase, e: Event) returns (q: Phase)
    requires Good(f.s, p) && (e.Act? && Can(f, e) ==> !RejectsFreq(f.s, e.a))
    ensures Good(Next(f, e).s, q)
  {
    q := p;
    if e.Act? && Can(f, e) {
      GoodStep(f.s, p, e.a);
      q := NextPhase(f.s, p, e.a);
    }
  }

  /** One event makes a read overlap with a free only by admitting it early. */
  lemma {:induction false} OverlapBegins(f: Shared, p: Phase, e: Event)
    requires Good(f.s, p) && !UsedWhileFreed(f) && UsedWhileFreed(Next(f, e))
    ensures AdmitsEarly(f, e)
  {
    WalkLeavesNobody(f, p, e);
  }

  /** When a walk ends nobody is inside. */
  lemma {:induction false} WalkLeavesNobody(f: Shared, p: Phase, e: Event)
    requires Good(f.s, p)
    ensures e.Act? && Can(f, e) && WalkSucceeds(f.s, e.a) ==> Next(f, e).s.inside == map[]
  {
    if e.Act? && Can(f, e) && WalkSucceeds(f.s, e.a) {
      OneInside(f.s, e.a.t);
    }
  }

  lemma {:induction false} RunGood(es: seq<Event>) returns (p: Phase)
    requires NoneRejected(es)
    ensures Good(After(es).s, p)
    decreases |es|
  {
    if |es| == 0 {
      p := NoWalk;
    } else {
      var n := |es| - 1;
      assert forall k | 0 <= k <= n :: es[..n][..k] == es[..k];
      p := RunGood(es[..n]);
      p := NextIsGood(After(es[..n]), p, es[n]);
    }
  }

  /** The buffer is never used while it is freed, at any point of the run. */
  ghost predicate NeverOverlaps(es: seq<Event>) {
    forall k | 0 <= k <= |es| :: !UsedWhileFreed(After(es[..k]))
  }

  /**
   In every run without a rejected mem_freq read: no bitmap read is inside while the buffer is being freed
   exactly when no bitmap read is admitted between the flag write of a walk and its free.
   */
  lemma {:induction false} BufferSafeIff(es: seq<Event>)
    requires NoneRejected(es)
    ensures NeverOverlaps(es) <==> NeverEarly(es)
  {
    if NeverOverlaps(es) {
      forall k | 0 <= k < |es|
        ensures !AdmitsEarly(After(es[..k]), es[k])
      {
        EarlyOverlaps(es, k);
      }
    }
    if NeverEarly(es) {
      forall k | 0 <= k <= |es|
        ensures !UsedWhileFreed(After(es[..k]))
      {
        NoOverlapYet(es, k);
      }
    }
  }

  lemma {:induction false} EarlyOverlaps(es: seq<Event>, k: nat)
    requires k < |es|
    ensures AdmitsEarly(After(es[..k]), es[k]) ==> UsedWhileFreed(After(es[..k + 1]))
  {
    assert es[..k + 1][..k] == es[..k];
    var f := After(es[..k]);
    if AdmitsEarly(f, es[k]) {
      assert es[k].a.t in Next(f, es[k]).s.inside;
    }
  }

  lemma {:induction false} NoOverlapYet(es: seq<Event>, k: nat)
    requires NoneRejected(es) && NeverEarly(es) && k <= |es|
    ensures !UsedWhileFreed(After(es[..k]))
    decreases k
  {
    if k > 0 {
      NoOverlapYet(es, k - 1);
      assert es[..k][..k - 1] == es[..k - 1];
      assert forall j | 0 <= j < k - 1 :: es[..k - 1][..j] == es[..j];
      var p := RunGood(es[..k - 1]);
      if UsedWhileFreed(After(es[..k])) {
        OverlapBegins(After(es[..k - 1]), p, es[k - 1]);
      }
    }
  }

  /** The gap is there after every successful walk: another thread's read is admitted in it. */
  lemma {:induction false} WalkLeavesGap(f: Shared, p: Phase, t: nat, u: nat)
    requires Good(f.s, p) && t in f.s.inside && f.s.inside[t].Walk? && t != u && t !in f.freeing && u !in f.freeing
    ensures AdmitsEarly(Next(f, Act(Finish(t, Completed))), Act(Check(u, Read)))
  {
    OneInside(f.s, t);
    var g := Next(f, Act(Finish(t, Completed)));
    assert g.s.flag == {WALK, READ} && g.s.inside == map[] && g.s.rejected == {} && t in g.freeing;
  }

  // ---------------------------------------------------------------- who frees, and when

  /** Event `k` of the run is the successful end of a walk of thread `t`. */
  ghost predicate WalkEndsAt(es: seq<Event>, k: nat, t: nat) {
    && k < |es| && es[k].Act? && Can(After(es[..k]), es[k])
    && es[k].a.Finish? && es[k].a.t == t && After(es[..k]).s.inside[t] == Walk && es[k].a.out != Failed
  }

  /** Thread `t` frees the buffer in event `k`. */
  ghost predicate FreesAt(es: seq<Event>, k: nat, t: nat) {
    k < |es| && es[k] == Free(t) && Can(After(es[..k]), es[k])
  }

  /** A walk of `t` has succeeded, and `t` has not freed the buffer since. */
  ghost predicate Owes(es: seq<Event>, t: nat) {
    exists k: nat :: WalkEndsAt(es, k, t) && forall j | k < j < |es| :: !FreesAt(es, j, t)
  }

  lemma {:induction false} OwesStep(front: seq<Event>, e: Event, t: nat)
    ensures var es := front + [e];
      Owes(es, t) <==> WalkEndsAt(es, |front|, t) || (Owes(front, t) && !FreesAt(es, |front|, t))
  {
    var es, n := front + [e], |front|;
    assert es[..n] == front;
    assert forall k | 0 <= k < n :: es[..k] == front[..k] && es[k] == front[k];
    assert forall k | 0 <= k < n :: WalkEndsAt(es, k, t) == WalkEndsAt(front, k, t);
    assert forall k | 0 <= k < n :: FreesAt(es, k, t) == FreesAt(front, k, t);
    if Owes(es, t) {
      var k: nat :| WalkEndsAt(es, k, t) && forall j | k < j < |es| :: !FreesAt(es, j, t);
      if k < n {
        assert WalkEndsAt(front, k, t);
      }
    }
    if WalkEndsAt(es, n, t) {
      assert Owes(es, t);
    } else if Owes(front, t) && !FreesAt(es, n, t) {
      var k: nat :| WalkEndsAt(front, k, t) && forall j | k < j < |front| :: !FreesAt(front, j, t);
      assert WalkEndsAt(es, k, t);
    }
  }

  /** In every run: a thread is to free the buffer exactly after a successful walk, and does nothing else before it has. */
  lemma {:induction false} FreesAfterWalk(es: seq<Event>, t: nat)
    ensures t in After(es).freeing <==> Owes(es, t)
    ensures t in After(es).freeing ==> t !in After(es).s.inside
    decreases |es|
  {
    if |es| > 0 {
      var n := |es| - 1;
      FreesAfterWalk(es[..n], t);
      assert es == es[..n] + [es[n]];
      OwesStep(es[..n], es[n], t);
    } else {
      assert forall k: nat :: !WalkEndsAt(es, k, t);
    }
  }
}
