/** What the admission flag lets through: the partner of the exclusion and order results of AdmissionFlag. */
module AdmissionCycle {
  import opened AdmissionFlag

  /** Step `j` of the run ends `op` with `out`. */
  ghost predicate EndsAt(acts: seq<Action>, j: nat, op: Op, out: Outcome) {
    j < |acts| && Ends(Run(INITIAL, acts[..j]), acts[j], op, out)
  }

  /** No operation ends in steps `j` and later. */
  ghost predicate NoEndFrom(acts: seq<Action>, j: nat) {
    forall i | j <= i < |acts| :: !FinishesAt(acts, i)
  }

  ghost predicate FinishesAt(acts: seq<Action>, i: nat) {
    i < |acts| && acts[i].Finish? && acts[i].t in Run(INITIAL, acts[..i]).inside
  }

  /** Which operation may begin right after `op` has ended with `out`. */
  predicate MayFollow(op: Op, out: Outcome, next: Op) {
    match next
    case Walk => true
    case Read => (op == Walk && out != Failed) || (op == Read && out == Partial) || op == Freq || op == Convert
    case Freq => (op == Read && out == Completed) || op == Freq || op == Convert
    case Convert => (op == Freq && out != Failed) || op == Convert
  }

  /** The flag stays as it is while nobody enters or leaves. */
  lemma {:induction false} Unchanged(acts: seq<Action>, j: nat)
    requires Clean(INITIAL, acts) && j <= |acts| && NoEndFrom(acts, j) && Run(INITIAL, acts).inside == map[]
    ensures Run(INITIAL, acts[..j]) == Run(INITIAL, acts)
    decreases |acts| - j
  {
    if j == |acts| {
      assert acts[..j] == acts;
    } else {
      Unchanged(acts, j + 1);
      assert acts[..j + 1][..j] == acts[..j];
      assert forall i | 0 <= i < j :: acts[..j][..i] == acts[..i];
      RunIsGood(acts[..j]);
      var s := Run(INITIAL, acts[..j]);
      assert !FinishesAt(acts, j) && !RejectsFreq(s, acts[j]);
    }
  }

  /** Whenever nobody is inside, the flag is the one the last operation has written. */
  lemma {:induction false} LastWrite(acts: seq<Action>, j: nat, op: Op, out: Outcome)
    requires Clean(INITIAL, acts) && Run(INITIAL, acts).inside == map[]
    requires EndsAt(acts, j, op, out) && NoEndFrom(acts, j + 1)
    ensures Run(INITIAL, acts).flag == After(op, out)
  {
    Unchanged(acts, j + 1);
    assert acts[..j + 1][..j] == acts[..j];
  }

  /** The flag that an operation writes admits exactly what may follow it. */
  lemma {:induction false} WriteAdmits(s: State, op: Op, out: Outcome, t: nat, next: Op)
    requires s.inside == map[] && s.rejected == {} && s.flag == After(op, out)
    ensures Admits(s, Check(t, next), next) <==> MayFollow(op, out, next)
  {
  }

  /**
   In every clean run, whenever nobody is inside: what may begin is decided by the operation that ended last
   and how it ended; as long as none has ended, only a walk may.
   */
  lemma {:induction false} AdmittedIff(acts: seq<Action>, t: nat, next: Op)
    requires Clean(INITIAL, acts) && Run(INITIAL, acts).inside == map[]
    ensures NoEndFrom(acts, 0) ==> (Admits(Run(INITIAL, acts), Check(t, next), next) <==> next == Walk)
    ensures forall j: nat, op, out | EndsAt(acts, j, op, out) && NoEndFrom(acts, j + 1) ::
      Admits(Run(INITIAL, acts), Check(t, next), next) <==> MayFollow(op, out, next)
  {
    if NoEndFrom(acts, 0) {
      Unchanged(acts, 0);
      assert acts[..0] == [];
    }
    assert Run(INITIAL, acts).rejected == {} by {
      RunIsGood(acts);
    }
    forall j: nat, op, out | EndsAt(acts, j, op, out) && NoEndFrom(acts, j + 1)
      ensures Admits(Run(INITIAL, acts), Check(t, next), next) <==> MayFollow(op, out, next)
    {
      LastWrite(acts, j, op, out);
      WriteAdmits(Run(INITIAL, acts), op, out, t, next);
    }
  }

  // ---------------------------------------------------------------- a whole migration cycle

  /** Every operation that asks is admitted. */
  ghost predicate AllAdmitted(s: State, acts: seq<Action>) {
    forall k | 0 <= k < |acts| && acts[k].Check? :: Admits(Run(s, acts[..k]), acts[k], acts[k].op)
  }

  /** One operation of thread `t`, from its check to its write. */
  function Whole(t: nat, op: Op, out: Outcome): seq<Action> {
    [Check(t, op)] + [Finish(t, out)]
  }

  /** `n` bitmap reads that return a part each. */
  function PartialReads(t: nat, n: nat): seq<Action> {
    if n == 0 then [] else PartialReads(t, n - 1) + Whole(t, Read, Partial)
  }

  /** Walk, read the bitmap in `n + 1` parts, read the frequencies, convert; each by any thread. */
  function Cycle(w: nat, r: nat, n: nat, f: nat, c: nat, convert: Outcome): seq<Action> {
    Whole(w, Walk, Completed) + PartialReads(r, n) + Whole(r, Read, Completed) + Whole(f, Freq, Completed)
      + Whole(c, Convert, convert)
  }

  /** All of `acts` is admitted and leads to a state with nobody inside in which exactly `bits` are set. */
  ghost predicate Serves(s: State, acts: seq<Action>, bits: set<Bit>) {
    AllAdmitted(s, acts) && Run(s, acts) == State(bits, map[], {})
  }

  lemma {:induction false} AdmitsSnoc(s: State, acts: seq<Action>, a: Action)
    requires AllAdmitted(s, acts) && (a.Check? ==> Admits(Run(s, acts), a, a.op))
    ensures AllAdmitted(s, acts + [a]) && Run(s, acts + [a]) == Step(Run(s, acts), a)
  {
    var all := acts + [a];
    assert all[..|acts|] == acts;
    assert forall k | 0 <= k < |acts| :: all[..k] == acts[..k];
  }

  lemma {:induction false} ServesOn(s: State, acts: seq<Action>, bits: set<Bit>, t: nat, op: Op, out: Outcome)
    requires Serves(s, acts, bits) && op.Needs() in bits
    ensures Serves(s, acts + Whole(t, op, out), After(op, out))
  {
    AdmitsSnoc(s, acts, Check(t, op));
    AdmitsSnoc(s, acts + [Check(t, op)], Finish(t, out));
    assert acts + Whole(t, op, out) == acts + [Check(t, op)] + [Finish(t, out)];
    assert map[t := op] - {t} == map[];
  }

  lemma {:induction false} Regroup(xs: seq<Action>, ys: seq<Action>, zs: seq<Action>)
    ensures xs + (ys + zs) == xs + ys + zs
  {
  }

  lemma {:induction false} ServesParts(s: State, acts: seq<Action>, t: nat, n: nat)
    requires Serves(s, acts, {WALK, READ})
    ensures Serves(s, acts + PartialReads(t, n), {WALK, READ})
  {
    if n == 0 {
      assert acts + PartialReads(t, n) == acts;
    } else {
      ServesParts(s, acts, t, n - 1);
      ServesOn(s, acts + PartialReads(t, n - 1), {WALK, READ}, t, Read, Partial);
      Regroup(acts, PartialReads(t, n - 1), Whole(t, Read, Partial));
    }
  }

  lemma {:induction false} AdmittedIsClean(s: State, acts: seq<Action>)
    requires AllAdmitted(s, acts)
    ensures Clean(s, acts)
  {
  }

  /**
   After any clean run, whenever nobody is inside: a walk, a bitmap read in any number of parts, a mem_freq
   read and a conversion, by any threads, are all admitted, and again after that.
   */
  lemma {:induction false} CycleIsAdmitted(acts: seq<Action>, w: nat, r: nat, n: nat, f: nat, c: nat, convert: Outcome)
    requires Clean(INITIAL, acts) && Run(INITIAL, acts).inside == map[]
    ensures var s, cycle := Run(INITIAL, acts), Cycle(w, r, n, f, c, convert);
      AllAdmitted(s, cycle) && Clean(s, cycle) && Run(s, cycle).inside == map[]
  {
    RunIsGood(acts);
    var s := Run(INITIAL, acts);
    var none: seq<Action> := [];
    assert Serves(s, none, s.flag);
    ServesOn(s, none, s.flag, w, Walk, Completed);
    var a1 := none + Whole(w, Walk, Completed);
    ServesParts(s, a1, r, n);
    var a2 := a1 + PartialReads(r, n);
    ServesOn(s, a2, {WALK, READ}, r, Read, Completed);
    var a3 := a2 + Whole(r, Read, Completed);
    ServesOn(s, a3, {WALK, FREQ}, f, Freq, Completed);
    var a4 := a3 + Whole(f, Freq, Completed);
    ServesOn(s, a4, {WALK, READ, FREQ, MIG}, c, Convert, convert);
    assert a4 + Whole(c, Convert, convert) == Cycle(w, r, n, f, c, convert);
    AdmittedIsClean(s, Cycle(w, r, n, f, c, convert));
  }
}
