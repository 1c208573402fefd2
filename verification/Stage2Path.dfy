/**
 What a translation is, without the walk: a chain of tables in which every entry passed is valid and has
 bit 1 set.  The lookup that the walk is proved against finds exactly the end of this chain.
 */
module Stage2Path {
  import opened Arith
  import opened Stage2Walk
  import opened Stage2Mkold

  /** Bytes below one entry: 4KiB at the last level, 512 times more at each level above. */
  function Bytes(level: Level): (r: nat)
    ensures r > 0
    decreases 3 - level
  {
    if level == 3 then 4096 else 512 * Bytes(level + 1)
  }

  /** The entry of a table at this level that translates `a`. */
  function EntryNo(a: nat, level: Level): nat {
    DivNonneg(a, Bytes(level));
    a / Bytes(level) % 512
  }

  /** The number of the table at this level that `a` lies in. */
  function TableNo(a: nat, level: Level): nat {
    DivNonneg(a, 512 * Bytes(level));
    a / (512 * Bytes(level))
  }

  lemma DivNonneg(a: nat, g: nat)
    requires g > 0
    ensures a / g >= 0
  {
    DivMono(0, a, g);
  }

  /** The entry of table `t` at this level that translates `a` points to table `next`. */
  ghost predicate Points(mem: Memory, t: nat, level: nat, a: nat, next: nat) {
    && level < 3 && t in mem && |mem[t]| == 512
    && mem[t][EntryNo(a, level)].valid && mem[t][EntryNo(a, level)].table && mem[t][EntryNo(a, level)].target == next
  }

  /** The entry of table `t` that translates `a` ends the translation: a page, a block or nothing. */
  ghost predicate Ends(mem: Memory, t: nat, level: nat, a: nat) {
    && level <= 3 && t in mem && |mem[t]| == 512
    && (level == 3 || !mem[t][EntryNo(a, level)].valid || !mem[t][EntryNo(a, level)].table)
  }

  /** The tables `ts` lead `a` from level `level` on to the entry `l`. */
  ghost predicate Path(mem: Memory, ts: seq<nat>, level: Level, a: nat, l: Leaf) {
    && |ts| > 0 && l.t == ts[|ts| - 1] && l.level == level + |ts| - 1 && l.i == EntryNo(a, l.level)
    && (forall k | 0 <= k < |ts| - 1 :: Points(mem, ts[k], level + k, a, ts[k + 1]))
    && Ends(mem, l.t, l.level, a)
  }

  lemma {:induction false} GranuleIs(level: Level)
    ensures Granule(level) == Bytes(level)
    decreases 3 - level
  {
    if level < 3 {
      GranuleIs(level + 1);
    }
  }

  lemma {:induction false} PathCons(mem: Memory, t: nat, ts: seq<nat>, level: Level, a: nat, l: Leaf)
    requires level < 3 && Path(mem, ts, level + 1, a, l) && Points(mem, t, level, a, ts[0])
    ensures Path(mem, [t] + ts, level, a, l)
  {
    var all := [t] + ts;
    forall k | 0 <= k < |all| - 1
      ensures Points(mem, all[k], level + k, a, all[k + 1])
    {
      if k > 0 {
        assert Points(mem, ts[k - 1], level + 1 + (k - 1), a, ts[k]);
      }
    }
  }

  lemma {:induction false} PathTail(mem: Memory, ts: seq<nat>, level: Level, a: nat, l: Leaf)
    requires |ts| > 1 && Path(mem, ts, level, a, l)
    ensures Points(mem, ts[0], level, a, ts[1]) && Path(mem, ts[1..], level + 1, a, l)
  {
    var rest := ts[1..];
    assert Points(mem, ts[0], level + 0, a, ts[0 + 1]);
    forall k | 0 <= k < |rest| - 1
      ensures Points(mem, rest[k], level + 1 + k, a, rest[k + 1])
    {
      assert Points(mem, ts[k + 1], level + (k + 1), a, ts[k + 1 + 1]);
    }
  }

  /** The lookup follows a path. */
  lemma {:induction false} LookupPath(mem: Memory, t: nat, level: Level, a: nat) returns (ts: seq<nat>)
    requires WellFormed(mem, t, level)
    ensures |ts| > 0 && ts[0] == t && Path(mem, ts, level, a, Lookup(mem, t, level, a))
    decreases 3 - level
  {
    GranuleIs(level);
    var pte := mem[t][EntryNo(a, level)];
    if level < 3 && pte.valid && pte.table {
      var rest := LookupPath(mem, pte.target, level + 1, a);
      PathCons(mem, t, rest, level, a, Lookup(mem, t, level, a));
      ts := [t] + rest;
    } else {
      ts := [t];
    }
  }

  /** There is no other path. */
  lemma {:induction false} PathLookup(mem: Memory, ts: seq<nat>, level: Level, a: nat, l: Leaf)
    requires Path(mem, ts, level, a, l) && WellFormed(mem, ts[0], level)
    ensures l == Lookup(mem, ts[0], level, a)
    decreases 3 - level
  {
    GranuleIs(level);
    if |ts| > 1 {
      PathTail(mem, ts, level, a, l);
      PathLookup(mem, ts[1..], level + 1, a, l);
    }
  }

  /** Some path from the top leads `a` to the entry `l`. */
  ghost predicate Translates(mem: Memory, pgt: PgTable, a: nat, l: Leaf) {
    exists ts :: TopPath(mem, pgt, ts, a, l)
  }

  /** A path that starts in the top-level table that spans `a`. */
  ghost predicate TopPath(mem: Memory, pgt: PgTable, ts: seq<nat>, a: nat, l: Leaf) {
    && Path(mem, ts, pgt.startLevel, a, l)
    && TableNo(a, pgt.startLevel) < |pgt.pgd| && ts[0] == pgt.pgd[TableNo(a, pgt.startLevel)]
  }

  /** The lookup that the walk is proved against finds exactly the entry at the end of the path. */
  lemma {:induction false} TranslatesIff(mem: Memory, pgt: PgTable, a: nat, l: Leaf)
    requires PgtOk(mem, pgt) && a < pgt.limit
    ensures Translates(mem, pgt, a, l) <==> l == TopLookup(mem, pgt, a)
  {
    GranuleIs(pgt.startLevel);
    PgdInRange(mem, pgt, a);
    var p := PgdIdx(a, pgt.startLevel);
    if Translates(mem, pgt, a, l) {
      var ts :| TopPath(mem, pgt, ts, a, l);
      PathLookup(mem, ts, pgt.startLevel, a, l);
    }
    if l == TopLookup(mem, pgt, a) {
      var ts := LookupPath(mem, pgt.pgd[p], pgt.startLevel, a);
      assert TopPath(mem, pgt, ts, a, l);
    }
  }

  /** A valid entry of the last two levels at the end of the translation of some address of the range. */
  ghost predicate TranslatesRange(mem: Memory, pgt: PgTable, a: nat, end: nat, t: nat, i: nat) {
    exists x, level: Level :: a <= x < end && 2 <= level && Translates(mem, pgt, x, Leaf(t, i, level))
  }

  lemma {:induction false} TranslatesRangeIff(mem: Memory, pgt: PgTable, a: nat, end: nat, t: nat, i: nat)
    requires PgtOk(mem, pgt) && end <= pgt.limit
    ensures TranslatesRange(mem, pgt, a, end, t, i) <==> MapsRange(mem, pgt, a, end, t, i)
  {
    if TranslatesRange(mem, pgt, a, end, t, i) {
      var x, level: Level :| a <= x < end && 2 <= level && Translates(mem, pgt, x, Leaf(t, i, level));
      TranslatesIff(mem, pgt, x, Leaf(t, i, level));
      assert Maps(TopLookup(mem, pgt, x), t, i);
    }
    if MapsRange(mem, pgt, a, end, t, i) {
      var x :| a <= x < end && Maps(TopLookup(mem, pgt, x), t, i);
      TranslatesIff(mem, pgt, x, TopLookup(mem, pgt, x));
      assert Translates(mem, pgt, x, Leaf(t, i, TopLookup(mem, pgt, x).level));
    }
  }

  /**
   Through the entry point: a call that succeeds clears the access flag of exactly the valid entries of the
   last two levels at which the translation of some address of the range ends, and changes nothing else;
   every address of the range is in a granule whose visit names the entry its translation ends at.
   */
  method MkoldTranslated(mem: Memory, pgt: PgTable, addr: nat, size: nat)
    returns (after: Memory, log: seq<Visit>, st: WalkStatus)
    requires PgtOk(mem, pgt) && addr < 0x1_0000_0000_0000_0000 && size < 0x1_0000_0000_0000_0000
    ensures !st.WalkOk? ==> after == mem && log == []
    ensures st.WalkOk? ==> SameShape(mem, after) && forall t, i | t in mem && 0 <= i < |mem[t]| ::
      after[t][i].af == (mem[t][i].af && !(mem[t][i].valid &&
        TranslatesRange(mem, pgt, AlignDown(addr, PAGE), RangeEnd(addr, size), t, i)))
    ensures st.WalkOk? ==> forall x | AlignDown(addr, PAGE) <= x < RangeEnd(addr, size) :: Seen(mem, pgt, log, x)
  {
    var start, end := AlignDown(addr, PAGE), RangeEnd(addr, size);
    after, log, st := MkoldRange(mem, pgt, addr, size);
    if st.WalkOk? {
      forall t, i | t in mem && 0 <= i < |mem[t]|
        ensures TranslatesRange(mem, pgt, start, end, t, i) <==> MapsRange(mem, pgt, start, end, t, i)
      {
        TranslatesRangeIff(mem, pgt, start, end, t, i);
      }
      ghost var b :| b >= end && TopWalks(mem, pgt, start, b, end, log);
      forall x | start <= x < end ensures Seen(mem, pgt, log, x) {
        VisitIsSeen(mem, pgt, start, b, end, log, x);
      }
    }
  }

  /** One visit's granule, from its cursor on, holds `x`, and the translation of `x` ends at its entry. */
  ghost predicate Seen(mem: Memory, pgt: PgTable, log: seq<Visit>, x: nat) {
    exists k :: 0 <= k < |log| && SeenAt(mem, pgt, log[k], x)
  }

  ghost predicate SeenAt(mem: Memory, pgt: PgTable, v: Visit, x: nat) {
    && v.addr <= x && x / Bytes(v.leaf.level) == v.addr / Bytes(v.leaf.level)
    && Translates(mem, pgt, x, v.leaf)
  }

  lemma {:induction false} VisitIsSeen(mem: Memory, pgt: PgTable, a: nat, b: nat, end: nat, vs: seq<Visit>, x: nat)
    requires PgtOk(mem, pgt) && end <= pgt.limit && TopWalks(mem, pgt, a, b, end, vs) && a <= x < end <= b
    ensures Seen(mem, pgt, vs, x)
  {
    var k := Covers(mem, pgt, a, b, end, vs, x);
    var level := vs[k].leaf.level;
    TranslatesIff(mem, pgt, x, vs[k].leaf);
    GranuleIs(level);
    DivBounds(vs[k].addr, Granule(level));
    SameEntry(vs[k].addr, x, level);
    assert SeenAt(mem, pgt, vs[k], x);
  }
}
