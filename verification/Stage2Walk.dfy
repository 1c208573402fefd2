/**
 The stage-2 page-table walk that clears access flags (kvm_pgtable.c).  The walk is mutually recursive
 and advances one shared cursor; its reference is a plain loop that looks every address up from the
 root.  Descriptors follow section D8.3 of the Arm Architecture Reference Manual, DDI 0487, for 4KiB pages.
 */
module Stage2Walk {
  import opened Arith

  const LAST_LEVEL: nat := 3
  const PTRS: nat := 512

  /** A descriptor: bit 0, bit 1, the access flag, the output address and all other bits. */
  datatype Pte = Pte(valid: bool, table: bool, af: bool, target: nat, attrs: nat)

  type Memory = map<nat, seq<Pte>>

  type Level = l: nat | l <= 3 witness 3

  /** Bytes that one entry of a table at this level maps. */
  function Granule(level: Level): nat {
    match level
    case 3 => 0x1000
    case 2 => 0x20_0000
    case 1 => 0x4000_0000
    case _ => 0x80_0000_0000
  }

  /** kvm_pte_table. */
  predicate IsTable(pte: Pte, level: Level) {
    level != LAST_LEVEL && pte.valid && pte.table
  }

  /** kvm_pgtable_idx. */
  function Idx(a: nat, level: Level): nat {
    (a / Granule(level)) % PTRS
  }

  /** End of the entry, and of the table, that maps `a` at this level. */
  function EntryEnd(a: nat, level: Level): nat {
    AlignDown(a, Granule(level)) + Granule(level)
  }

  function TableEnd(a: nat, level: Level): nat {
    AlignDown(a, PTRS * Granule(level)) + PTRS * Granule(level)
  }

  /** Tables below `t` are all there, with 512 entries each. */
  ghost predicate WellFormed(mem: Memory, t: nat, level: Level)
    decreases 3 - level
  {
    && t in mem && |mem[t]| == PTRS
    && forall i | 0 <= i < PTRS :: IsTable(mem[t][i], level) ==> WellFormed(mem, mem[t][i].target, level + 1)
  }

  /** The place of an entry that is not a table. */
  datatype Leaf = Leaf(t: nat, i: nat, level: Level)

  /** Plain top-down lookup from table `t`. */
  function Lookup(mem: Memory, t: nat, level: Level, a: nat): (l: Leaf)
    requires WellFormed(mem, t, level)
    ensures level <= l.level && l.t in mem && |mem[l.t]| == PTRS && l.i < PTRS
    ensures l.level == 3 || !(mem[l.t][l.i].valid && mem[l.t][l.i].table)
    decreases 3 - level
  {
    var i := Idx(a, level);
    if IsTable(mem[t][i], level) then Lookup(mem, mem[t][i].target, level + 1, a) else Leaf(t, i, level)
  }

  // ---------------------------------------------------------------- address arithmetic, level by level

  /** Dividing in two steps. */
  lemma DivDiv(a: nat, g: nat, m: nat)
    requires g > 0 && m > 0
    ensures m * g > 0 && a / (m * g) == (a / g) / m
  {
    var q := a / g;
    var p := q / m;
    DivBounds(a, g);
    DivBounds(q, m);
    MulMono(p * m, q, g);
    MulMono(q + 1, p * m + m, g);
    MulAdd(q, 1, g);
    MulAdd(p * m, m, g);
    assert p * (m * g) == (p * m) * g;
    DivUnique(a, m * g, p);
  }

  /** The entry that maps `a`, and its table, by the number of the entry. */
  lemma ByEntry(a: nat, level: Level)
    ensures var g, q := Granule(level), a / Granule(level);
      && AlignDown(a, g) == q * g && EntryEnd(a, level) == (q + 1) * g
      && TableEnd(a, level) == (PTRS * (q / PTRS) + PTRS) * g
  {
    var g, q := Granule(level), a / Granule(level);
    MulAdd(q, 1, g);
    DivDiv(a, g, PTRS);
    assert (q / PTRS) * (PTRS * g) == (PTRS * (q / PTRS)) * g;
    MulAdd(PTRS * (q / PTRS), PTRS, g);
  }

  lemma NextEntry(a: nat, level: Level)
    ensures a < EntryEnd(a, level) <= TableEnd(a, level)
    ensures Idx(a, level) == PTRS - 1 ==> EntryEnd(a, level) == TableEnd(a, level)
    ensures Idx(a, level) < PTRS - 1 ==>
      && Idx(EntryEnd(a, level), level) == Idx(a, level) + 1
      && TableEnd(EntryEnd(a, level), level) == TableEnd(a, level)
      && EntryEnd(a, level) < TableEnd(a, level)
  {
    var g, q := Granule(level), a / Granule(level);
    var e, p := EntryEnd(a, level), PTRS * (a / Granule(level) / PTRS) + PTRS;
    ByEntry(a, level);
    NextNo(q);
    assert e <= TableEnd(a, level) by {
      MulMono(q + 1, p, g);
    }
    if q % PTRS < PTRS - 1 {
      assert e / g == q + 1 by {
        MulMod(q + 1, g);
      }
      ByEntry(e, level);
      assert e < TableEnd(a, level) by {
        MulMono(q + 2, p, g);
        MulAdd(q + 1, 1, g);
      }
    }
  }

  lemma NextNo(q: nat)
    ensures q + 1 <= PTRS * (q / PTRS) + PTRS
    ensures q % PTRS == PTRS - 1 ==> q + 1 == PTRS * (q / PTRS) + PTRS
    ensures q % PTRS < PTRS - 1 ==>
      (q + 1) % PTRS == q % PTRS + 1 && (q + 1) / PTRS == q / PTRS && q + 2 <= PTRS * (q / PTRS) + PTRS
  {
  }

  /** Addresses in one entry share its index and its table. */
  lemma SameEntry(a: nat, b: nat, level: Level)
    requires AlignDown(a, Granule(level)) <= b < EntryEnd(a, level)
    ensures b / Granule(level) == a / Granule(level)
    ensures Idx(b, level) == Idx(a, level) && TableEnd(b, level) == TableEnd(a, level)
    ensures EntryEnd(b, level) == EntryEnd(a, level) && AlignDown(b, Granule(level)) == AlignDown(a, Granule(level))
  {
    DivUnique(b, Granule(level), a / Granule(level));
    ByEntry(a, level);
    ByEntry(b, level);
  }

  /** A child table spans one entry of its parent. */
  lemma ChildSpan(a: nat, level: Level)
    requires level < 3
    ensures Granule(level) == PTRS * Granule(level + 1)
    ensures TableEnd(a, level + 1) == EntryEnd(a, level)
  {
  }

  /** Small granules nest in large ones. */
  lemma {:induction false} Nested(a: nat, b: nat, level: Level, deep: Level)
    requires level <= deep && AlignDown(a, Granule(deep)) <= b < EntryEnd(a, deep)
    ensures b / Granule(level) == a / Granule(level)
    ensures AlignDown(a, Granule(level)) <= b < EntryEnd(a, level)
    decreases deep - level
  {
    if level == deep {
      SameEntry(a, b, level);
    } else {
      Nested(a, b, level + 1, deep);
      ChildSpan(a, level);
      DivDiv(a, Granule(level + 1), PTRS);
      DivDiv(b, Granule(level + 1), PTRS);
      DivBounds(b, Granule(level));
    }
  }

  // ---------------------------------------------------------------- the reference walk

  /**
   One leaf callback: where the cursor stood, which entry, and the flags the callback saw.  A leaf above the
   last two levels is handed over as the hole [addr, holeEnd); for the others holeEnd is addr.
   */
  datatype Visit = Visit(addr: nat, leaf: Leaf, young: bool, valid: bool, holeEnd: nat)

  /** Where the cursor goes after a leaf. */
  function Next(v: Visit): nat {
    EntryEnd(v.addr, v.leaf.level)
  }

  /** Looking addresses up one by one from `a`, leaf after leaf, visits `vs` and ends at `b`. */
  ghost predicate Walks(mem: Memory, t: nat, level: Level, a: nat, b: nat, end: nat, vs: seq<Visit>)
    requires WellFormed(mem, t, level)
    decreases |vs|
  {
    if vs == [] then a == b
    else
      && a < end && vs[0].addr == a && vs[0].leaf == Lookup(mem, t, level, a)
      && Walks(mem, t, level, Next(vs[0]), b, end, vs[1..])
  }

  lemma {:induction false} WalksForward(mem: Memory, t: nat, level: Level, a: nat, b: nat, end: nat, vs: seq<Visit>)
    requires WellFormed(mem, t, level) && Walks(mem, t, level, a, b, end, vs)
    ensures a <= b && (vs != [] ==> a < b && a < end)
    decreases |vs|
  {
    if vs != [] {
      NextEntry(a, vs[0].leaf.level);
      WalksForward(mem, t, level, Next(vs[0]), b, end, vs[1..]);
    }
  }

  lemma {:induction false} WalksConcat(
      mem: Memory, t: nat, level: Level, a: nat, b: nat, c: nat, end: nat, xs: seq<Visit>, ys: seq<Visit>)
    requires WellFormed(mem, t, level)
    requires Walks(mem, t, level, a, b, end, xs) && Walks(mem, t, level, b, c, end, ys)
    ensures Walks(mem, t, level, a, c, end, xs + ys)
    decreases |xs|
  {
    if |xs| == 0 {
      assert xs + ys == ys;
    } else {
      Regroup(xs, ys);
      WalksHead(mem, t, level, a, b, end, xs);
      WalksConcat(mem, t, level, Next(xs[0]), b, c, end, xs[1..], ys);
      WalksCons(mem, t, level, a, c, end, xs[0], xs[1..] + ys);
    }
  }

  lemma {:induction false} Regroup(xs: seq<Visit>, ys: seq<Visit>)
    requires |xs| > 0
    ensures xs + ys == [xs[0]] + (xs[1..] + ys)
  {
  }

  /** The first visit of a walk. */
  lemma {:induction false} WalksHead(mem: Memory, t: nat, level: Level, a: nat, b: nat, end: nat, vs: seq<Visit>)
    requires WellFormed(mem, t, level) && |vs| > 0 && Walks(mem, t, level, a, b, end, vs)
    ensures a < end && vs[0].addr == a && vs[0].leaf == Lookup(mem, t, level, a)
    ensures Walks(mem, t, level, Next(vs[0]), b, end, vs[1..])
  {
  }

  lemma {:induction false} WalksCons(mem: Memory, t: nat, level: Level, a: nat, b: nat, end: nat, v: Visit, vs: seq<Visit>)
    requires WellFormed(mem, t, level) && a < end && v.addr == a && v.leaf == Lookup(mem, t, level, a)
    requires Walks(mem, t, level, Next(v), b, end, vs)
    ensures Walks(mem, t, level, a, b, end, [v] + vs)
  {
    assert ([v] + vs)[1..] == vs;
  }

  /** The log of a walk, continued. */
  lemma {:induction false} WalksFurther(
      mem: Memory, t: nat, level: Level, a0: nat, a1: nat, a: nat, end: nat,
      log0: seq<Visit>, log1: seq<Visit>, log: seq<Visit>)
    requires WellFormed(mem, t, level) && log0 <= log1 <= log
    requires Walks(mem, t, level, a0, a1, end, log1[|log0|..]) && Walks(mem, t, level, a1, a, end, log[|log1|..])
    ensures log0 <= log && Walks(mem, t, level, a0, a, end, log[|log0|..])
  {
    assert log[|log0|..] == log1[|log0|..] + log[|log1|..];
    WalksConcat(mem, t, level, a0, a1, a, end, log1[|log0|..], log[|log1|..]);
  }

  /** A walk inside one entry of `t` is a walk of the child table, lifted. */
  lemma {:induction false} WalksLift(mem: Memory, t: nat, level: Level, e: nat, a: nat, b: nat, end: nat, vs: seq<Visit>)
    requires WellFormed(mem, t, level) && level < 3 && IsTable(mem[t][Idx(e, level)], level)
    requires Walks(mem, mem[t][Idx(e, level)].target, level + 1, a, b, end, vs)
    requires AlignDown(e, Granule(level)) <= a && b <= EntryEnd(e, level)
    ensures Walks(mem, t, level, a, b, end, vs)
    decreases |vs|
  {
    if vs != [] {
      var child := mem[t][Idx(e, level)].target;
      WalksForward(mem, child, level + 1, a, b, end, vs);
      SameEntry(e, a, level);
      NextEntry(a, vs[0].leaf.level);
      WalksLift(mem, t, level, e, Next(vs[0]), b, end, vs[1..]);
    }
  }

  // ---------------------------------------------------------------- what callbacks do to memory

  /** Memories that differ in access flags only. */
  ghost predicate SameShape(a: Memory, b: Memory) {
    && a.Keys == b.Keys
    && forall t | t in a ::
      && |a[t]| == |b[t]|
      && forall i | 0 <= i < |a[t]| :: b[t][i] == a[t][i].(af := b[t][i].af)
  }

  predicate There(mem: Memory, l: Leaf) {
    l.t in mem && l.i < |mem[l.t]|
  }

  /** The entry with its access flag clear. */
  function ClearAf(mem: Memory, l: Leaf): Memory
    requires There(mem, l)
  {
    mem[l.t := mem[l.t][l.i := mem[l.t][l.i].(af := false)]]
  }

  /** Only valid entries of the last two levels are written. */
  predicate Clears(mem: Memory, l: Leaf) {
    l.level >= 2 && There(mem, l) && mem[l.t][l.i].valid
  }

  function Effect(mem: Memory, vs: seq<Visit>): Memory {
    if |vs| == 0 then mem
    else
      var m := Effect(mem, vs[..|vs| - 1]);
      var l := vs[|vs| - 1].leaf;
      if Clears(m, l) then ClearAf(m, l) else m
  }

  /** The flags the callback reports for entry `l` of memory `mem`; upper levels are reported as holes. */
  function Report(mem: Memory, a: nat, l: Leaf): Visit
    requires There(mem, l)
  {
    if l.level >= 2 then Visit(a, l, mem[l.t][l.i].af, mem[l.t][l.i].valid, a)
    else Visit(a, l, false, false, a + Granule(l.level))
  }

  /** Every visit reports the entry as the visits before it left it. */
  ghost predicate Reports(mem: Memory, vs: seq<Visit>) {
    forall k | 0 <= k < |vs| ::
      There(Effect(mem, vs[..k]), vs[k].leaf) &&
      vs[k] == Report(Effect(mem, vs[..k]), vs[k].addr, vs[k].leaf)
  }

  class Walker {
    ghost const mem0: Memory
    const end: nat
    var mem: Memory
    var addr: nat
    var log: seq<Visit>

    ghost predicate Valid()
      reads this
    {
      SameShape(mem0, mem) && mem == Effect(mem0, log) && Reports(mem0, log)
    }

    constructor (m: Memory, start: nat, stop: nat)
      ensures Valid() && mem0 == m && end == stop && addr == start && log == []
    {
      mem0, mem, addr, end, log := m, m, start, stop, [];
    }

    /** The range walker's callback on an entry that is not a table. */
    method RangeWalker(l: Leaf)
      requires There(mem, l)
      modifies this`mem, this`log
      ensures mem == Touched(old(mem), l)
      ensures log == old(log) + [Report(old(mem), addr, l)]
    {
      var pte := mem[l.t][l.i];
      if l.level < 2 {
        var holeEnd := addr + Granule(l.level);
        log := log + [Visit(addr, l, false, false, holeEnd)];
        return;
      }
      log := log + [Visit(addr, l, pte.af, pte.valid, addr)];
      if pte.af && pte.valid {
        mem := mem[l.t := mem[l.t][l.i := pte.(af := false)]];
      }
    }

    /** The callback, then the cursor moves on. */
    method VisitLeaf(t: nat, i: nat, level: Level)
      requires Valid() && There(mem, Leaf(t, i, level))
      modifies this
      ensures Valid() && addr == EntryEnd(old(addr), level)
      ensures log == old(log) + [Report(old(mem), old(addr), Leaf(t, i, level))]
    {
      var l := Leaf(t, i, level);
      LeafDone(mem0, mem, log, Report(mem, addr, l));
      RangeWalker(l);
      addr := AlignDown(addr, Granule(level));
      addr := addr + Granule(level);
    }

    method VisitEntry(t: nat, i: nat, level: Level)
      requires Valid() && WellFormed(mem0, t, level) && addr < end && i == Idx(addr, level)
      modifies this
      ensures Valid() && old(log) <= log
      ensures Walks(mem0, t, level, old(addr), addr, end, log[|old(log)|..])
      ensures addr <= EntryEnd(old(addr), level) && (addr < end ==> addr == EntryEnd(old(addr), level))
      decreases 3 - level, 0
    {
      var pte := mem[t][i];
      assert pte == mem0[t][i].(af := pte.af);
      if IsTable(pte, level) {
        ChildSpan(addr, level);
        ghost var a0 := addr;
        WalkTable(pte.target, level + 1);
        WalksLift(mem0, t, level, a0, a0, addr, end, log[|old(log)|..]);
      } else {
        VisitLeaf(t, i, level);
        assert log[|old(log)|..] == [log[|old(log)|]];
        assert Lookup(mem0, t, level, old(addr)) == Leaf(t, i, level);
      }
    }

    /** The loop of the table walk stands at entry `idx`, having come from `a0` with `log0`. */
    ghost predicate AtEntry(t: nat, level: Level, idx: nat, a0: nat, log0: seq<Visit>)
      requires WellFormed(mem0, t, level)
      reads this
    {
      && Valid() && log0 <= log && idx <= PTRS
      && Walks(mem0, t, level, a0, addr, end, log[|log0|..])
      && InStep(level, idx, a0, addr, end)
    }

    /** One iteration. */
    method WalkOne(t: nat, level: Level, idx: nat, ghost a0: nat, ghost log0: seq<Visit>)
      requires WellFormed(mem0, t, level) && idx < PTRS && addr < end && AtEntry(t, level, idx, a0, log0)
      modifies this
      ensures AtEntry(t, level, idx + 1, a0, log0)
      decreases 3 - level, 1
    {
      ghost var a1, log1 := addr, log;
      VisitEntry(t, idx, level);
      WalksFurther(mem0, t, level, a0, a1, addr, end, log0, log1, log);
      Advance(level, idx, a0, a1, addr, end);
    }

    method WalkTable(t: nat, level: Level)
      requires Valid() && WellFormed(mem0, t, level) && addr < end
      modifies this
      ensures Valid() && old(log) <= log
      ensures Walks(mem0, t, level, old(addr), addr, end, log[|old(log)|..])
      ensures addr <= TableEnd(old(addr), level) && (addr < end ==> addr == TableEnd(old(addr), level))
      decreases 3 - level, 2
    {
      ghost var a0, log0 := addr, log;
      var idx := Idx(addr, level);
      NextEntry(addr, level);
      assert log[|log0|..] == [];
      while idx < PTRS
        invariant AtEntry(t, level, idx, a0, log0)
        decreases PTRS - idx
      {
        if addr >= end {
          break;
        }
        WalkOne(t, level, idx, a0, log0);
        idx := idx + 1;
      }
    }
  }

  /** The entry as the callback leaves it: only a young and valid one of the last two levels is written. */
  function Touched(mem: Memory, l: Leaf): Memory
    requires There(mem, l)
  {
    if l.level >= 2 && mem[l.t][l.i].af && mem[l.t][l.i].valid then ClearAf(mem, l) else mem
  }

  lemma {:induction false} LeafDone(mem0: Memory, mem: Memory, log: seq<Visit>, v: Visit)
    requires SameShape(mem0, mem) && mem == Effect(mem0, log) && Reports(mem0, log)
    requires There(mem, v.leaf) && v == Report(mem, v.addr, v.leaf)
    ensures var m := Touched(mem, v.leaf);
      SameShape(mem0, m) && m == Effect(mem0, log + [v]) && Reports(mem0, log + [v])
  {
    EffectSnoc(mem0, log, v);
    ReportsSnoc(mem0, log, v);
    var l := v.leaf;
    if !mem[l.t][l.i].af {
      FlagAlreadyClear(mem, l);
    }
    ClearShape(mem0, mem, l);
  }

  lemma {:induction false} ClearShape(mem0: Memory, mem: Memory, l: Leaf)
    requires SameShape(mem0, mem) && There(mem, l)
    ensures SameShape(mem0, ClearAf(mem, l))
  {
  }

  /** While the cursor is in range, the loop index is the index of the entry it stands on. */
  ghost predicate InStep(level: Level, idx: nat, a0: nat, a: nat, end: nat) {
    && a <= TableEnd(a0, level)
    && (a < end && idx < PTRS ==> idx == Idx(a, level) && TableEnd(a, level) == TableEnd(a0, level))
    && (a < end && idx == PTRS ==> a == TableEnd(a0, level))
  }

  lemma Advance(level: Level, idx: nat, a0: nat, a1: nat, a: nat, end: nat)
    requires idx < PTRS && a1 < end && InStep(level, idx, a0, a1, end)
    requires a <= EntryEnd(a1, level) && (a < end ==> a == EntryEnd(a1, level))
    ensures InStep(level, idx + 1, a0, a, end)
  {
    NextEntry(a1, level);
  }

  lemma {:induction false} EffectSnoc(mem0: Memory, log: seq<Visit>, v: Visit)
    ensures Effect(mem0, log + [v])
         == if Clears(Effect(mem0, log), v.leaf) then ClearAf(Effect(mem0, log), v.leaf) else Effect(mem0, log)
  {
    assert (log + [v])[..|log|] == log;
  }

  lemma {:induction false} ReportsSnoc(mem0: Memory, log: seq<Visit>, v: Visit)
    requires Reports(mem0, log) && There(Effect(mem0, log), v.leaf) && v == Report(Effect(mem0, log), v.addr, v.leaf)
    ensures Reports(mem0, log + [v])
  {
    var all := log + [v];
    forall k | 0 <= k < |all|
      ensures There(Effect(mem0, all[..k]), all[k].leaf)
      ensures all[k] == Report(Effect(mem0, all[..k]), all[k].addr, all[k].leaf)
    {
      assert all[..k] == log[..k];
      if k == |log| {
        assert log[..k] == log;
      }
    }
  }

  lemma FlagAlreadyClear(mem: Memory, l: Leaf)
    requires There(mem, l) && !mem[l.t][l.i].af
    ensures ClearAf(mem, l) == mem
  {
    assert mem[l.t][l.i := mem[l.t][l.i].(af := false)] == mem[l.t];
  }

  // ---------------------------------------------------------------- the top of the walk

  /** A page table: its concatenated top-level tables, each spanning one run of 512 entries. */
  datatype PgTable = PgTable(pgd: seq<nat>, startLevel: Level, limit: nat)

  /** Bytes one top-level table maps. */
  function Span(level: Level): nat {
    PTRS * Granule(level)
  }

  /** The top-level tables reach the address limit and are well formed. */
  ghost predicate PgtOk(mem: Memory, pgt: PgTable) {
    && pgt.limit <= |pgt.pgd| * Span(pgt.startLevel)
    && forall i | 0 <= i < |pgt.pgd| :: WellFormed(mem, pgt.pgd[i], pgt.startLevel)
  }

  /** kvm_pgd_page_idx. */
  function PgdIdx(a: nat, level: Level): nat {
    a / Span(level)
  }

  lemma PgdInRange(mem: Memory, pgt: PgTable, a: nat)
    requires PgtOk(mem, pgt) && a < pgt.limit
    ensures PgdIdx(a, pgt.startLevel) < |pgt.pgd|
  {
    var s, n := Span(pgt.startLevel), |pgt.pgd|;
    DivBounds(a, s);
    if a / s >= n {
      MulMono(n, a / s, s);
      assert false;
    }
  }

  /** Lookup from the top. */
  ghost function TopLookup(mem: Memory, pgt: PgTable, a: nat): (l: Leaf)
    requires PgtOk(mem, pgt) && a < pgt.limit
    ensures pgt.startLevel <= l.level && l.t in mem && |mem[l.t]| == PTRS && l.i < PTRS
    ensures l.level == 3 || !(mem[l.t][l.i].valid && mem[l.t][l.i].table)
  {
    PgdInRange(mem, pgt, a);
    Lookup(mem, pgt.pgd[PgdIdx(a, pgt.startLevel)], pgt.startLevel, a)
  }

  /** The plain walk of the whole range: look up, visit, step over the leaf. */
  ghost predicate TopWalks(mem: Memory, pgt: PgTable, a: nat, b: nat, end: nat, vs: seq<Visit>)
    requires PgtOk(mem, pgt) && end <= pgt.limit
    decreases |vs|
  {
    if vs == [] then a == b
    else
      && a < end && vs[0].addr == a && vs[0].leaf == TopLookup(mem, pgt, a)
      && TopWalks(mem, pgt, Next(vs[0]), b, end, vs[1..])
  }

  lemma {:induction false} TopConcat(
      mem: Memory, pgt: PgTable, a: nat, b: nat, c: nat, end: nat, xs: seq<Visit>, ys: seq<Visit>)
    requires PgtOk(mem, pgt) && end <= pgt.limit
    requires TopWalks(mem, pgt, a, b, end, xs) && TopWalks(mem, pgt, b, c, end, ys)
    ensures TopWalks(mem, pgt, a, c, end, xs + ys)
    decreases |xs|
  {
    if |xs| == 0 {
      assert xs + ys == ys;
    } else {
      Regroup(xs, ys);
      TopHead(mem, pgt, a, b, end, xs);
      TopConcat(mem, pgt, Next(xs[0]), b, c, end, xs[1..], ys);
      TopCons(mem, pgt, a, c, end, xs[0], xs[1..] + ys);
    }
  }

  lemma {:induction false} TopHead(mem: Memory, pgt: PgTable, a: nat, b: nat, end: nat, vs: seq<Visit>)
    requires PgtOk(mem, pgt) && end <= pgt.limit && |vs| > 0 && TopWalks(mem, pgt, a, b, end, vs)
    ensures a < end && vs[0].addr == a && vs[0].leaf == TopLookup(mem, pgt, a)
    ensures TopWalks(mem, pgt, Next(vs[0]), b, end, vs[1..])
  {
  }

  lemma {:induction false} TopCons(mem: Memory, pgt: PgTable, a: nat, b: nat, end: nat, v: Visit, vs: seq<Visit>)
    requires PgtOk(mem, pgt) && end <= pgt.limit && a < end && v.addr == a && v.leaf == TopLookup(mem, pgt, a)
    requires TopWalks(mem, pgt, Next(v), b, end, vs)
    ensures TopWalks(mem, pgt, a, b, end, [v] + vs)
  {
    assert ([v] + vs)[1..] == vs;
  }

  /** Inside one top-level table the walk of that table is the walk from the top. */
  lemma {:induction false} TopLift(mem: Memory, pgt: PgTable, p: nat, a: nat, b: nat, end: nat, vs: seq<Visit>)
    requires PgtOk(mem, pgt) && end <= pgt.limit && p < |pgt.pgd|
    requires Walks(mem, pgt.pgd[p], pgt.startLevel, a, b, end, vs)
    requires p * Span(pgt.startLevel) <= a && b <= (p + 1) * Span(pgt.startLevel)
    ensures TopWalks(mem, pgt, a, b, end, vs)
    decreases |vs|
  {
    if vs != [] {
      var s := Span(pgt.startLevel);
      WalksForward(mem, pgt.pgd[p], pgt.startLevel, a, b, end, vs);
      MulAdd(p, 1, s);
      DivUnique(a, s, p);
      NextEntry(a, vs[0].leaf.level);
      TopLift(mem, pgt, p, Next(vs[0]), b, end, vs[1..]);
    }
  }

  datatype WalkStatus = WalkOk | WalkRange | WalkInval

  /**
   _kvm_pgtable_walk from the cursor to the end: the recursive walk visits exactly the leaves of the
   plain walk.
   */
  method WalkPgTable(w: Walker, pgt: PgTable) returns (st: WalkStatus)
    requires w.Valid() && w.log == [] && PgtOk(w.mem0, pgt)
    modifies w
    ensures w.Valid()
    ensures st == if old(w.addr) > pgt.limit || w.end > pgt.limit then WalkRange
                  else if pgt.pgd == [] then WalkInval else WalkOk
    ensures !st.WalkOk? ==> w.log == []
    ensures st.WalkOk? ==>
      TopWalks(w.mem0, pgt, old(w.addr), w.addr, w.end, w.log) && w.addr >= w.end
  {
    if w.addr > pgt.limit || w.end > pgt.limit {
      return WalkRange;
    }
    if pgt.pgd == [] {
      return WalkInval;
    }
    ghost var a0 := w.addr;
    var idx := PgdIdx(w.addr, pgt.startLevel);
    while w.addr < w.end
      invariant w.Valid() && TopWalks(w.mem0, pgt, a0, w.addr, w.end, w.log)
      invariant w.addr < w.end ==> idx == PgdIdx(w.addr, pgt.startLevel)
      decreases if w.addr < w.end then w.end - w.addr else 0
    {
      WalkTop(w, pgt, idx, a0);
      idx := idx + 1;
    }
    return WalkOk;
  }

  /** One top-level table. */
  method WalkTop(w: Walker, pgt: PgTable, idx: nat, ghost a0: nat)
    requires w.Valid() && PgtOk(w.mem0, pgt) && w.end <= pgt.limit && w.addr < w.end
    requires idx == PgdIdx(w.addr, pgt.startLevel) && TopWalks(w.mem0, pgt, a0, w.addr, w.end, w.log)
    modifies w
    ensures w.Valid() && TopWalks(w.mem0, pgt, a0, w.addr, w.end, w.log)
    ensures old(w.addr) < w.addr && (w.addr < w.end ==> idx + 1 == PgdIdx(w.addr, pgt.startLevel))
  {
    PgdInRange(w.mem0, pgt, w.addr);
    ghost var a1, log1 := w.addr, w.log;
    TableBounds(a1, pgt.startLevel, idx);
    w.WalkTable(pgt.pgd[idx], pgt.startLevel);
    TopFurther(w.mem0, pgt, idx, a0, a1, w.addr, w.end, log1, w.log);
  }

  /** The log of the walk from the top, continued through table `p`. */
  lemma {:induction false} TopFurther(
      mem: Memory, pgt: PgTable, p: nat, a0: nat, a1: nat, a: nat, end: nat, log1: seq<Visit>, log: seq<Visit>)
    requires PgtOk(mem, pgt) && end <= pgt.limit && p < |pgt.pgd| && log1 <= log && a1 < end
    requires TopWalks(mem, pgt, a0, a1, end, log1)
    requires Walks(mem, pgt.pgd[p], pgt.startLevel, a1, a, end, log[|log1|..])
    requires p * Span(pgt.startLevel) <= a1 && a <= (p + 1) * Span(pgt.startLevel)
    requires a < end ==> a1 < a
    ensures TopWalks(mem, pgt, a0, a, end, log) && a1 < a
  {
    TopLift(mem, pgt, p, a1, a, end, log[|log1|..]);
    TopConcat(mem, pgt, a0, a1, a, end, log1, log[|log1|..]);
    assert log == log1 + log[|log1|..];
  }

  lemma TableBounds(a: nat, level: Level, p: nat)
    requires p == PgdIdx(a, level)
    ensures p * Span(level) <= a < (p + 1) * Span(level) == TableEnd(a, level)
    ensures PgdIdx(TableEnd(a, level), level) == p + 1
  {
    DivBounds(a, Span(level));
    MulAdd(p, 1, Span(level));
    MulMod(p + 1, Span(level));
  }
}
