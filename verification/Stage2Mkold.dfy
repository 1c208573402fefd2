/** What one run of the range walk guarantees: tiling, coverage, exact access-flag clearing. */
module Stage2Mkold {
  import opened Arith
  import opened Common
  import opened Stage2Walk

  // ---------------------------------------------------------------- tiling and coverage

  /** A lookup gives the same leaf everywhere in the leaf's granule. */
  lemma {:induction false} LookupSame(mem: Memory, t: nat, level: Level, a: nat, x: nat)
    requires WellFormed(mem, t, level)
    requires var l := Lookup(mem, t, level, a); AlignDown(a, Granule(l.level)) <= x < EntryEnd(a, l.level)
    ensures Lookup(mem, t, level, x) == Lookup(mem, t, level, a)
    decreases 3 - level
  {
    var l := Lookup(mem, t, level, a);
    assert Idx(x, level) == Idx(a, level) by {
      Nested(a, x, level, l.level);
    }
    if IsTable(mem[t][Idx(a, level)], level) {
      LookupSame(mem, mem[t][Idx(a, level)].target, level + 1, a, x);
    }
  }

  lemma {:induction false} TopLookupSame(mem: Memory, pgt: PgTable, a: nat, x: nat)
    requires PgtOk(mem, pgt) && a < pgt.limit && x < pgt.limit
    requires var l := TopLookup(mem, pgt, a); AlignDown(a, Granule(l.level)) <= x < EntryEnd(a, l.level)
    ensures TopLookup(mem, pgt, x) == TopLookup(mem, pgt, a)
  {
    var g := Granule(pgt.startLevel);
    PgdInRange(mem, pgt, a);
    assert PgdIdx(x, pgt.startLevel) == PgdIdx(a, pgt.startLevel) by {
      Nested(a, x, pgt.startLevel, TopLookup(mem, pgt, a).level);
      DivDiv(a, g, PTRS);
      DivDiv(x, g, PTRS);
    }
    LookupSame(mem, pgt.pgd[PgdIdx(a, pgt.startLevel)], pgt.startLevel, a, x);
  }

  /** The walk tiles the range: each leaf starts where the one before ends. */
  lemma {:induction false} Tiles(mem: Memory, pgt: PgTable, a: nat, b: nat, end: nat, vs: seq<Visit>, k: nat)
    requires PgtOk(mem, pgt) && end <= pgt.limit && TopWalks(mem, pgt, a, b, end, vs) && k < |vs|
    ensures vs[k].addr < end && vs[k].leaf == TopLookup(mem, pgt, vs[k].addr)
    ensures vs[k].addr == if k == 0 then a else Next(vs[k - 1])
    ensures k == |vs| - 1 ==> Next(vs[k]) == b
    decreases |vs|
  {
    if k > 0 {
      Tiles(mem, pgt, Next(vs[0]), b, end, vs[1..], k - 1);
    } else if |vs| == 1 {
      assert vs[1..] == [];
    }
  }

  /** Every address of the range lies in a visited leaf, the one a lookup of the address finds. */
  lemma {:induction false} Covers(mem: Memory, pgt: PgTable, a: nat, b: nat, end: nat, vs: seq<Visit>, x: nat)
    returns (k: nat)
    requires PgtOk(mem, pgt) && end <= pgt.limit && TopWalks(mem, pgt, a, b, end, vs) && a <= x < b && x < pgt.limit
    ensures k < |vs| && vs[k].addr <= x < Next(vs[k]) && TopLookup(mem, pgt, x) == vs[k].leaf
    decreases |vs|
  {
    if x < Next(vs[0]) {
      TopLookupSame(mem, pgt, a, x);
      k := 0;
    } else {
      k := Covers(mem, pgt, Next(vs[0]), b, end, vs[1..], x);
      k := k + 1;
    }
  }

  lemma {:induction false} NextAscends(
      mem: Memory, pgt: PgTable, a: nat, b: nat, end: nat, vs: seq<Visit>, j: nat, k: nat)
    requires PgtOk(mem, pgt) && end <= pgt.limit && TopWalks(mem, pgt, a, b, end, vs) && j < k < |vs|
    ensures Next(vs[j]) < Next(vs[k])
    decreases k - j
  {
    Tiles(mem, pgt, a, b, end, vs, k);
    NextEntry(vs[k].addr, vs[k].leaf.level);
    if j < k - 1 {
      NextAscends(mem, pgt, a, b, end, vs, j, k - 1);
    }
  }

  /** Of all visited leaves only one has the address in its granule. */
  lemma {:induction false} CoversOnce(
      mem: Memory, pgt: PgTable, a: nat, b: nat, end: nat, vs: seq<Visit>, x: nat, j: nat, k: nat)
    requires PgtOk(mem, pgt) && end <= pgt.limit && TopWalks(mem, pgt, a, b, end, vs) && x < pgt.limit
    requires j < |vs| && AlignDown(vs[j].addr, Granule(vs[j].leaf.level)) <= x < Next(vs[j])
    requires k < |vs| && AlignDown(vs[k].addr, Granule(vs[k].leaf.level)) <= x < Next(vs[k])
    ensures j == k
  {
    Tiles(mem, pgt, a, b, end, vs, j);
    Tiles(mem, pgt, a, b, end, vs, k);
    TopLookupSame(mem, pgt, vs[j].addr, x);
    TopLookupSame(mem, pgt, vs[k].addr, x);
    assert Next(vs[j]) == Next(vs[k]) by {
      SameEntry(vs[j].addr, x, vs[j].leaf.level);
      SameEntry(vs[k].addr, x, vs[k].leaf.level);
    }
    if j < k {
      NextAscends(mem, pgt, a, b, end, vs, j, k);
    } else if k < j {
      NextAscends(mem, pgt, a, b, end, vs, k, j);
    }
  }

  // ---------------------------------------------------------------- exact clearing

  /** The visits reach entry `i` of table `t` at one of the last two levels. */
  ghost predicate Hit(vs: seq<Visit>, t: nat, i: nat) {
    exists k :: 0 <= k < |vs| && vs[k].leaf.t == t && vs[k].leaf.i == i && vs[k].leaf.level >= 2
  }

  /** An entry keeps everything but its access flag, which is cleared iff the entry is valid and visited. */
  lemma {:induction false} EffectAt(mem: Memory, vs: seq<Visit>, t: nat, i: nat)
    requires t in mem && i < |mem[t]|
    ensures t in Effect(mem, vs) && |Effect(mem, vs)[t]| == |mem[t]|
    ensures Effect(mem, vs)[t][i] == mem[t][i].(af := mem[t][i].af && !(mem[t][i].valid && Hit(vs, t, i)))
    decreases |vs|
  {
    if vs != [] {
      var n := |vs| - 1;
      EffectAt(mem, vs[..n], t, i);
      assert Hit(vs, t, i) <==>
        Hit(vs[..n], t, i) || (vs[n].leaf.t == t && vs[n].leaf.i == i && vs[n].leaf.level >= 2) by {
        assert forall k | 0 <= k < n :: vs[..n][k] == vs[k];
      }
    }
  }

  lemma {:induction false} EffectKeys(mem: Memory, vs: seq<Visit>)
    ensures Effect(mem, vs).Keys == mem.Keys
    decreases |vs|
  {
    if vs != [] {
      EffectKeys(mem, vs[..|vs| - 1]);
    }
  }

  lemma EffectShape(mem: Memory, vs: seq<Visit>)
    ensures SameShape(mem, Effect(mem, vs))
  {
    var m: Memory := Effect(mem, vs);
    EffectKeys(mem, vs);
    forall t | t in mem
      ensures |m[t]| == |mem[t]|
      ensures forall i | 0 <= i < |mem[t]| :: m[t][i] == mem[t][i].(af := m[t][i].af)
    {
      EffectLen(mem, vs, t);
      forall i | 0 <= i < |mem[t]|
        ensures m[t][i] == mem[t][i].(af := m[t][i].af)
      {
        EffectAt(mem, vs, t, i);
      }
    }
  }

  lemma {:induction false} EffectLen(mem: Memory, vs: seq<Visit>, t: nat)
    requires t in mem
    ensures t in Effect(mem, vs) && |Effect(mem, vs)[t]| == |mem[t]|
    decreases |vs|
  {
    if vs != [] {
      EffectLen(mem, vs[..|vs| - 1], t);
    }
  }

  /** Some address of the range is mapped by entry `i` of table `t`, at one of the last two levels. */
  ghost predicate MapsRange(mem: Memory, pgt: PgTable, a: nat, end: nat, t: nat, i: nat)
    requires PgtOk(mem, pgt) && end <= pgt.limit
  {
    exists x :: a <= x < end && Maps(TopLookup(mem, pgt, x), t, i)
  }

  predicate Maps(l: Leaf, t: nat, i: nat) {
    l.t == t && l.i == i && l.level >= 2
  }

  /** The walk hits exactly the entries that map an address of the range. */
  lemma {:induction false} HitIff(mem: Memory, pgt: PgTable, a: nat, b: nat, end: nat, vs: seq<Visit>, t: nat, i: nat)
    requires PgtOk(mem, pgt) && end <= pgt.limit && TopWalks(mem, pgt, a, b, end, vs) && end <= b
    ensures Hit(vs, t, i) <==> MapsRange(mem, pgt, a, end, t, i)
  {
    if Hit(vs, t, i) {
      var k :| 0 <= k < |vs| && vs[k].leaf.t == t && vs[k].leaf.i == i && vs[k].leaf.level >= 2;
      Tiles(mem, pgt, a, b, end, vs, k);
      AddrFrom(mem, pgt, a, b, end, vs, k);
      assert Maps(TopLookup(mem, pgt, vs[k].addr), t, i);
    }
    if MapsRange(mem, pgt, a, end, t, i) {
      var x :| a <= x < end && Maps(TopLookup(mem, pgt, x), t, i);
      var k := Covers(mem, pgt, a, b, end, vs, x);
      assert vs[k].leaf.t == t;
    }
  }

  lemma {:induction false} AddrFrom(mem: Memory, pgt: PgTable, a: nat, b: nat, end: nat, vs: seq<Visit>, k: nat)
    requires PgtOk(mem, pgt) && end <= pgt.limit && TopWalks(mem, pgt, a, b, end, vs) && k < |vs|
    ensures a <= vs[k].addr
    decreases k
  {
    Tiles(mem, pgt, a, b, end, vs, k);
    if k > 0 {
      AddrFrom(mem, pgt, a, b, end, vs, k - 1);
      NextEntry(vs[k - 1].addr, vs[k - 1].leaf.level);
    }
  }

  /**
   After a completed run an entry has lost its access flag iff it is a valid leaf of the last two levels
   that maps some address of the range; nothing else in the memory has changed.
   */
  lemma MkoldExact(mem: Memory, pgt: PgTable, a: nat, b: nat, end: nat, vs: seq<Visit>, t: nat, i: nat)
    requires PgtOk(mem, pgt) && end <= pgt.limit && TopWalks(mem, pgt, a, b, end, vs) && end <= b
    requires t in mem && i < |mem[t]|
    ensures SameShape(mem, Effect(mem, vs))
    ensures Effect(mem, vs)[t][i].af ==
      (mem[t][i].af && !(mem[t][i].valid && MapsRange(mem, pgt, a, end, t, i)))
  {
    EffectShape(mem, vs);
    EffectAt(mem, vs, t, i);
    HitIff(mem, pgt, a, b, end, vs, t, i);
  }

  // ---------------------------------------------------------------- what the young callback is told

  /** A visit reports the old flag, cleared if an earlier visit already reached the same entry. */
  lemma ReportedFlag(mem: Memory, vs: seq<Visit>, k: nat)
    requires Reports(mem, vs) && k < |vs| && vs[k].leaf.level >= 2
    ensures There(mem, vs[k].leaf)
    ensures var l := vs[k].leaf; var pte := mem[l.t][l.i];
      vs[k].valid == pte.valid && vs[k].young == (pte.af && !(pte.valid && Hit(vs[..k], l.t, l.i)))
  {
    var l := vs[k].leaf;
    EffectKeys(mem, vs[..k]);
    EffectLen(mem, vs[..k], l.t);
    EffectAt(mem, vs[..k], l.t, l.i);
  }

  /** Leaves of the last two levels that are one and the same entry. */
  predicate SameEntryOf(l: Leaf, m: Leaf) {
    l.level >= 2 && m.level >= 2 && l.t == m.t && l.i == m.i
  }

  /** `x` and `y` lie in different blocks. */
  predicate Apart(x: nat, l: Leaf, y: nat, m: Leaf) {
    l.level != m.level || x / Granule(l.level) != y / Granule(l.level)
  }

  /** A valid entry with its access flag set. */
  predicate YoungEntry(mem: Memory, l: Leaf) {
    There(mem, l) && mem[l.t][l.i].valid && mem[l.t][l.i].af
  }

  /** One entry of the last two levels maps two blocks of the range; with `young`, a young and valid entry. */
  ghost predicate Shared(mem: Memory, pgt: PgTable, a: nat, end: nat, young: bool)
    requires PgtOk(mem, pgt) && end <= pgt.limit
  {
    exists x, y :: a <= x < end && a <= y < end && SharedAt(mem, TopLookup(mem, pgt, x), TopLookup(mem, pgt, y), x, y, young)
  }

  predicate SharedAt(mem: Memory, l: Leaf, m: Leaf, x: nat, y: nat, young: bool) {
    SameEntryOf(l, m) && Apart(x, l, y, m) && (young ==> YoungEntry(mem, l))
  }

  /** Two visits of one entry, the entry young and valid if `young`. */
  ghost predicate VisitedTwice(mem: Memory, vs: seq<Visit>, young: bool) {
    exists j, k :: 0 <= j < k < |vs| && SameEntryOf(vs[j].leaf, vs[k].leaf) && (young ==> YoungEntry(mem, vs[k].leaf))
  }

  /** Two visits are in different blocks. */
  lemma {:induction false} VisitsApart(
      mem: Memory, pgt: PgTable, a: nat, b: nat, end: nat, vs: seq<Visit>, j: nat, k: nat)
    requires PgtOk(mem, pgt) && end <= pgt.limit && TopWalks(mem, pgt, a, b, end, vs) && j < k < |vs|
    ensures Apart(vs[j].addr, vs[j].leaf, vs[k].addr, vs[k].leaf)
  {
    if !Apart(vs[j].addr, vs[j].leaf, vs[k].addr, vs[k].leaf) {
      var g := Granule(vs[k].leaf.level);
      Tiles(mem, pgt, a, b, end, vs, k);
      NextEntry(vs[k].addr, vs[k].leaf.level);
      DivBounds(vs[k].addr, g);
      CoversOnce(mem, pgt, a, b, end, vs, vs[k].addr, j, k);
    }
  }

  /** An entry is visited twice exactly when it maps two blocks of the range. */
  lemma {:induction false} VisitedTwiceIff(
      mem: Memory, pgt: PgTable, a: nat, b: nat, end: nat, vs: seq<Visit>, young: bool)
    requires PgtOk(mem, pgt) && end <= pgt.limit && TopWalks(mem, pgt, a, b, end, vs) && end <= b
    ensures VisitedTwice(mem, vs, young) <==> Shared(mem, pgt, a, end, young)
  {
    if VisitedTwice(mem, vs, young) {
      var j, k :| 0 <= j < k < |vs| && SameEntryOf(vs[j].leaf, vs[k].leaf) && (young ==> YoungEntry(mem, vs[k].leaf));
      TwiceIsShared(mem, pgt, a, b, end, vs, young, j, k);
    }
    if Shared(mem, pgt, a, end, young) {
      var x, y :| a <= x < end && a <= y < end &&
        SharedAt(mem, TopLookup(mem, pgt, x), TopLookup(mem, pgt, y), x, y, young);
      SharedIsTwice(mem, pgt, a, b, end, vs, young, x, y);
    }
  }

  lemma {:induction false} TwiceIsShared(
      mem: Memory, pgt: PgTable, a: nat, b: nat, end: nat, vs: seq<Visit>, young: bool, j: nat, k: nat)
    requires PgtOk(mem, pgt) && end <= pgt.limit && TopWalks(mem, pgt, a, b, end, vs)
    requires j < k < |vs| && SameEntryOf(vs[j].leaf, vs[k].leaf) && (young ==> YoungEntry(mem, vs[k].leaf))
    ensures Shared(mem, pgt, a, end, young)
  {
    Tiles(mem, pgt, a, b, end, vs, j);
    Tiles(mem, pgt, a, b, end, vs, k);
    AddrFrom(mem, pgt, a, b, end, vs, j);
    AddrFrom(mem, pgt, a, b, end, vs, k);
    VisitsApart(mem, pgt, a, b, end, vs, j, k);
    var x, y := vs[j].addr, vs[k].addr;
    assert SharedAt(mem, TopLookup(mem, pgt, x), TopLookup(mem, pgt, y), x, y, young);
  }

  lemma {:induction false} SharedIsTwice(
      mem: Memory, pgt: PgTable, a: nat, b: nat, end: nat, vs: seq<Visit>, young: bool, x: nat, y: nat)
    requires PgtOk(mem, pgt) && end <= pgt.limit && TopWalks(mem, pgt, a, b, end, vs) && end <= b
    requires a <= x < end && a <= y < end
    requires SharedAt(mem, TopLookup(mem, pgt, x), TopLookup(mem, pgt, y), x, y, young)
    ensures VisitedTwice(mem, vs, young)
  {
    var j := Covers(mem, pgt, a, b, end, vs, x);
    var k := Covers(mem, pgt, a, b, end, vs, y);
    assert j != k by {
      if j == k {
        var level := vs[j].leaf.level;
        DivBounds(vs[j].addr, Granule(level));
        SameEntry(vs[j].addr, x, level);
        SameEntry(vs[j].addr, y, level);
        assert false;
      }
    }
    if j < k {
      assert SameEntryOf(vs[j].leaf, vs[k].leaf);
    } else {
      assert SameEntryOf(vs[k].leaf, vs[j].leaf);
    }
  }

  /** Every visit of the last two levels reports the flags that its entry had before the run. */
  ghost predicate ReportsOld(mem: Memory, vs: seq<Visit>) {
    forall k | 0 <= k < |vs| && vs[k].leaf.level >= 2 ::
      var l := vs[k].leaf;
      There(mem, l) && vs[k].valid == mem[l.t][l.i].valid && vs[k].young == mem[l.t][l.i].af
  }

  lemma {:induction false} ReportsOldIff(mem: Memory, vs: seq<Visit>)
    requires Reports(mem, vs)
    ensures ReportsOld(mem, vs) <==> !VisitedTwice(mem, vs, true)
  {
    if VisitedTwice(mem, vs, true) {
      var j, k :| 0 <= j < k < |vs| && SameEntryOf(vs[j].leaf, vs[k].leaf) && YoungEntry(mem, vs[k].leaf);
      ReportedFlag(mem, vs, k);
      assert vs[..k][j] == vs[j];
      assert Hit(vs[..k], vs[k].leaf.t, vs[k].leaf.i);
    } else {
      forall k | 0 <= k < |vs| && vs[k].leaf.level >= 2
        ensures var l := vs[k].leaf;
          There(mem, l) && vs[k].valid == mem[l.t][l.i].valid && vs[k].young == mem[l.t][l.i].af
      {
        ReportedFlag(mem, vs, k);
        var l := vs[k].leaf;
        if Hit(vs[..k], l.t, l.i) {
          var j :| 0 <= j < |vs[..k]| && vs[..k][j].leaf.t == l.t && vs[..k][j].leaf.i == l.i && vs[..k][j].leaf.level >= 2;
          assert vs[j] == vs[..k][j] && SameEntryOf(vs[j].leaf, l);
        }
      }
    }
  }

  /**
   Every visit reports the flags from before the run exactly when no young and valid entry maps two blocks
   of the range; and every entry of the last two levels is visited at most once exactly when none does.
   */
  lemma {:induction false} OldFlagsIff(mem: Memory, pgt: PgTable, a: nat, b: nat, end: nat, vs: seq<Visit>)
    requires PgtOk(mem, pgt) && end <= pgt.limit && TopWalks(mem, pgt, a, b, end, vs) && end <= b && Reports(mem, vs)
    ensures ReportsOld(mem, vs) <==> !Shared(mem, pgt, a, end, true)
    ensures VisitedTwice(mem, vs, false) <==> Shared(mem, pgt, a, end, false)
  {
    ReportsOldIff(mem, vs);
    VisitedTwiceIff(mem, pgt, a, b, end, vs, true);
    VisitedTwiceIff(mem, pgt, a, b, end, vs, false);
  }

  // ---------------------------------------------------------------- what the hole callback is told

  /** The part of the range that lies in the visited leaf from the cursor on. */
  predicate InPart(v: Visit, end: nat, x: nat) {
    v.addr <= x < Next(v) && x < end
  }

  predicate InHole(v: Visit, x: nat) {
    v.addr <= x < v.holeEnd
  }

  /** The hole handed over is the leaf's part of the range exactly when it starts at the leaf and ends in the range. */
  lemma {:induction false} HoleIsPartIff(mem: Memory, vs: seq<Visit>, k: nat, end: nat)
    requires Reports(mem, vs) && k < |vs| && vs[k].leaf.level < 2 && vs[k].addr < end
    ensures (forall x: nat :: InHole(vs[k], x) <==> InPart(vs[k], end, x)) <==>
      vs[k].addr % Granule(vs[k].leaf.level) == 0 && vs[k].addr + Granule(vs[k].leaf.level) <= end
  {
    var v, g := vs[k], Granule(vs[k].leaf.level);
    assert v == Report(Effect(mem, vs[..k]), v.addr, v.leaf);
    AlignedIff(v.addr, g);
    if forall x: nat :: InHole(v, x) <==> InPart(v, end, x) {
      assert InHole(v, v.addr + g - 1);
      assert InPart(v, end, v.addr + g - 1);
    }
  }

  lemma AlignedIff(a: nat, g: nat)
    requires g > 0
    ensures AlignDown(a, g) == a <==> a % g == 0
  {
    DivBounds(a, g);
  }

  // ---------------------------------------------------------------- an entry that maps two blocks

  /** A table in which entries below `n` are `pte` and the others are empty. */
  function TableOf(n: nat, pte: Pte): (t: seq<Pte>)
    ensures |t| == PTRS && forall i | 0 <= i < PTRS :: t[i] == if i < n then pte else Pte(false, false, false, 0, 0)
  {
    seq(PTRS, i => if i < n then pte else Pte(false, false, false, 0, 0))
  }

  /** Two level-2 entries point to one level-3 table, whose first entry is young and valid. */
  const TWICE: Memory := map[1 := TableOf(2, Pte(true, true, false, 2, 0)), 2 := TableOf(1, Pte(true, true, true, 7, 0))]

  const TWO_BLOCKS: PgTable := PgTable([1], 2, 0x40_0000)

  lemma {:induction false} TwiceIsWellFormed()
    ensures PgtOk(TWICE, TWO_BLOCKS)
  {
    var mem := TWICE;
    assert mem[1] == TableOf(2, Pte(true, true, false, 2, 0)) && mem[2] == TableOf(1, Pte(true, true, true, 7, 0));
    assert WellFormed(mem, 2, 3);
    forall i | 0 <= i < PTRS && IsTable(mem[1][i], 2)
      ensures WellFormed(mem, mem[1][i].target, 3)
    {
      assert mem[1][i] == Pte(true, true, false, 2, 0);
    }
    assert WellFormed(mem, 1, 2);
  }

  /** The lookup of the first page of either block. */
  lemma {:induction false} TwiceLookup(x: nat)
    requires PgtOk(TWICE, TWO_BLOCKS) && (x == 0 || x == 0x20_0000)
    ensures TopLookup(TWICE, TWO_BLOCKS, x) == Leaf(2, 0, 3)
  {
    var mem := TWICE;
    assert mem[1] == TableOf(2, Pte(true, true, false, 2, 0)) && mem[2] == TableOf(1, Pte(true, true, true, 7, 0));
    assert Idx(x, 2) < 2 && Idx(x, 3) == 0 && PgdIdx(x, 2) == 0;
    assert mem[1][Idx(x, 2)] == Pte(true, true, false, 2, 0);
    assert Lookup(mem, 2, 3, x) == Leaf(2, 0, 3);
    assert Lookup(mem, 1, 2, x) == Lookup(mem, 2, 3, x);
  }

  /** Page tables in which a young and valid entry maps two blocks of a range exist. */
  lemma {:induction false} SharedTablesExist()
    ensures PgtOk(TWICE, TWO_BLOCKS) && Shared(TWICE, TWO_BLOCKS, 0, 0x40_0000, true)
  {
    TwiceIsWellFormed();
    TwiceLookup(0);
    TwiceLookup(0x20_0000);
    var l := Leaf(2, 0, 3);
    assert TWICE[2] == TableOf(1, Pte(true, true, true, 7, 0));
    assert SharedAt(TWICE, TopLookup(TWICE, TWO_BLOCKS, 0), TopLookup(TWICE, TWO_BLOCKS, 0x20_0000), 0, 0x20_0000, true);
  }

  // ---------------------------------------------------------------- a second run

  lemma {:induction false} ShapeWellFormed(m: Memory, n: Memory, t: nat, level: Level)
    requires SameShape(m, n) && WellFormed(m, t, level)
    ensures WellFormed(n, t, level)
    decreases 3 - level
  {
    forall i | 0 <= i < PTRS && IsTable(n[t][i], level)
      ensures WellFormed(n, n[t][i].target, level + 1)
    {
      assert n[t][i] == m[t][i].(af := n[t][i].af);
      ShapeWellFormed(m, n, m[t][i].target, level + 1);
    }
  }

  lemma {:induction false} ShapeLookup(m: Memory, n: Memory, t: nat, level: Level, x: nat)
    requires SameShape(m, n) && WellFormed(m, t, level) && WellFormed(n, t, level)
    ensures Lookup(n, t, level, x) == Lookup(m, t, level, x)
    decreases 3 - level
  {
    var i := Idx(x, level);
    assert n[t][i] == m[t][i].(af := n[t][i].af);
    if IsTable(m[t][i], level) {
      ShapeLookup(m, n, m[t][i].target, level + 1, x);
    }
  }

  lemma ShapeTop(m: Memory, n: Memory, pgt: PgTable)
    requires SameShape(m, n) && PgtOk(m, pgt)
    ensures PgtOk(n, pgt)
    ensures forall x | 0 <= x < pgt.limit :: TopLookup(n, pgt, x) == TopLookup(m, pgt, x)
  {
    forall i | 0 <= i < |pgt.pgd|
      ensures WellFormed(n, pgt.pgd[i], pgt.startLevel)
    {
      ShapeWellFormed(m, n, pgt.pgd[i], pgt.startLevel);
    }
    forall x | 0 <= x < pgt.limit
      ensures TopLookup(n, pgt, x) == TopLookup(m, pgt, x)
    {
      PgdInRange(m, pgt, x);
      ShapeLookup(m, n, pgt.pgd[PgdIdx(x, pgt.startLevel)], pgt.startLevel, x);
    }
  }

  /** Right after a completed run, a second run over the same range finds no valid leaf young. */
  lemma {:induction false} SecondRunIsOld(
      mem: Memory, pgt: PgTable, a: nat, b: nat, end: nat, vs: seq<Visit>, c: nat, ws: seq<Visit>, k: nat)
    requires PgtOk(mem, pgt) && end <= pgt.limit && TopWalks(mem, pgt, a, b, end, vs) && end <= b
    requires PgtOk(Effect(mem, vs), pgt) && TopWalks(Effect(mem, vs), pgt, a, c, end, ws) && Reports(Effect(mem, vs), ws)
    requires k < |ws|
    ensures !(ws[k].young && ws[k].valid)
  {
    var after := Effect(mem, vs);
    if ws[k].leaf.level >= 2 {
      var l := ws[k].leaf;
      ReportedFlag(after, ws, k);
      EffectShape(mem, vs);
      ShapeTop(mem, after, pgt);
      Tiles(after, pgt, a, c, end, ws, k);
      AddrFrom(after, pgt, a, c, end, ws, k);
      assert Maps(TopLookup(mem, pgt, ws[k].addr), l.t, l.i);
      assert MapsRange(mem, pgt, a, end, l.t, l.i);
      MkoldExact(mem, pgt, a, b, end, vs, l.t, l.i);
    } else {
      assert ws[k] == Report(Effect(after, ws[..k]), ws[k].addr, ws[k].leaf);
    }
  }

  // ---------------------------------------------------------------- the entry point

  const PAGE: nat := 0x1000

  /** PAGE_ALIGN on 64-bit values. */
  function PageAlign(x: nat): nat {
    AlignDown(x + PAGE - 1, PAGE) % U64
  }

  /** The end of the walk of `size` bytes from `addr`; both additions wrap. */
  function RangeEnd(addr: nat, size: nat): nat {
    PageAlign((AlignDown(addr, PAGE) + size) % U64)
  }

  /**
   The walk runs to the end of the range, rounded up to a page, unless that end is not a 64-bit value;
   then the walked range is empty, and the call succeeds without a visit.
   */
  lemma RangeEndIff(addr: nat, size: nat)
    requires addr < U64 && size < U64
    ensures var start, up := AlignDown(addr, PAGE), AlignDown(AlignDown(addr, PAGE) + size + PAGE - 1, PAGE);
      if up < U64 then RangeEnd(addr, size) == up && start + size <= up else RangeEnd(addr, size) <= start
  {
    var start := AlignDown(addr, PAGE);
    if start + size >= U64 {
      assert (start + size) % U64 == start + size - U64 < start;
    }
  }

  /** smap_kvm_pgtable_stage2_mkold_range. */
  method MkoldRange(mem: Memory, pgt: PgTable, addr: nat, size: nat)
    returns (after: Memory, log: seq<Visit>, st: WalkStatus)
    requires PgtOk(mem, pgt) && addr < U64 && size < U64
    ensures st == if AlignDown(addr, PAGE) > pgt.limit || RangeEnd(addr, size) > pgt.limit then WalkRange
                  else if pgt.pgd == [] then WalkInval else WalkOk
    ensures !st.WalkOk? ==> after == mem && log == []
    ensures st.WalkOk? ==> RangeEnd(addr, size) <= pgt.limit && Reports(mem, log) && SameShape(mem, after)
    ensures after == Effect(mem, log)
    ensures st.WalkOk? ==>
      exists b | b >= RangeEnd(addr, size) :: TopWalks(mem, pgt, AlignDown(addr, PAGE), b, RangeEnd(addr, size), log)
    ensures st.WalkOk? ==> forall t, i | t in mem && 0 <= i < |mem[t]| ::
      after[t][i].af ==
        (mem[t][i].af && !(mem[t][i].valid && MapsRange(mem, pgt, AlignDown(addr, PAGE), RangeEnd(addr, size), t, i)))
  {
    var start, end := AlignDown(addr, PAGE), RangeEnd(addr, size);
    var w := new Walker(mem, start, end);
    st := WalkPgTable(w, pgt);
    after, log := w.mem, w.log;
    if st.WalkOk? {
      forall t, i | t in mem && 0 <= i < |mem[t]|
        ensures after[t][i].af == (mem[t][i].af && !(mem[t][i].valid && MapsRange(mem, pgt, start, end, t, i)))
      {
        MkoldExact(mem, pgt, start, w.addr, end, log, t, i);
      }
    }
  }

  /** Two runs right after each other: the second sees no valid leaf young and leaves the memory as after the first. */
  method MkoldTwice(mem: Memory, pgt: PgTable, addr: nat, size: nat) returns (after: Memory, log: seq<Visit>, st: WalkStatus)
    requires PgtOk(mem, pgt) && addr < U64 && size < U64
    ensures st.WalkOk? ==> forall k | 0 <= k < |log| :: !(log[k].young && log[k].valid)
    ensures st.WalkOk? ==> SameShape(mem, after)
    ensures st.WalkOk? ==> RangeEnd(addr, size) <= pgt.limit && forall t, i | t in mem && 0 <= i < |mem[t]| ::
      after[t][i].af ==
        (mem[t][i].af && !(mem[t][i].valid && MapsRange(mem, pgt, AlignDown(addr, PAGE), RangeEnd(addr, size), t, i)))
  {
    var first, log1;
    first, log1, st := MkoldRange(mem, pgt, addr, size);
    if !st.WalkOk? {
      return first, [], st;
    }
    ghost var start, end := AlignDown(addr, PAGE), RangeEnd(addr, size);
    ShapeTop(mem, first, pgt);
    after, log, st := MkoldRange(first, pgt, addr, size);
    ghost var b :| b >= end && TopWalks(mem, pgt, start, b, end, log1);
    ghost var c :| c >= end && TopWalks(first, pgt, start, c, end, log);
    forall k | 0 <= k < |log|
      ensures !(log[k].young && log[k].valid)
    {
      SecondRunIsOld(mem, pgt, start, b, end, log1, c, log, k);
    }
    SameRange(mem, first, pgt, start, end);
  }

  lemma SameRange(m: Memory, n: Memory, pgt: PgTable, start: nat, end: nat)
    requires SameShape(m, n) && PgtOk(m, pgt) && PgtOk(n, pgt) && end <= pgt.limit
    ensures forall t: nat, i: nat :: MapsRange(n, pgt, start, end, t, i) <==> MapsRange(m, pgt, start, end, t, i)
  {
    ShapeTop(m, n, pgt);
    forall t: nat, i: nat
      ensures MapsRange(n, pgt, start, end, t, i) <==> MapsRange(m, pgt, start, end, t, i)
    {
      if MapsRange(n, pgt, start, end, t, i) {
        var x :| start <= x < end && Maps(TopLookup(n, pgt, x), t, i);
        assert Maps(TopLookup(m, pgt, x), t, i);
      }
      if MapsRange(m, pgt, start, end, t, i) {
        var x :| start <= x < end && Maps(TopLookup(m, pgt, x), t, i);
        assert Maps(TopLookup(n, pgt, x), t, i);
      }
    }
  }
}
