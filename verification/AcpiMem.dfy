/** Local memory: the ACPI segment list and its three translations (access_acpi_mem.c). */
module AcpiMem {
  import opened Arith
  import opened Common
  import opened Segments
  import opened PageIndex

  const PAGE_SIZE: nat := 4096
  const HUGE_PAGE: nat := 2097152
  const NUMA_NO_NODE: int := -1

  /** The segments of each node stand together in the list. */
  ghost predicate Grouped(segs: seq<Segment>) {
    forall i, j, k | 0 <= i < j < k < |segs| :: segs[i].node == segs[k].node ==> segs[j].node == segs[i].node
  }

  /** Bytes of the run of equal nodes that ends right before segment `j`. */
  function RunOff(segs: seq<Segment>, j: nat): int
    requires j < |segs|
  {
    if j == 0 || segs[j - 1].node != segs[j].node then 0
    else RunOff(segs, j - 1) + segs[j - 1].Len()
  }

  /** What the full search computes: the offset restarts whenever the node changes. */
  function FullSearch(segs: seq<Segment>, pa: nat, ps: nat): Option<(int, int)>
    requires ps > 0
  {
    var j := SegAt(segs, pa);
    if j >= 0 then Some((segs[j].node, (RunOff(segs, j) + pa - segs[j].start) / ps)) else None
  }

  lemma {:induction false} NoEarlierBytes(segs: seq<Segment>, nid: int, k: nat)
    requires k <= |segs| && forall i | 0 <= i < k :: segs[i].node != nid
    ensures BytesOf(segs[..k], nid) == 0
  {
    if k > 0 {
      BytesStep(segs, nid, k - 1);
      NoEarlierBytes(segs, nid, k - 1);
    }
  }

  /** In a grouped list the run before a segment holds all earlier bytes of its node. */
  lemma {:induction false} GroupedRun(segs: seq<Segment>, j: nat)
    requires Grouped(segs) && j < |segs|
    ensures RunOff(segs, j) == BytesOf(segs[..j], segs[j].node)
  {
    if j > 0 {
      BytesStep(segs, segs[j].node, j - 1);
      if segs[j - 1].node == segs[j].node {
        GroupedRun(segs, j - 1);
      } else {
        NoEarlierBytes(segs, segs[j].node, j);
      }
    }
  }

  /** A run never holds more bytes than its node has so far. */
  lemma {:induction false} RunWithinNode(segs: seq<Segment>, j: nat)
    requires Ascending(segs) && j < |segs|
    ensures 0 <= RunOff(segs, j) <= BytesOf(segs[..j], segs[j].node)
  {
    AscendingPrefix(segs, j);
    BytesNonneg(segs[..j], segs[j].node);
    if j > 0 && segs[j - 1].node == segs[j].node {
      RunWithinNode(segs, j - 1);
      BytesStep(segs, segs[j].node, j - 1);
    }
  }

  /** The full search stays below the node's page count, grouped or not. */
  lemma {:induction false} FullSearchBound(segs: seq<Segment>, pa: nat, ps: nat)
    requires ps > 0 && Ascending(segs) && SegAt(segs, pa) >= 0
    ensures var (nid, k) := FullSearch(segs, pa, ps).value;
      0 <= k < PageCount(segs, nid, ps)
  {
    var j := SegAt(segs, pa);
    RunWithinNode(segs, j);
    IndexBound(segs, pa, ps);
    DivMono(0, RunOff(segs, j) + pa - segs[j].start, ps);
    DivMono(RunOff(segs, j) + pa - segs[j].start, ByteOff(segs, pa), ps);
  }

  // ---------------------------------------------------------------- when the restart does no harm

  /** The full search gives every address its page index on its node. */
  ghost predicate SearchIsIndex(segs: seq<Segment>, ps: nat)
    requires ps > 0
  {
    forall pa: nat :: FullSearch(segs, pa, ps) == Index(segs, pa, ps)
  }

  /** Earlier bytes of segment `k`'s node that the restarted offset leaves out. */
  function Missing(segs: seq<Segment>, k: nat): int
    requires k < |segs|
  {
    BytesOf(segs[..k], segs[k].node) - RunOff(segs, k)
  }

  /** Nothing is left out, or the segment with all that is left out still fits into the page it starts in. */
  predicate RestartFits(segs: seq<Segment>, k: nat, ps: nat)
    requires k < |segs| && ps > 0
  {
    Missing(segs, k) == 0 || RunOff(segs, k) % ps + segs[k].Len() + Missing(segs, k) <= ps
  }

  ghost predicate RestartsFit(segs: seq<Segment>, ps: nat)
    requires ps > 0
  {
    forall k: nat | k < |segs| :: RestartFits(segs, k, ps)
  }

  /** Both searches of an address, by the segment that covers it. */
  lemma {:induction false} SearchesAt(segs: seq<Segment>, k: nat, x: nat, ps: nat)
    requires ps > 0 && Ascending(segs) && k < |segs| && x < segs[k].Len()
    ensures FullSearch(segs, segs[k].start + x, ps) == Index(segs, segs[k].start + x, ps) <==>
      StayTogether(RunOff(segs, k), Missing(segs, k), x, ps)
  {
    SegAtUnique(segs, segs[k].start + x, k);
  }

  lemma {:induction false} RestartFitsIff(segs: seq<Segment>, k: nat, ps: nat)
    requires ps > 0 && Ascending(segs) && k < |segs|
    ensures RestartFits(segs, k, ps) <==>
      forall x: nat | x < segs[k].Len() :: StayTogether(RunOff(segs, k), Missing(segs, k), x, ps)
  {
    RunWithinNode(segs, k);
    TogetherIff(RunOff(segs, k), Missing(segs, k), segs[k].Len(), ps);
  }

  /** The full search gives every address its page index exactly when every restart fits, whole pages or not. */
  lemma {:induction false} SearchIsIndexIff(segs: seq<Segment>, ps: nat)
    requires ps > 0 && Ascending(segs)
    ensures SearchIsIndex(segs, ps) <==> RestartsFit(segs, ps)
  {
    if SearchIsIndex(segs, ps) {
      forall k: nat | k < |segs|
        ensures RestartFits(segs, k, ps)
      {
        forall x: nat | x < segs[k].Len()
          ensures StayTogether(RunOff(segs, k), Missing(segs, k), x, ps)
        {
          SearchesAt(segs, k, x, ps);
        }
        RestartFitsIff(segs, k, ps);
      }
    }
    if RestartsFit(segs, ps) {
      forall pa: nat
        ensures FullSearch(segs, pa, ps) == Index(segs, pa, ps)
      {
        var k := SegAt(segs, pa);
        if k >= 0 {
          assert RestartFits(segs, k, ps);
          RestartFitsIff(segs, k, ps);
          SearchesAt(segs, k, pa - segs[k].start, ps);
        }
      }
    }
  }

  /** A node that comes back after another one: the run misses at least the earlier segment. */
  lemma {:induction false} SplitRun(segs: seq<Segment>, i: nat, j: nat, k: nat)
    requires Ascending(segs) && i < j < k < |segs|
    requires segs[i].node == segs[k].node != segs[j].node
    ensures 0 <= RunOff(segs, k) && RunOff(segs, k) + segs[i].Len() <= BytesOf(segs[..k], segs[k].node)
    decreases k
  {
    var nid := segs[k].node;
    if segs[k - 1].node == nid {
      SplitRun(segs, i, j, k - 1);
      BytesStep(segs, nid, k - 1);
    } else {
      AscendingPrefix(segs, i);
      BytesNonneg(segs[..i], nid);
      BytesStep(segs, nid, i);
      BytesMono(segs, nid, i + 1, k);
    }
  }

  /** With whole pages every restart fits exactly when the segments of each node stand together. */
  lemma {:induction false} RestartsFitIffGrouped(segs: seq<Segment>, ps: nat)
    requires ps > 0 && Ascending(segs) && PageMultiple(segs, ps)
    ensures RestartsFit(segs, ps) <==> Grouped(segs)
  {
    if Grouped(segs) {
      forall k: nat | k < |segs|
        ensures RestartFits(segs, k, ps)
      {
        GroupedRun(segs, k);
      }
    } else {
      var i, j, k :| 0 <= i < j < k < |segs| && segs[i].node == segs[k].node && segs[j].node != segs[i].node;
      SplitDoesNotFit(segs, i, j, k, ps);
    }
  }

  lemma {:induction false} SplitDoesNotFit(segs: seq<Segment>, i: nat, j: nat, k: nat, ps: nat)
    requires ps > 0 && Ascending(segs) && PageMultiple(segs, ps) && i < j < k < |segs|
    requires segs[i].node == segs[k].node != segs[j].node
    ensures !RestartFits(segs, k, ps)
  {
    SplitRun(segs, i, j, k);
    assert segs[i].Len() >= ps && segs[k].Len() >= ps by {
      PositiveMultiple(segs[i].Len(), ps);
      PositiveMultiple(segs[k].Len(), ps);
    }
    DivBounds(RunOff(segs, k), ps);
  }

  /** So with whole pages the full search gives every address its page index exactly when the list is grouped. */
  lemma FullSearchAgreesIffGrouped(segs: seq<Segment>, ps: nat)
    requires ps > 0 && Ascending(segs) && PageMultiple(segs, ps)
    ensures SearchIsIndex(segs, ps) <==> Grouped(segs)
  {
    SearchIsIndexIff(segs, ps);
    RestartsFitIffGrouped(segs, ps);
  }

  /** Without whole pages a list can be ungrouped and every restart still fit. */
  lemma UngroupedCanAgree()
    ensures var segs := [Segment(0, 0, 99), Segment(1, 100, 199), Segment(0, 200, 299)];
      Ascending(segs) && !Grouped(segs) && SearchIsIndex(segs, 4096)
  {
    var segs := [Segment(0, 0, 99), Segment(1, 100, 199), Segment(0, 200, 299)];
    assert segs[0].node == segs[2].node != segs[1].node;
    forall k: nat | k < |segs|
      ensures RestartFits(segs, k, 4096)
    {
      assert segs[..1] == [segs[0]] && segs[..2] == [segs[0]] + [segs[1]];
      BytesStep(segs, segs[k].node, 0);
      BytesStep(segs, segs[k].node, 1);
    }
    SearchIsIndexIff(segs, 4096);
  }

  /** In a grouped list the full search is the page index, whole pages or not. */
  lemma FullSearchGrouped(segs: seq<Segment>, pa: nat, ps: nat)
    requires ps > 0 && Grouped(segs)
    ensures FullSearch(segs, pa, ps) == Index(segs, pa, ps)
  {
    if SegAt(segs, pa) >= 0 {
      GroupedRun(segs, SegAt(segs, pa));
    }
  }

  // ---------------------------------------------------------------- the full search and the merge

  /** Both lists give the same full search for every address and page size. */
  ghost predicate SameSearch(a: seq<Segment>, b: seq<Segment>) {
    forall pa: nat, ps: nat | ps > 0 :: FullSearch(a, pa, ps) == FullSearch(b, pa, ps)
  }

  /** Up to the join the runs are the same. */
  lemma {:induction false} MergeRunLeft(segs: seq<Segment>, i: nat, q: nat)
    requires Mergeable(segs, i) && q <= i
    ensures RunOff(MergeAt(segs, i), q) == RunOff(segs, q)
  {
    var m := MergeAt(segs, i);
    assert m[q].node == segs[q].node;
    if q > 0 {
      assert m[q - 1] == segs[q - 1];
      MergeRunLeft(segs, i, q - 1);
    }
  }

  /** Behind it they are those of the old places. */
  lemma {:induction false} MergeRunRight(segs: seq<Segment>, i: nat, q: nat)
    requires Mergeable(segs, i) && i < q < |segs| - 1
    ensures RunOff(MergeAt(segs, i), q) == RunOff(segs, q + 1)
    decreases q
  {
    var m := MergeAt(segs, i);
    assert m[q] == segs[q + 1];
    if q == i + 1 {
      MergeRunLeft(segs, i, i);
      assert m[i].node == segs[i + 1].node && m[i].Len() == segs[i].Len() + segs[i + 1].Len();
    } else {
      assert m[q - 1] == segs[q];
      MergeRunRight(segs, i, q - 1);
    }
  }

  /** A join changes no result of the full search, grouped or not, whole pages or not. */
  lemma {:induction false} MergeKeepsSearch(segs: seq<Segment>, i: nat, pa: nat, ps: nat)
    requires ps > 0 && Ascending(segs) && Mergeable(segs, i)
    ensures FullSearch(MergeAt(segs, i), pa, ps) == FullSearch(segs, pa, ps)
  {
    var j := SegAt(segs, pa);
    if j < 0 {
      MergeUncovered(segs, i, pa);
    } else {
      MergeRuns(segs, i, j, if j <= i then j else j - 1, pa);
    }
  }

  lemma {:induction false} MergeRuns(segs: seq<Segment>, i: nat, j: nat, q: nat, pa: nat)
    requires Ascending(segs) && Mergeable(segs, i) && j < |segs| && segs[j].Covers(pa)
    requires q == if j <= i then j else j - 1
    ensures var m := MergeAt(segs, i);
      && SegAt(m, pa) == q && m[q].node == segs[j].node
      && RunOff(m, q) - m[q].start == RunOff(segs, j) - segs[j].start
  {
    var m := MergeAt(segs, i);
    assert Ascending(m) by {
      MergeStep(segs, i);
    }
    MergeCovers(segs, i, pa, q);
    SegAtUnique(m, pa, q);
    if j <= i {
      MergeRunLeft(segs, i, j);
    } else if j == i + 1 {
      MergeRunLeft(segs, i, i);
    } else {
      MergeRunRight(segs, i, q);
    }
  }

  /** Nor does it change whether the nodes stand together. */
  lemma {:induction false} MergeKeepsGrouped(segs: seq<Segment>, i: nat)
    requires Mergeable(segs, i)
    ensures Grouped(MergeAt(segs, i)) <==> Grouped(segs)
  {
    if Grouped(segs) {
      GroupedMerged(segs, i);
    }
    if Grouped(MergeAt(segs, i)) {
      MergedGrouped(segs, i);
    }
  }

  lemma {:induction false} GroupedMerged(segs: seq<Segment>, i: nat)
    requires Mergeable(segs, i) && Grouped(segs)
    ensures Grouped(MergeAt(segs, i))
  {
    var m := MergeAt(segs, i);
    forall x, y, z | 0 <= x < y < z < |m| && m[x].node == m[z].node
      ensures m[y].node == m[x].node
    {
      var x', y', z' := if x <= i then x else x + 1, if y <= i then y else y + 1, if z <= i then z else z + 1;
      assert segs[x'].node == m[x].node;
      assert segs[y'].node == m[y].node;
      assert segs[z'].node == m[z].node;
    }
  }

  lemma {:induction false} MergedGrouped(segs: seq<Segment>, i: nat)
    requires Mergeable(segs, i) && Grouped(MergeAt(segs, i))
    ensures Grouped(segs)
  {
    var m := MergeAt(segs, i);
    forall x, y, z | 0 <= x < y < z < |segs| && segs[x].node == segs[z].node
      ensures segs[y].node == segs[x].node
    {
      var x', y', z' := if x <= i then x else x - 1, if y <= i then y else y - 1, if z <= i then z else z - 1;
      assert segs[x].node == m[x'].node;
      assert segs[y].node == m[y'].node;
      assert segs[z].node == m[z'].node;
    }
  }

  /** All that merging keeps: coverage, numbers, the full search, grouping and whole pages. */
  ghost predicate SameMemory(a: seq<Segment>, b: seq<Segment>) {
    && SameMap(a, b) && SameSearch(a, b) && (Grouped(b) <==> Grouped(a))
    && forall ps: nat | ps > 0 && PageMultiple(a, ps) :: PageMultiple(b, ps)
  }

  lemma {:induction false} JoinKeeps(segs: seq<Segment>, i: nat)
    requires Ascending(segs) && Mergeable(segs, i)
    ensures Ascending(MergeAt(segs, i)) && SameMemory(segs, MergeAt(segs, i))
  {
    var m := MergeAt(segs, i);
    MergeStep(segs, i);
    MergeKeepsGrouped(segs, i);
    forall pa: nat, ps: nat | ps > 0
      ensures FullSearch(segs, pa, ps) == FullSearch(m, pa, ps)
    {
      MergeKeepsSearch(segs, i, pa, ps);
    }
    forall ps: nat | ps > 0 && PageMultiple(segs, ps)
      ensures PageMultiple(m, ps)
    {
      MergeKeepsPages(segs, i, ps);
    }
  }

  lemma {:induction false} SameMemoryTrans(a: seq<Segment>, b: seq<Segment>, c: seq<Segment>)
    requires SameMemory(a, b) && SameMemory(b, c)
    ensures SameMemory(a, c)
  {
  }

  /** The list with `m` linked in before position `p`. */
  function InsertAt(segs: seq<Segment>, m: Segment, p: nat): (r: seq<Segment>)
    requires p <= |segs|
    ensures |r| == |segs| + 1
    ensures forall k | 0 <= k < |r| :: r[k] == if k < p then segs[k] else if k == p then m else segs[k - 1]
    ensures multiset(r) == multiset(segs) + multiset{m}
  {
    assert segs == segs[..p] + segs[p..];
    segs[..p] + [m] + segs[p..]
  }

  /** Segments stand in the order of their start addresses; they may overlap. */
  ghost predicate ByStart(segs: seq<Segment>) {
    forall i, j | 0 <= i < j < |segs| :: segs[i].start <= segs[j].start
  }

  /** Position `p` has the lower starts before it and no other. */
  ghost predicate SlotFor(segs: seq<Segment>, start: nat, p: nat) {
    && p <= |segs|
    && (forall i | 0 <= i < p :: segs[i].start < start)
    && (forall i | p <= i < |segs| :: start <= segs[i].start)
  }

  /** Linking a segment in where it belongs keeps the order of starts. */
  lemma {:induction false} InsertByStart(segs: seq<Segment>, m: Segment, p: nat)
    requires ByStart(segs) && SlotFor(segs, m.start, p)
    ensures ByStart(InsertAt(segs, m, p))
  {
    var r := InsertAt(segs, m, p);
    forall i, j | 0 <= i < j < |r|
      ensures r[i].start <= r[j].start
    {
      assert r[i] == if i < p then segs[i] else if i == p then m else segs[i - 1];
      assert r[j] == if j < p then segs[j] else if j == p then m else segs[j - 1];
    }
  }

  /** Linking a disjoint segment in where it belongs keeps the list ascending. */
  lemma {:induction false} InsertAscending(segs: seq<Segment>, m: Segment, p: nat)
    requires Ascending(segs) && m.start <= m.end && SlotFor(segs, m.start, p) && Disjoint(segs, m)
    ensures Ascending(InsertAt(segs, m, p))
  {
    assert forall i | 0 <= i < p :: segs[i].end < m.start;
    assert forall i | p <= i < |segs| :: m.end < segs[i].start;
    var r := InsertAt(segs, m, p);
    forall i, j | 0 <= i < j < |r|
      ensures r[i].end < r[j].start
    {
      assert r[i] == if i < p then segs[i] else if i == p then m else segs[i - 1];
      assert r[j] == if j < p then segs[j] else if j == p then m else segs[j - 1];
    }
  }

  /** `m` overlaps no segment of the list. */
  ghost predicate Disjoint(segs: seq<Segment>, m: Segment) {
    forall i | 0 <= i < |segs| :: m.end < segs[i].start || segs[i].end < m.start
  }

  /** The reverse scan for the last segment that starts below `m`. */
  method FindSlot(segs: seq<Segment>, m: Segment) returns (p: nat)
    requires ByStart(segs)
    ensures SlotFor(segs, m.start, p)
  {
    p := |segs|;
    while p > 0 && segs[p - 1].start >= m.start
      invariant 0 <= p <= |segs|
      invariant forall i | p <= i < |segs| :: m.start <= segs[i].start
    {
      p := p - 1;
    }
  }

  class LocalMemory {
    var mem: seq<Segment>
    var len: nat
    var nrLocalNuma: nat

    /** What the parser keeps, even for segments that overlap. */
    ghost predicate Linked()
      reads this
    {
      ByStart(mem) && len == |mem| && forall i | 0 <= i < |mem| :: 0 <= mem[i].node < nrLocalNuma
    }

    ghost predicate Valid()
      reads this
    {
      Linked() && Ascending(mem)
    }

    constructor ()
      ensures Valid() && mem == []
    {
      mem, len, nrLocalNuma := [], 0, 0;
    }

    /** Links one parsed segment behind the last one that starts lower. */
    method Insert(m: Segment)
      requires Linked() && 0 <= m.node
      modifies this
      ensures Linked()
      ensures exists p :: SlotFor(old(mem), m.start, p) && mem == InsertAt(old(mem), m, p)
      ensures multiset(mem) == old(multiset(mem)) + multiset{m}
      ensures nrLocalNuma == if m.node >= old(nrLocalNuma) then m.node + 1 else old(nrLocalNuma)
      ensures old(Valid()) && m.start <= m.end && Disjoint(old(mem), m) ==> Valid()
    {
      if m.node >= nrLocalNuma {
        nrLocalNuma := m.node + 1;
      }
      var p := FindSlot(mem, m);
      InsertByStart(mem, m, p);
      if Ascending(mem) && m.start <= m.end && Disjoint(mem, m) {
        InsertAscending(mem, m, p);
      }
      mem := InsertAt(mem, m, p);
      len := len + 1;
    }

    /** Extends segment `cur` over its neighbour. */
    method JoinNext(cur: nat, ghost was: seq<Segment>)
      requires Valid() && SameMemory(was, mem) && Mergeable(mem, cur)
      requires forall i: nat | i < cur :: !Mergeable(mem, i)
      modifies this
      ensures Valid() && SameMemory(was, mem) && |mem| == |old(mem)| - 1 && nrLocalNuma == old(nrLocalNuma)
      ensures forall i: nat | i < cur :: !Mergeable(mem, i)
    {
      JoinKeeps(mem, cur);
      MergeKeepsLeft(mem, cur);
      SameMemoryTrans(was, mem, MergeAt(mem, cur));
      mem := MergeAt(mem, cur);
      len := len - 1;
    }

    /** Joins touching segments of one node; what the list means does not change. */
    method MergeSegments()
      requires Valid()
      modifies this
      ensures Valid() && nrLocalNuma == old(nrLocalNuma)
      ensures SameMemory(old(mem), mem)
      ensures forall i | 0 <= i < |mem| - 1 :: !(mem[i].node == mem[i + 1].node && mem[i].end + 1 == mem[i + 1].start)
    {
      if |mem| == 0 {
        return;
      }
      var cur := 0;
      while cur + 1 < |mem|
        invariant Valid() && nrLocalNuma == old(nrLocalNuma)
        invariant 0 <= cur < |mem|
        invariant SameMemory(old(mem), mem)
        invariant forall i: nat | i < cur :: !Mergeable(mem, i)
        decreases |mem| - cur
      {
        if mem[cur].node == mem[cur + 1].node && mem[cur].end + 1 == mem[cur + 1].start {
          JoinNext(cur, old(mem));
        } else {
          cur := cur + 1;
        }
      }
      forall i | 0 <= i < |mem| - 1
        ensures !(mem[i].node == mem[i + 1].node && mem[i].end + 1 == mem[i + 1].start)
      {
        assert !Mergeable(mem, i);
      }
    }

    method IsPaddrLocal(pa: nat) returns (b: bool)
      ensures b <==> SegAt(mem, pa) >= 0
    {
      for i := 0 to |mem|
        invariant forall j | 0 <= j < i :: !mem[j].Covers(pa)
      {
        if mem[i].start <= pa <= mem[i].end {
          return true;
        }
      }
      return false;
    }

    /** Pages of a node, every segment rounded up; other page sizes count nothing. */
    method GetNodeActcLen(nid: int, pageSize: nat) returns (cnt: int)
      requires Valid()
      ensures cnt == if pageSize == HUGE_PAGE || pageSize == PAGE_SIZE then PageCount(mem, nid, pageSize) else 0
    {
      cnt := 0;
      for i := 0 to |mem|
        invariant cnt == if pageSize == HUGE_PAGE || pageSize == PAGE_SIZE
                         then PageCount(mem[..i], nid, pageSize) else 0
      {
        if pageSize > 0 {
          PageCountStep(mem, nid, pageSize, i);
        }
        if mem[i].node == nid {
          if pageSize == HUGE_PAGE {
            cnt := cnt + PageCeil(mem[i].end - mem[i].start + 1, HUGE_PAGE);
          } else if pageSize == PAGE_SIZE {
            cnt := cnt + PageCeil(mem[i].end - mem[i].start + 1, PAGE_SIZE);
          }
        }
      }
      assert mem[..|mem|] == mem;
    }

    method CalcPaddrAcidx(paddr: nat, ps: nat) returns (r: Option<(int, int)>)
      requires Valid() && ps > 0
      ensures r == FullSearch(mem, paddr, ps)
    {
      var offset, lastNid := 0, NUMA_NO_NODE;
      for i := 0 to |mem|
        invariant i == 0 ==> offset == 0
        invariant i > 0 ==> lastNid == mem[i - 1].node && offset == RunOff(mem, i - 1) + mem[i - 1].Len()
        invariant forall j | 0 <= j < i :: mem[j].end < paddr
      {
        if lastNid != mem[i].node {
          offset, lastNid := 0, mem[i].node;
        }
        if paddr > mem[i].end {
          offset := offset + (mem[i].end - mem[i].start + 1);
        } else if paddr < mem[i].start {
          return None;
        } else {
          SegAtUnique(mem, paddr, i);
          return Some((mem[i].node, (offset + paddr - mem[i].start) / ps));
        }
      }
      return None;
    }

    method CalcPaddrAcidxKnownNid(paddr: nat, nid: int, ps: nat) returns (r: Option<int>)
      requires Valid() && ps > 0
      ensures r.Some? <==> OnNode(mem, nid, paddr)
      ensures r.Some? ==> Index(mem, paddr, ps) == Some((nid, r.value))
    {
      var offset := 0;
      for i := 0 to |mem|
        invariant offset == BytesOf(mem[..i], nid)
        invariant forall j | 0 <= j < i :: mem[j].node != nid || mem[j].end < paddr
      {
        BytesStep(mem, nid, i);
        if mem[i].node == nid {
          if paddr > mem[i].end {
            offset := offset + (mem[i].end - mem[i].start + 1);
          } else if paddr < mem[i].start {
            return None;
          } else {
            SegAtUnique(mem, paddr, i);
            return Some((offset + paddr - mem[i].start) / ps);
          }
        }
      }
      return None;
    }

    method CalcAcidxPaddr(nid: int, acidx: nat, ps: nat) returns (r: Option<int>)
      requires Valid() && ps > 0
      ensures r == PageAddr(mem, nid, acidx, ps)
    {
      r := WalkToByte(mem, nid, (acidx * ps) % U64);
    }
  }

  /** The subtracting walk shared by both inverse translations. */
  method WalkToByte(segs: seq<Segment>, nid: int, start: nat) returns (r: Option<int>)
    requires Ascending(segs)
    ensures r == ByteAt(segs, nid, start)
  {
    var offset := start;
    for i := 0 to |segs|
      invariant offset == start - BytesOf(segs[..i], nid) >= 0
    {
      BytesStep(segs, nid, i);
      if segs[i].node == nid {
        var range := segs[i].end - segs[i].start + 1;
        if offset >= range {
          offset := offset - range;
        } else {
          ByteAtIn(segs, nid, start, i);
          return Some(segs[i].start + offset);
        }
      }
    }
    assert segs[..|segs|] == segs;
    ByteAtRange(segs, nid, start);
    return None;
  }
}
