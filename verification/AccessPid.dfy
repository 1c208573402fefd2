/**
 The per-process page bitmaps: preparation, additions (access_mmu.c) and export of one record per
 tracked page (access_pid.c).
 */
module AccessPid {
  import opened Common
  import opened Bitmap
  import opened Segments
  import opened PageIndex
  import opened AcpiMem
  import opened IoMem
  import opened NodeCache

  const BITS_PER_LONG: nat := 64

  datatype Status = Ok | EInval | ERange

  /** What one process tracks: a page bitmap, a white list and a page count per node. */
  datatype Tracked = Tracked(pageNum: seq<nat>, paddr: seq<seq<bool>>, white: seq<seq<bool>>)

  /** Counts match the bitmaps and the white list holds tracked pages only. */
  ghost predicate WellFormed(t: Tracked) {
    && |t.pageNum| == |t.paddr| == |t.white| == MAX_NODES
    && forall n | 0 <= n < MAX_NODES ::
      && |t.white[n]| == |t.paddr[n]|
      && t.pageNum[n] == |SetBits(t.paddr[n])|
      && forall i | 0 <= i < |t.paddr[n]| :: t.white[n][i] ==> t.paddr[n][i]
  }

  /** Every tracked index is below the page count of its node. */
  ghost predicate Below(t: Tracked, counts: seq<nat>) {
    |t.paddr| == |counts| &&
    forall n, i | 0 <= n < |counts| && 0 <= i < |t.paddr[n]| :: t.paddr[n][i] ==> i < counts[n]
  }

  /** Page `i` of node `n` is tracked. */
  predicate Has(t: Tracked, n: int, i: int) {
    0 <= n < |t.paddr| && 0 <= i < |t.paddr[n]| && t.paddr[n][i]
  }

  /** Page `i` of node `n` is on the white list. */
  predicate IsWhite(t: Tracked, n: int, i: int) {
    0 <= n < |t.white| && 0 <= i < |t.white[n]| && t.white[n][i]
  }

  /** The empty bitmaps that fit `counts` pages per node. */
  function Prepared(counts: seq<nat>): Tracked {
    Tracked(
      seq(|counts|, _ => 0),
      seq(|counts|, n requires 0 <= n < |counts| => ClearWords(counts[n])),
      seq(|counts|, n requires 0 <= n < |counts| => ClearWords(counts[n])))
  }

  /** BITS_TO_LONGS words of clear bits. */
  function ClearWords(pages: nat): seq<bool> {
    seq((pages + BITS_PER_LONG - 1) / BITS_PER_LONG * BITS_PER_LONG, _ => false)
  }

  /** Page `i` of node `n` marked, and white-listed if `w`. */
  function Mark(t: Tracked, n: nat, i: nat, w: bool): Tracked
    requires n < |t.paddr| == |t.white| == |t.pageNum| && i < |t.paddr[n]| == |t.white[n]|
  {
    var white := if w then t.white[n := t.white[n][i := true]] else t.white;
    if t.paddr[n][i] then t.(white := white)
    else Tracked(t.pageNum[n := t.pageNum[n] + 1], t.paddr[n := t.paddr[n][i := true]], white)
  }

  /** Marking keeps the counts right, tracks exactly one page more and white-lists it exactly if asked to. */
  lemma MarkKeeps(t: Tracked, n: nat, i: nat, w: bool)
    requires WellFormed(t) && n < MAX_NODES && i < |t.paddr[n]|
    ensures WellFormed(Mark(t, n, i, w))
    ensures forall m, j :: Has(Mark(t, n, i, w), m, j) <==> Has(t, m, j) || (m == n && j == i)
    ensures forall m, j :: IsWhite(Mark(t, n, i, w), m, j) <==> IsWhite(t, m, j) || (w && m == n && j == i)
  {
    if !t.paddr[n][i] {
      SetOne(t.paddr[n], i);
    }
  }

  datatype MarkOp = MarkOp(node: nat, idx: nat, white: bool)

  /** A mark that the range check lets through. */
  predicate Fits(t: Tracked, op: MarkOp) {
    op.node < |t.paddr| == |t.white| == |t.pageNum| && op.idx < |t.paddr[op.node]| == |t.white[op.node]|
  }

  /** A whole scan: marks that do not fit are rejected. */
  function RunMarks(t: Tracked, ops: seq<MarkOp>): Tracked {
    if ops == [] then t
    else
      var t' := RunMarks(t, ops[..|ops| - 1]);
      var op := ops[|ops| - 1];
      if Fits(t', op) then Mark(t', op.node, op.idx, op.white) else t'
  }

  /** Some mark of the scan names page `i` of node `n`. */
  ghost predicate Marked(ops: seq<MarkOp>, n: nat, i: nat) {
    exists k :: 0 <= k < |ops| && ops[k].node == n && ops[k].idx == i
  }

  lemma MarkedStep(front: seq<MarkOp>, op: MarkOp, n: nat, i: nat)
    ensures Marked(front + [op], n, i) <==> Marked(front, n, i) || (op.node == n && op.idx == i)
  {
    var ops := front + [op];
    assert ops[|front|] == op;
    if Marked(front, n, i) {
      var k :| 0 <= k < |front| && front[k].node == n && front[k].idx == i;
      assert ops[k] == front[k];
    }
    if Marked(ops, n, i) {
      var k :| 0 <= k < |ops| && ops[k].node == n && ops[k].idx == i;
      assert k < |front| ==> front[k] == ops[k];
    }
  }

  /** Some mark of the scan names page `i` of node `n` as white. */
  ghost predicate MarkedWhite(ops: seq<MarkOp>, n: nat, i: nat) {
    exists k :: 0 <= k < |ops| && ops[k] == MarkOp(n, i, true)
  }

  lemma MarkedWhiteStep(front: seq<MarkOp>, op: MarkOp, n: nat, i: nat)
    ensures MarkedWhite(front + [op], n, i) <==> MarkedWhite(front, n, i) || op == MarkOp(n, i, true)
  {
    var ops := front + [op];
    assert ops[|front|] == op;
    assert forall k | 0 <= k < |front| :: ops[k] == front[k];
  }

  /** The bitmaps fit `counts` pages and hold only pages in range. */
  ghost predicate Holds(t: Tracked, counts: seq<nat>) {
    && WellFormed(t) && Below(t, counts)
    && forall n | 0 <= n < MAX_NODES :: counts[n] <= |t.paddr[n]|
  }

  lemma MarkHolds(t: Tracked, counts: seq<nat>, n: nat, i: nat, w: bool)
    requires Holds(t, counts) && n < MAX_NODES && i < counts[n]
    ensures Holds(Mark(t, n, i, w), counts)
  {
    MarkKeeps(t, n, i, w);
    var t' := Mark(t, n, i, w);
    forall m, j | 0 <= m < |counts| && 0 <= j < |t'.paddr[m]| ensures t'.paddr[m][j] ==> j < counts[m] {
      assert Has(t', m, j) <==> Has(t, m, j) || (m == n && j == i);
    }
  }

  /** A prepared process tracks nothing and has room for every page. */
  lemma PreparedHolds(counts: seq<nat>)
    requires |counts| == MAX_NODES
    ensures Holds(Prepared(counts), counts)
    ensures forall n, i :: !Has(Prepared(counts), n, i) && !IsWhite(Prepared(counts), n, i)
  {
    forall n | 0 <= n < MAX_NODES ensures SetBits(Prepared(counts).paddr[n]) == [] {
      NoBits(Prepared(counts).paddr[n]);
    }
  }

  lemma {:induction false} MarksAdd(t0: Tracked, counts: seq<nat>, ops: seq<MarkOp>)
    requires Holds(t0, counts)
    requires forall k | 0 <= k < |ops| :: ops[k].node < MAX_NODES && ops[k].idx < counts[ops[k].node]
    ensures Holds(RunMarks(t0, ops), counts)
    ensures forall n: nat, i: nat :: Has(RunMarks(t0, ops), n, i) <==> Has(t0, n, i) || Marked(ops, n, i)
    ensures forall n: nat, i: nat :: IsWhite(RunMarks(t0, ops), n, i) <==> IsWhite(t0, n, i) || MarkedWhite(ops, n, i)
    decreases |ops|
  {
    if ops != [] {
      var last := |ops| - 1;
      var front, op := ops[..last], ops[last];
      MarksAdd(t0, counts, front);
      var t := RunMarks(t0, front);
      MarkHolds(t, counts, op.node, op.idx, op.white);
      MarkKeeps(t, op.node, op.idx, op.white);
      forall n: nat, i: nat ensures Marked(ops, n, i) <==> Marked(front, n, i) || (op.node == n && op.idx == i) {
        MarkedStep(front, op, n, i);
        assert front + [op] == ops;
      }
      forall n: nat, i: nat ensures MarkedWhite(ops, n, i) <==> MarkedWhite(front, n, i) || op == MarkOp(n, i, true) {
        MarkedWhiteStep(front, op, n, i);
        assert front + [op] == ops;
      }
    }
  }

  /**
   After any scan from a prepared state the counts match the bitmaps, every tracked page is in range,
   the tracked pages are exactly the marked ones and the white list exactly those marked as white.
   */
  lemma ScanTracks(counts: seq<nat>, ops: seq<MarkOp>)
    requires |counts| == MAX_NODES
    requires forall k | 0 <= k < |ops| :: ops[k].node < MAX_NODES && ops[k].idx < counts[ops[k].node]
    ensures Holds(RunMarks(Prepared(counts), ops), counts)
    ensures forall n: nat, i: nat :: Has(RunMarks(Prepared(counts), ops), n, i) <==> Marked(ops, n, i)
    ensures forall n: nat, i: nat :: IsWhite(RunMarks(Prepared(counts), ops), n, i) <==> MarkedWhite(ops, n, i)
  {
    PreparedHolds(counts);
    MarksAdd(Prepared(counts), counts, ops);
  }

  /** Page counts of all nodes, local ones from ACPI and remote ones from iomem. */
  ghost predicate CountsCurrent(counts: seq<nat>, local: seq<Segment>, remote: seq<Segment>, nrLocal: nat, ps: nat)
    requires ps > 0
  {
    && |counts| == MAX_NODES
    && forall n | 0 <= n < MAX_NODES :: counts[n] == PageCount(if n < nrLocal then local else remote, n, ps)
  }

  /** Local nodes are listed in ACPI order numbers, remote nodes above them. */
  ghost predicate NodesSplit(local: seq<Segment>, remote: seq<Segment>, nrLocal: nat) {
    && nrLocal <= MAX_LOCAL_NODES
    && (forall i | 0 <= i < |local| :: 0 <= local[i].node < nrLocal)
    && (forall i | 0 <= i < |remote| :: nrLocal <= remote[i].node < MAX_NODES)
  }

  /** Every index the scan computes is below its node's page count, whole pages or not. */
  lemma UncachedBound(
      counts: seq<nat>, local: seq<Segment>, remote: seq<Segment>, nrLocal: nat, pa: nat, ps: nat)
    requires ps > 0 && Ascending(local) && Ascending(remote)
    requires NodesSplit(local, remote, nrLocal) && CountsCurrent(counts, local, remote, nrLocal, ps)
    requires Uncached(local, remote, pa, ps).Some?
    ensures var (n, k) := Uncached(local, remote, pa, ps).value;
      0 <= n < MAX_NODES && 0 <= k < counts[n]
  {
    if SegAt(local, pa) >= 0 {
      FullSearchBound(local, pa, ps);
    } else {
      WholePageIndexBound(remote, pa, ps);
    }
  }

  /** convert_nid_to_pos: the bit of a node in the process's node mask. */
  function NodePos(nid: int, nrLocal: nat): int {
    if nid >= nrLocal then nid - nrLocal + MAX_LOCAL_NODES else nid
  }

  /** The checks an addition passes through, in order. */
  function AddStatus(
      nodes: set<int>, bm: seq<seq<bool>>, r: Option<(int, int)>, pageExists: bool, nrLocal: nat): Status
  {
    match r
    case None => ERange
    case Some((n, k)) =>
      if NodePos(n, nrLocal) !in nodes then EInval
      else if !(0 <= n < |bm| && 0 <= k < |bm[n]|) then ERange
      else if !pageExists then EInval else Ok
  }

  /** convert_pos_to_nid: the node of a bit. */
  function NodeAtPos(pos: int, nrLocal: nat): int {
    if pos >= MAX_LOCAL_NODES then pos - MAX_LOCAL_NODES + nrLocal else pos
  }

  /** Bits and nodes name each other: every node has its own bit. */
  lemma NodePosRoundTrip(n: int, nrLocal: nat)
    requires nrLocal <= MAX_LOCAL_NODES
    ensures NodeAtPos(NodePos(n, nrLocal), nrLocal) == n
    ensures n < nrLocal ==> NodePos(n, nrLocal) < nrLocal
    ensures n >= nrLocal ==> NodePos(n, nrLocal) >= MAX_LOCAL_NODES
    ensures forall m :: NodePos(m, nrLocal) == NodePos(n, nrLocal) ==> m == n
  {
  }

  /** The mask has node `n`: local nodes by number, remote nodes from bit 8 on. */
  predicate InMask(mask: set<int>, n: int, nrLocal: nat) {
    if n < nrLocal then n in mask else n - nrLocal + 8 in mask
  }

  class Process {
    var numaNodes: set<int>
    var pageNum: seq<nat>
    var bmLen: seq<nat>
    var paddrBm: seq<seq<bool>>
    var whiteBm: seq<seq<bool>>

    ghost function View(): Tracked
      reads this
    {
      Tracked(pageNum, paddrBm, whiteBm)
    }

    ghost predicate Valid()
      reads this
    {
      && WellFormed(View())
      && |bmLen| == MAX_NODES
      && forall n | 0 <= n < MAX_NODES :: |paddrBm[n]| == bmLen[n] * BITS_PER_LONG
    }

    constructor (nodes: set<int>, counts: seq<nat>)
      requires |counts| == MAX_NODES
      ensures Valid() && numaNodes == nodes && View() == Prepared(counts)
    {
      numaNodes := nodes;
      var p := Prepared(counts);
      pageNum, paddrBm, whiteBm := p.pageNum, p.paddr, p.white;
      bmLen := seq(MAX_NODES, n requires 0 <= n < |counts| => (counts[n] + BITS_PER_LONG - 1) / BITS_PER_LONG);
      PreparedHolds(counts);
    }

    /** Drops the last bitmaps and allocates clear ones for the current page counts. */
    method WalkPagemapPrepare(counts: seq<nat>)
      requires |counts| == MAX_NODES
      modifies this
      ensures Valid() && numaNodes == old(numaNodes)
      ensures View() == Prepared(counts) && Holds(View(), counts)
    {
      var p := Prepared(counts);
      pageNum, paddrBm, whiteBm := p.pageNum, p.paddr, p.white;
      bmLen := seq(MAX_NODES, n requires 0 <= n < |counts| => (counts[n] + BITS_PER_LONG - 1) / BITS_PER_LONG);
      PreparedHolds(counts);
    }

    /** Adds a page whose node and index are known; `page` is the page's white-list test, if it exists. */
    method AddToBmPageFast(nid: nat, acidx: nat, page: Option<bool>, nrLocal: nat) returns (st: Status)
      requires Valid() && nid < MAX_NODES
      modifies this
      ensures Valid() && numaNodes == old(numaNodes)
      ensures st == AddStatus(numaNodes, old(paddrBm), Some((nid, acidx)), page.Some?, nrLocal)
      ensures View() == if st.Ok? then Mark(old(View()), nid, acidx, page.value) else old(View())
    {
      if NodePos(nid, nrLocal) !in numaNodes {
        return EInval;
      }
      if acidx / BITS_PER_LONG >= bmLen[nid] {
        return ERange;
      }
      if page.None? {
        return EInval;
      }
      MarkKeeps(View(), nid, acidx, page.value);
      if page.value {
        whiteBm := whiteBm[nid := whiteBm[nid][acidx := true]];
      }
      if !paddrBm[nid][acidx] {
        paddrBm := paddrBm[nid := paddrBm[nid][acidx := true]];
        pageNum := pageNum[nid := pageNum[nid] + 1];
      }
      return Ok;
    }

    /** Adds the page at `paddr`: a tracked page is never out of range of its node. */
    method AddToBmPage(
        acpi: LocalMemory, io: RemoteMemory, paddr: nat, page: Option<bool>, ps: nat, ghost counts: seq<nat>)
      returns (st: Status)
      requires Valid() && acpi.Valid() && io.Valid() && ps > 0
      requires NodesSplit(acpi.mem, io.list, acpi.nrLocalNuma)
      requires CountsCurrent(counts, acpi.mem, io.list, acpi.nrLocalNuma, ps)
      modifies this
      ensures Valid() && numaNodes == old(numaNodes)
      ensures var r := Uncached(acpi.mem, io.list, paddr, ps);
        && st == AddStatus(numaNodes, old(paddrBm), r, page.Some?, acpi.nrLocalNuma)
        && View() == if st.Ok? then Mark(old(View()), r.value.0, r.value.1, page.value) else old(View())
      ensures old(Holds(View(), counts)) ==> Holds(View(), counts)
    {
      var r := Translate(acpi, io, paddr, ps);
      if r.None? {
        return ERange;
      }
      UncachedBound(counts, acpi.mem, io.list, acpi.nrLocalNuma, paddr, ps);
      ghost var before := View();
      st := AddToBmPageFast(r.value.0, r.value.1, page, acpi.nrLocalNuma);
      if st.Ok? && Holds(before, counts) {
        MarkHolds(before, counts, r.value.0, r.value.1, page.value);
      }
    }

    /** Adds a huge page; huge pages are never white-listed. */
    method AddToBmHugepage(acpi: LocalMemory, io: RemoteMemory, paddr: nat, ps: nat, ghost counts: seq<nat>)
      returns (st: Status)
      requires Valid() && acpi.Valid() && io.Valid() && ps > 0
      requires NodesSplit(acpi.mem, io.list, acpi.nrLocalNuma)
      requires CountsCurrent(counts, acpi.mem, io.list, acpi.nrLocalNuma, ps)
      modifies this
      ensures Valid() && numaNodes == old(numaNodes)
      ensures var r := Uncached(acpi.mem, io.list, paddr, ps);
        && st == AddStatus(numaNodes, old(paddrBm), r, true, acpi.nrLocalNuma)
        && View() == if st.Ok? then Mark(old(View()), r.value.0, r.value.1, false) else old(View())
      ensures old(Holds(View(), counts)) ==> Holds(View(), counts)
    {
      var r := Translate(acpi, io, paddr, ps);
      if r.None? {
        return ERange;
      }
      UncachedBound(counts, acpi.mem, io.list, acpi.nrLocalNuma, paddr, ps);
      var nid, acidx := r.value.0, r.value.1;
      if NodePos(nid, acpi.nrLocalNuma) !in numaNodes {
        return EInval;
      }
      if acidx / BITS_PER_LONG >= bmLen[nid] {
        return ERange;
      }
      MarkKeeps(View(), nid, acidx, false);
      if Holds(View(), counts) {
        MarkHolds(View(), counts, nid, acidx, false);
      }
      if !paddrBm[nid][acidx] {
        paddrBm := paddrBm[nid := paddrBm[nid][acidx := true]];
        pageNum := pageNum[nid := pageNum[nid] + 1];
      }
      return Ok;
    }
  }

  /** calc_paddr_acidx: local addresses through ACPI, all others through iomem. */
  method Translate(acpi: LocalMemory, io: RemoteMemory, paddr: nat, ps: nat) returns (r: Option<(int, int)>)
    requires acpi.Valid() && io.Valid() && NodesInRange(io.list) && ps > 0
    ensures r == Uncached(acpi.mem, io.list, paddr, ps)
  {
    var isLocal := acpi.IsPaddrLocal(paddr);
    if isLocal {
      r := acpi.CalcPaddrAcidx(paddr, ps);
    } else {
      r := io.CalcPaddrAcidx(paddr, ps);
    }
  }
}
