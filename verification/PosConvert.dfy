/**
 Conversion of ascending record positions to physical addresses with one resumable scan over the
 bitmap (convert_pos_to_paddr_sorted in access_pid.c), and the theorem that ties it to the export.
 */
module PosConvert {
  import opened Arith
  import opened Common
  import opened Bitmap
  import opened Segments
  import opened PageIndex
  import opened AcpiMem
  import opened IoMem
  import opened NodeCache
  import opened AccessPid
  import opened Export

  const INVALID_PADDR: nat := 0

  /** ULONG_MAX, the scan position before the first hit; adding one wraps to 0. */
  const INITIAL_POS: nat := U64 - 1

  /** A 64-bit word read as a signed long. */
  function ToLong(a: nat): int {
    if a < U64 / 2 then a else a - U64
  }

  /** Where the scan stands: before the bitmap, or on set bit number `lastIndex`. */
  ghost predicate Resumable(bm: seq<bool>, lastPos: nat, lastIndex: int) {
    || (lastIndex == -1 && lastPos == INITIAL_POS)
    || (0 <= lastIndex < |SetBits(bm)| && lastPos == SetBits(bm)[lastIndex])
  }

  /** The set bit that a scan from the start finds for position `index`. */
  function Select(bm: seq<bool>, index: int): Option<nat> {
    if 0 <= index < |SetBits(bm)| then Some(SetBits(bm)[index]) else None
  }

  /**
   The resumed scan finds what a scan from the start finds.  Positions before the last hit fail, and
   the start position itself, asked for as -1, is handed back.
   */
  method CalcAbsolutePos(bm: seq<bool>, lastPos: nat, lastIndex: int, index: int) returns (r: Option<nat>)
    requires |bm| < U64 / 2 && Resumable(bm, lastPos, lastIndex)
    ensures r == if |bm| == 0 then None
                 else if index == lastIndex then Some(lastPos)
                 else if index < lastIndex then None
                 else Select(bm, index)
  {
    var tmpPos := (lastPos + 1) % U64;
    var last := lastIndex;
    if |bm| == 0 {
      return None;
    }
    if last == index {
      return Some(lastPos);
    }
    if last > index {
      return None;
    }
    if lastIndex >= 0 {
      RankSelect(bm, lastIndex);
      RankStep(bm, lastPos);
    } else {
      assert bm[..0] == [];
    }
    RankWhole(bm);
    while tmpPos < |bm|
      invariant tmpPos <= |bm| && Rank(bm, tmpPos) == last + 1 && last < index
      decreases |bm| - tmpPos
    {
      var next := FindNextBit(bm, tmpPos);
      RankSkip(bm, tmpPos, next);
      if next == |bm| {
        return None;
      }
      tmpPos := next;
      SelectRank(bm, tmpPos);
      last := last + 1;
      if last == index {
        return Some(tmpPos);
      }
      RankStep(bm, tmpPos);
      tmpPos := tmpPos + 1;
    }
    return None;
  }

  /** The address of record `pos` of a node: the page of the set bit number `pos`, or the invalid address. */
  function Target(bm: seq<bool>, segs: seq<Segment>, nid: int, ps: nat, pos: nat): int
    requires ps > 0
  {
    if pos < |SetBits(bm)| then
      var r := PageAddr(segs, nid, SetBits(bm)[pos], ps);
      if r.Some? then r.value else INVALID_PADDR
    else INVALID_PADDR
  }

  /** The segment list that numbers the pages of a node. */
  function SegsOf(local: seq<Segment>, remote: seq<Segment>, nrLocal: nat, nid: int): seq<Segment> {
    if nid < nrLocal then local else remote
  }

  /** The all-ones position, shifted, lies beyond the node unless the node reaches the last page of 64 bits. */
  lemma AllOnesBeyond(segs: seq<Segment>, nid: int, ps: nat)
    requires 0 < ps <= U64 && Ascending(segs)
    ensures PageAddr(segs, nid, INITIAL_POS, ps) == None <==> BytesOf(segs, nid) + ps <= U64
  {
    AllOnesShifted(ps);
    BytesNonneg(segs, nid);
    ByteAtRange(segs, nid, U64 - ps);
  }

  lemma AllOnesShifted(ps: nat)
    requires 0 < ps <= U64
    ensures (INITIAL_POS * ps) % U64 == U64 - ps
  {
    assert INITIAL_POS * ps == (ps - 1) * U64 + (U64 - ps);
    DivAddMul(ps - 1, U64 - ps, U64);
  }

  /**
   What position `pos` converts to when nothing before it was in order's way.  The all-ones position, asked
   for before the first hit (`first`), is taken for the start position itself and translated as it stands.
   */
  function Converted(bm: seq<bool>, segs: seq<Segment>, nid: int, ps: nat, pos: nat, first: bool): int
    requires ps > 0
  {
    if first && pos == INITIAL_POS && |bm| > 0 then
      var r := PageAddr(segs, nid, INITIAL_POS, ps);
      if r.Some? then r.value else INVALID_PADDR
    else Target(bm, segs, nid, ps, pos)
  }

  /** That is the page of the position, except for the all-ones position on a node that reaches so far. */
  lemma {:induction false} ConvertedIsTarget(bm: seq<bool>, segs: seq<Segment>, nid: int, ps: nat, pos: nat, first: bool)
    requires 0 < ps <= U64 && Ascending(segs) && |bm| < U64 / 2
    requires pos != INITIAL_POS || BytesOf(segs, nid) + ps <= U64
    ensures Converted(bm, segs, nid, ps, pos, first) == Target(bm, segs, nid, ps, pos)
  {
    AllOnesBeyond(segs, nid, ps);
    RankBound(bm);
  }

  /** One element of the in-place conversion. */
  method ConvertSingleAddress(
      acpi: LocalMemory, io: RemoteMemory, bm: seq<bool>, nid: int, ps: nat,
      addr: nat, lastPos: nat, lastIndex: int) returns (paddr: int, lastPos': nat, lastIndex': int)
    requires acpi.Valid() && io.Valid() && ps > 0 && addr < U64
    requires |bm| < U64 / 2 && Resumable(bm, lastPos, lastIndex)
    ensures Resumable(bm, lastPos', lastIndex')
    ensures lastIndex' == if lastIndex < addr < |SetBits(bm)| then addr else lastIndex
    ensures lastIndex <= addr ==>
      paddr == Converted(bm, SegsOf(acpi.mem, io.list, acpi.nrLocalNuma, nid), nid, ps, addr, lastIndex == -1)
    ensures addr < lastIndex ==> paddr == INVALID_PADDR
  {
    var index := ToLong(addr);
    RankBound(bm);
    var r := CalcAbsolutePos(bm, lastPos, lastIndex, index);
    if r.None? {
      return INVALID_PADDR, lastPos, lastIndex;
    }
    var res: Option<int>;
    if nid < acpi.nrLocalNuma {
      res := acpi.CalcAcidxPaddr(nid, r.value, ps);
    } else {
      res := io.CalcAcidxPaddr(nid, r.value, ps);
    }
    return if res.Some? then res.value else INVALID_PADDR, r.value, index;
  }

  /** Some position before `i` names a later page than position `i` does. */
  ghost predicate Overtaken(bm: seq<bool>, pos: seq<nat>, i: nat)
    requires i < |pos|
  {
    exists j :: 0 <= j < i && pos[i] < pos[j] < |SetBits(bm)|
  }

  /** No position before `i` names a page. */
  ghost predicate NoneBefore(bm: seq<bool>, pos: seq<nat>, i: nat)
    requires i < |pos|
  {
    forall j | 0 <= j < i :: pos[j] >= |SetBits(bm)|
  }

  /** What position `i` of the list converts to. */
  ghost function Outcome(bm: seq<bool>, segs: seq<Segment>, nid: int, ps: nat, pos: seq<nat>, i: nat): int
    requires ps > 0 && i < |pos|
  {
    if Overtaken(bm, pos, i) then INVALID_PADDR else Converted(bm, segs, nid, ps, pos[i], NoneBefore(bm, pos, i))
  }

  /** The scan has gone through the first `i` positions and stands on the largest of them that names a page. */
  ghost predicate ScanAt(bm: seq<bool>, pos: seq<nat>, i: nat, lastPos: nat, lastIndex: int) {
    && i <= |pos| && Resumable(bm, lastPos, lastIndex)
    && (forall j | 0 <= j < i && pos[j] < |SetBits(bm)| :: pos[j] <= lastIndex)
    && (lastIndex >= 0 ==> exists j :: 0 <= j < i && pos[j] == lastIndex)
  }

  lemma {:induction false} ScanMeans(bm: seq<bool>, pos: seq<nat>, i: nat, lastPos: nat, lastIndex: int)
    requires ScanAt(bm, pos, i, lastPos, lastIndex) && i < |pos|
    ensures Overtaken(bm, pos, i) <==> pos[i] < lastIndex
    ensures NoneBefore(bm, pos, i) <==> lastIndex == -1
  {
  }

  lemma {:induction false} ScanOn(
      bm: seq<bool>, pos: seq<nat>, i: nat, lastPos: nat, lastIndex: int, lastPos': nat, lastIndex': int)
    requires ScanAt(bm, pos, i, lastPos, lastIndex) && i < |pos| && Resumable(bm, lastPos', lastIndex')
    requires lastIndex' == if lastIndex < pos[i] < |SetBits(bm)| then pos[i] else lastIndex
    ensures ScanAt(bm, pos, i + 1, lastPos', lastIndex')
  {
    if lastIndex' >= 0 && lastIndex' == lastIndex {
      var j :| 0 <= j < i && pos[j] == lastIndex;
      assert 0 <= j < i + 1 && pos[j] == lastIndex';
    } else if lastIndex' >= 0 {
      assert pos[i] == lastIndex';
    }
  }

  /**
   Converts positions to addresses in place.  Every position gets the address of its page; a position
   that comes after a larger valid one is out of order and gets the invalid address.
   */
  method ConvertPosToPaddrSorted(
      acpi: LocalMemory, io: RemoteMemory, bm: seq<bool>, nid: int, ps: nat, addr: array<int>)
    requires acpi.Valid() && io.Valid() && ps > 0 && |bm| < U64 / 2
    requires forall i | 0 <= i < addr.Length :: 0 <= addr[i] < U64
    modifies addr
    ensures forall i | 0 <= i < addr.Length ::
      addr[i] == Outcome(bm, SegsOf(acpi.mem, io.list, acpi.nrLocalNuma, nid), nid, ps, old(addr[..]), i)
  {
    ghost var pos: seq<nat> := addr[..];
    ghost var segs := SegsOf(acpi.mem, io.list, acpi.nrLocalNuma, nid);
    var lastPos, lastIndex := INITIAL_POS, -1;
    for i := 0 to addr.Length
      invariant ScanAt(bm, pos, i, lastPos, lastIndex)
      invariant forall j | i <= j < addr.Length :: addr[j] == pos[j]
      invariant forall j | 0 <= j < i :: addr[j] == Outcome(bm, segs, nid, ps, pos, j)
    {
      var p, lp, li := ConvertSingleAddress(acpi, io, bm, nid, ps, addr[i], lastPos, lastIndex);
      ScanMeans(bm, pos, i, lastPos, lastIndex);
      ScanOn(bm, pos, i, lastPos, lastIndex, lp, li);
      assert p == Outcome(bm, segs, nid, ps, pos, i);
      addr[i] := p;
      lastPos, lastIndex := lp, li;
    }
  }

  /** Positions in ascending order, as the caller is asked to pass them, are never overtaken. */
  lemma SortedNotOvertaken(bm: seq<bool>, pos: seq<nat>, i: nat)
    requires i < |pos| && forall j, k | 0 <= j < k < |pos| :: pos[j] <= pos[k]
    ensures !Overtaken(bm, pos, i)
  {
  }

  // ---------------------------------------------------------------- export and conversion together

  /** `x` is counter number `idx` of the first device that belongs to node `n`. */
  ghost predicate CounterIs(devs: seq<AccessDev>, n: int, idx: int, x: nat) {
    exists d: nat :: DevOf(devs, n, d) && 0 <= idx < |devs[d].actc| && x == devs[d].actc[idx]
  }

  /**
   Page `idx` of node `n`, the page of address `pa`, is exported at its rank: the record there carries
   the counter and the white-list flag at `idx` and the priority of mapping entry `first` + rank, and
   converting the position gives the aligned address.
   */
  ghost predicate Shown(
      t: Tracked, devs: seq<AccessDev>, priors: seq<nat>, first: nat, out: seq<ActcData>, segs: seq<Segment>, n: int, idx: int, pa: nat, ps: nat)
  {
    && ps > 0 && 0 <= n < |t.paddr| == |t.pageNum| == |t.white|
    && 0 <= idx < |t.paddr[n]| == |t.white[n]|
    && var pos := Rank(t.paddr[n], idx);
       && pos < t.pageNum[n]
       && SumTo(t.pageNum, n) + pos < |out|
       && CounterIs(devs, n, idx, out[SumTo(t.pageNum, n) + pos].freq)
       && out[SumTo(t.pageNum, n) + pos].whiteList == t.white[n][idx]
       && out[SumTo(t.pageNum, n) + pos].prior == (if first + pos < |priors| then priors[first + pos] % 64 else 0)
       && Target(t.paddr[n], segs, n, ps, pos) == AlignDown(pa, ps)
  }

  /** The page that is shown is the page that is migrated, for every tracked page. */
  lemma {:induction false} ShownIsMigrated(
      t: Tracked, devs: seq<AccessDev>, priors: seq<nat>, out: seq<ActcData>, lens: seq<nat>,
      segs: seq<Segment>, n: nat, idx: int, pa: nat, ps: nat)
    requires ps > 0 && Ascending(segs) && Addressable(segs) && PageMultiple(segs, ps)
    requires WellFormed(t) && DevsCover(t, devs) && n < MAX_NODES
    requires Exported(t, devs, priors, out, lens, n)
    requires Index(segs, pa, ps) == Some((n, idx)) && Has(t, n, idx)
    ensures n <= |lens| && Shown(t, devs, priors, SumTo(lens, n), out, segs, n, idx, pa, ps)
  {
    SelectRank(t.paddr[n], idx);
    ExportIsComplete(t, devs, n);
    ForwardThenInverse(segs, pa, ps);
    var d: nat :| DevOf(devs, n, d) && FindDev(devs, n).value == devs[d];
  }

  /** Different positions convert to different pages, each on the node asked for. */
  lemma {:induction false} PositionsAreDistinctPages(
      bm: seq<bool>, segs: seq<Segment>, n: int, ps: nat, j: nat, k: nat)
    requires ps > 0 && Ascending(segs) && Addressable(segs) && PageMultiple(segs, ps)
    requires j < k < |SetBits(bm)|
    requires forall i | 0 <= i < |bm| :: bm[i] ==> i < PageCount(segs, n, ps)
    ensures var a, b := Target(bm, segs, n, ps, j), Target(bm, segs, n, ps, k);
      && a >= 0 && b >= 0 && OnNode(segs, n, a) && OnNode(segs, n, b)
      && AlignDown(a, ps) != AlignDown(b, ps)
      && Index(segs, a, ps) == Some((n, SetBits(bm)[j]))
      && Index(segs, b, ps) == Some((n, SetBits(bm)[k]))
  {
    RankSelect(bm, j);
    RankSelect(bm, k);
    SetBitsAscending(bm, j, k);
    var x, y := SetBits(bm)[j], SetBits(bm)[k];
    IndexRange(segs, n, x, ps);
    IndexRange(segs, n, y, ps);
    InverseThenForward(segs, n, x, ps);
    InverseThenForward(segs, n, y, ps);
    IndexInjective(segs, Target(bm, segs, n, ps, j), Target(bm, segs, n, ps, k), ps);
  }

  /** What a scan computes for an address is the page index on the list of the address's node. */
  lemma UncachedIsIndex(local: seq<Segment>, remote: seq<Segment>, nrLocal: nat, pa: nat, ps: nat)
    requires ps > 0 && Grouped(local) && PageMultiple(remote, ps) && NodesSplit(local, remote, nrLocal)
    requires Uncached(local, remote, pa, ps).Some?
    ensures var (n, k) := Uncached(local, remote, pa, ps).value;
      var segs := SegsOf(local, remote, nrLocal, n);
      OnNode(segs, n, pa) && Index(segs, pa, ps) == Some((n, k))
  {
    FullSearchGrouped(local, pa, ps);
    TranslatorsAgree(remote, pa, ps);
  }

  /** Every node with pages has a device with one counter per page. */
  ghost predicate DevsCurrent(devs: seq<AccessDev>, counts: seq<nat>) {
    forall n | 0 <= n < |counts| && counts[n] > 0 ::
      exists d: nat :: DevOf(devs, n, d) && |devs[d].actc| == counts[n]
  }

  lemma CurrentDevsCover(t: Tracked, devs: seq<AccessDev>, counts: seq<nat>)
    requires |counts| == MAX_NODES && Holds(t, counts) && DevsCurrent(devs, counts)
    ensures DevsCover(t, devs)
  {
    forall n | 0 <= n < MAX_NODES && t.pageNum[n] > 0
      ensures exists d: nat :: DevOf(devs, n, d) && CountersFor(t.paddr[n], devs[d])
    {
      RankSelect(t.paddr[n], 0);
      var d: nat :| DevOf(devs, n, d) && |devs[d].actc| == counts[n];
      assert CountersFor(t.paddr[n], devs[d]);
    }
  }

  /**
   The whole pipeline.  After any scan from a prepared process, a scanned address is exported at one
   position of its node, with the counter of its page, and that position converts back to the page.
   */
  lemma {:induction false} ScanExportConvert(
      local: seq<Segment>, remote: seq<Segment>, nrLocal: nat, counts: seq<nat>, ops: seq<MarkOp>, t: Tracked,
      devs: seq<AccessDev>, priors: seq<nat>, out: seq<ActcData>, lens: seq<nat>, pa: nat, n: nat, k: nat, ps: nat)
    requires ps > 0 && Ascending(local) && Ascending(remote) && Addressable(local) && Addressable(remote)
    requires PageMultiple(local, ps) && PageMultiple(remote, ps)
    requires Grouped(local) && NodesSplit(local, remote, nrLocal)
    requires CountsCurrent(counts, local, remote, nrLocal, ps) && DevsCurrent(devs, counts)
    requires forall i | 0 <= i < |ops| :: ops[i].node < MAX_NODES && ops[i].idx < counts[ops[i].node]
    requires Uncached(local, remote, pa, ps) == Some((n, k)) && Marked(ops, n, k)
    requires t == RunMarks(Prepared(counts), ops) && Exported(t, devs, priors, out, lens, n)
    ensures n <= |lens| && Shown(t, devs, priors, SumTo(lens, n), out, SegsOf(local, remote, nrLocal, n), n, k, pa, ps)
  {
    UncachedBound(counts, local, remote, nrLocal, pa, ps);
    UncachedIsIndex(local, remote, nrLocal, pa, ps);
    ScanTracks(counts, ops);
    CurrentDevsCover(t, devs, counts);
    ShownIsMigrated(t, devs, priors, out, lens, SegsOf(local, remote, nrLocal, n), n, k, pa, ps);
  }
}
