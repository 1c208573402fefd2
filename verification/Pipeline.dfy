/**
 The pipeline as it runs: prepare a process, add every scanned page, export the records, convert the
 positions of one node back to addresses.
 */
module Pipeline {
  import opened Arith
  import opened Common
  import opened Bitmap
  import opened Segments
  import opened PageIndex
  import opened AcpiMem
  import opened IoMem
  import opened NodeCache
  import opened AccessPid
  import opened Export
  import opened PosConvert

  /** Both memory maps, the page counts and the counters are in order and fit each other. */
  ghost predicate Ready(acpi: LocalMemory, io: RemoteMemory, counts: seq<nat>, ps: nat)
    reads acpi, io
  {
    && ps > 0 && acpi.Valid() && io.Valid() && Grouped(acpi.mem)
    && Addressable(acpi.mem) && Addressable(io.list) && PageMultiple(acpi.mem, ps) && PageMultiple(io.list, ps)
    && NodesSplit(acpi.mem, io.list, acpi.nrLocalNuma)
    && CountsCurrent(counts, acpi.mem, io.list, acpi.nrLocalNuma, ps)
  }

  /** Some accepted address among the first `x` lies in page `k` of node `n`. */
  ghost predicate Accepted(places: seq<Option<(int, int)>>, st: seq<Status>, n: int, k: int)
    requires |st| <= |places|
  {
    exists i :: 0 <= i < |st| && st[i].Ok? && places[i] == Some((n, k))
  }

  /** One of them was white. */
  ghost predicate AcceptedWhite(places: seq<Option<(int, int)>>, pages: seq<Option<bool>>, st: seq<Status>, n: int, k: int)
    requires |st| <= |places| == |pages|
  {
    exists i :: 0 <= i < |st| && st[i].Ok? && places[i] == Some((n, k)) && pages[i] == Some(true)
  }

  /** Node and page index of every address. */
  ghost function Places(local: seq<Segment>, remote: seq<Segment>, paddrs: seq<nat>, ps: nat): (r: seq<Option<(int, int)>>)
    requires ps > 0
    ensures |r| == |paddrs| && forall i | 0 <= i < |r| :: r[i] == Uncached(local, remote, paddrs[i], ps)
  {
    seq(|paddrs|, i requires 0 <= i < |paddrs| => Uncached(local, remote, paddrs[i], ps))
  }

  /** The tracked pages are exactly those of the accepted addresses, the white ones those of white addresses. */
  ghost predicate TracksAccepted(t: Tracked, places: seq<Option<(int, int)>>, pages: seq<Option<bool>>, st: seq<Status>)
    requires |st| <= |places| == |pages|
  {
    && (forall n: int, k: int :: Has(t, n, k) <==> Accepted(places, st, n, k))
    && (forall n: int, k: int :: IsWhite(t, n, k) <==> AcceptedWhite(places, pages, st, n, k))
  }

  lemma AcceptedStep(places: seq<Option<(int, int)>>, pages: seq<Option<bool>>, st: seq<Status>, s: Status, n: int, k: int)
    requires |st| < |places| == |pages|
    ensures var here := s.Ok? && places[|st|] == Some((n, k));
      && (Accepted(places, st + [s], n, k) <==> Accepted(places, st, n, k) || here)
      && (AcceptedWhite(places, pages, st + [s], n, k) <==>
          AcceptedWhite(places, pages, st, n, k) || (here && pages[|st|] == Some(true)))
  {
    var more := st + [s];
    assert more[|st|] == s;
    assert forall i | 0 <= i < |st| :: more[i] == st[i];
  }

  lemma {:induction false} TracksStep(
      t: Tracked, t': Tracked, places: seq<Option<(int, int)>>, pages: seq<Option<bool>>, st: seq<Status>, s: Status)
    requires |st| < |places| == |pages| && TracksAccepted(t, places, pages, st)
    requires forall n: int, k: int :: Has(t', n, k) <==> Has(t, n, k) || (s.Ok? && places[|st|] == Some((n, k)))
    requires forall n: int, k: int :: IsWhite(t', n, k) <==>
      IsWhite(t, n, k) || (s.Ok? && places[|st|] == Some((n, k)) && pages[|st|] == Some(true))
    ensures TracksAccepted(t', places, pages, st + [s])
  {
    forall n: int, k: int
      ensures Has(t', n, k) <==> Accepted(places, st + [s], n, k)
      ensures IsWhite(t', n, k) <==> AcceptedWhite(places, pages, st + [s], n, k)
    {
      AcceptedStep(places, pages, st, s, n, k);
    }
  }

  /** The address is on a node of the mask and its page exists. */
  predicate Acceptable(mask: set<int>, place: Option<(int, int)>, page: Option<bool>, nrLocal: nat) {
    place.Some? && InMask(mask, place.value.0, nrLocal) && page.Some?
  }

  /** The scan has dealt with the first |st| addresses. */
  ghost predicate Scanned(
      ap: Process, counts: seq<nat>, places: seq<Option<(int, int)>>, pages: seq<Option<bool>>, nrLocal: nat, st: seq<Status>)
    reads ap
  {
    && ap.Valid() && Holds(ap.View(), counts) && |st| <= |places| == |pages|
    && TracksAccepted(ap.View(), places, pages, st)
    && (forall i | 0 <= i < |st| :: st[i].Ok? <==> Acceptable(ap.numaNodes, places[i], pages[i], nrLocal))
    && forall n | 0 <= n < MAX_NODES :: |ap.paddrBm[n]| < counts[n] + BITS_PER_LONG
  }

  /** What an addition leaves: the page is tracked if it was accepted. */
  lemma {:induction false} AddedScanned(
      ap: Process, t: Tracked, counts: seq<nat>, places: seq<Option<(int, int)>>, pages: seq<Option<bool>>, nrLocal: nat,
      st: seq<Status>, s: Status)
    requires |st| < |places| == |pages| && TracksAccepted(t, places, pages, st) && ap.Valid() && Holds(ap.View(), counts)
    requires WellFormed(t) && forall n | 0 <= n < MAX_NODES :: |t.paddr[n]| < counts[n] + BITS_PER_LONG
    requires forall i | 0 <= i < |st| :: st[i].Ok? <==> Acceptable(ap.numaNodes, places[i], pages[i], nrLocal)
    requires s.Ok? <==> Acceptable(ap.numaNodes, places[|st|], pages[|st|], nrLocal)
    requires s.Ok? ==>
      var (n, k) := places[|st|].value;
      0 <= n < MAX_NODES && 0 <= k < |t.paddr[n]| && ap.View() == Mark(t, n, k, pages[|st|].value)
    requires !s.Ok? ==> ap.View() == t
    ensures Scanned(ap, counts, places, pages, nrLocal, st + [s])
  {
    if s.Ok? {
      MarkKeeps(t, places[|st|].value.0, places[|st|].value.1, pages[|st|].value);
    }
    assert TracksAccepted(ap.View(), places, pages, st + [s]) by {
      TracksStep(t, ap.View(), places, pages, st, s);
    }
  }

  /** One address of the 4K scan, looked up already: an address that is on no node is passed over. */
  method ScanOne(
      acpi: LocalMemory, io: RemoteMemory, ap: Process, ghost counts: seq<nat>, place: Option<(int, int)>,
      page: Option<bool>, ghost paddr: nat, ghost ps: nat, ghost places: seq<Option<(int, int)>>,
      ghost pages: seq<Option<bool>>, ghost st: seq<Status>)
    returns (s: Status)
    requires Ready(acpi, io, counts, ps) && Scanned(ap, counts, places, pages, acpi.nrLocalNuma, st)
    requires |st| < |places| && places[|st|] == place == Uncached(acpi.mem, io.list, paddr, ps) && pages[|st|] == page
    modifies ap
    ensures ap.numaNodes == old(ap.numaNodes) && Scanned(ap, counts, places, pages, acpi.nrLocalNuma, st + [s])
  {
    ghost var t := ap.View();
    if place.None? {
      s := ERange;
      AddedScanned(ap, t, counts, places, pages, acpi.nrLocalNuma, st, s);
      return;
    }
    UncachedBound(counts, acpi.mem, io.list, acpi.nrLocalNuma, paddr, ps);
    var nid, acidx := place.value.0, place.value.1;
    s := ap.AddToBmPageFast(nid, acidx, page, acpi.nrLocalNuma);
    if s.Ok? {
      MarkHolds(t, counts, nid, acidx, page.value);
    }
    AddedScanned(ap, t, counts, places, pages, acpi.nrLocalNuma, st, s);
  }

  /** A whole scan of 4K pages: the cached lookup of every address, then the fast addition. */
  method ScanAll(
      acpi: LocalMemory, io: RemoteMemory, ap: Process, counts: seq<nat>, paddrs: seq<nat>, pages: seq<Option<bool>>,
      ps: nat) returns (st: seq<Status>)
    requires Ready(acpi, io, counts, ps) && Separate(acpi.mem, io.list, acpi.nrLocalNuma) && |pages| == |paddrs|
    modifies ap
    ensures |st| == |paddrs| && ap.numaNodes == old(ap.numaNodes)
    ensures Scanned(ap, counts, Places(acpi.mem, io.list, paddrs, ps), pages, acpi.nrLocalNuma, st)
  {
    ap.WalkPagemapPrepare(counts);
    PreparedHolds(counts);
    RestartsFitIffGrouped(acpi.mem, ps);
    var found := ProcessScanResults(acpi, io, 0, paddrs, ps);
    ghost var places := Places(acpi.mem, io.list, paddrs, ps);
    st := [];
    for i := 0 to |paddrs|
      invariant |st| == i && ap.numaNodes == old(ap.numaNodes)
      invariant Scanned(ap, counts, places, pages, acpi.nrLocalNuma, st)
    {
      var s := ScanOne(acpi, io, ap, counts, found[i], pages[i], paddrs[i], ps, places, pages, st);
      st := st + [s];
    }
  }

  /** One address of the huge-page scan. */
  method ScanOneHuge(
      acpi: LocalMemory, io: RemoteMemory, ap: Process, ghost counts: seq<nat>, paddr: nat, ps: nat,
      ghost places: seq<Option<(int, int)>>, ghost pages: seq<Option<bool>>, ghost st: seq<Status>) returns (s: Status)
    requires Ready(acpi, io, counts, ps) && Scanned(ap, counts, places, pages, acpi.nrLocalNuma, st)
    requires |st| < |places| && places[|st|] == Uncached(acpi.mem, io.list, paddr, ps) && pages[|st|] == Some(false)
    modifies ap
    ensures ap.numaNodes == old(ap.numaNodes) && Scanned(ap, counts, places, pages, acpi.nrLocalNuma, st + [s])
  {
    ghost var t := ap.View();
    s := ap.AddToBmHugepage(acpi, io, paddr, ps, counts);
    if places[|st|].Some? {
      UncachedBound(counts, acpi.mem, io.list, acpi.nrLocalNuma, paddr, ps);
    }
    AddedScanned(ap, t, counts, places, pages, acpi.nrLocalNuma, st, s);
  }

  /** Huge pages exist and are never white. */
  function HugePages(n: nat): (r: seq<Option<bool>>)
    ensures |r| == n && forall i | 0 <= i < n :: r[i] == Some(false)
  {
    seq(n, _ => Some(false))
  }

  /** A whole scan of huge pages. */
  method ScanAllHuge(
      acpi: LocalMemory, io: RemoteMemory, ap: Process, counts: seq<nat>, paddrs: seq<nat>, ps: nat)
    returns (st: seq<Status>)
    requires Ready(acpi, io, counts, ps)
    modifies ap
    ensures |st| == |paddrs| && ap.numaNodes == old(ap.numaNodes)
    ensures Scanned(ap, counts, Places(acpi.mem, io.list, paddrs, ps), HugePages(|paddrs|), acpi.nrLocalNuma, st)
  {
    ap.WalkPagemapPrepare(counts);
    PreparedHolds(counts);
    ghost var places, pages := Places(acpi.mem, io.list, paddrs, ps), HugePages(|paddrs|);
    st := [];
    for i := 0 to |paddrs|
      invariant |st| == i && ap.numaNodes == old(ap.numaNodes)
      invariant Scanned(ap, counts, places, pages, acpi.nrLocalNuma, st)
    {
      var s := ScanOneHuge(acpi, io, ap, counts, paddrs[i], ps, places, pages, st);
      st := st + [s];
    }
  }

  /** The records of all nodes in a buffer of their number. */
  method ExportAll(ap: Process, priors: seq<nat>, devs: seq<AccessDev>)
    returns (out: array<ActcData>, lens: seq<nat>)
    requires ap.Valid()
    ensures fresh(out) && |lens| == MAX_NODES
    ensures forall n: nat | n < MAX_NODES :: Exported(ap.View(), devs, priors, out[..], lens, n)
  {
    var total := TotalPages(ap.pageNum);
    out := new ActcData[total](_ => ActcData(0, 0, false));
    lens := FillPidActcData(Tracked(ap.pageNum, ap.paddrBm, ap.whiteBm), priors, devs, out);
  }

  /** All positions of a node, converted. */
  method ConvertAll(acpi: LocalMemory, io: RemoteMemory, ap: Process, n: nat, ps: nat) returns (addr: array<int>)
    requires acpi.Valid() && io.Valid() && ap.Valid() && ps > 0 && n < MAX_NODES && |ap.paddrBm[n]| < U64 / 2
    ensures fresh(addr) && addr.Length == ap.pageNum[n]
    ensures forall i | 0 <= i < addr.Length ::
      addr[i] == Target(ap.paddrBm[n], SegsOf(acpi.mem, io.list, acpi.nrLocalNuma, n), n, ps, i)
  {
    RankBound(ap.paddrBm[n]);
    addr := new int[ap.pageNum[n]](i => i);
    ghost var pos: seq<nat> := addr[..];
    ConvertPosToPaddrSorted(acpi, io, ap.paddrBm[n], n, ps, addr);
    forall i | 0 <= i < addr.Length
      ensures addr[i] == Target(ap.paddrBm[n], SegsOf(acpi.mem, io.list, acpi.nrLocalNuma, n), n, ps, i)
    {
      SortedNotOvertaken(ap.paddrBm[n], pos, i);
    }
  }

  /**
   Position `pos` of node `n` is the page of `pa`: its record carries the page's counter, white-list flag and
   the priority of that record's place in the mapping, and the position converts to the page's address.
   */
  ghost predicate Delivered(
      t: Tracked, devs: seq<AccessDev>, priors: seq<nat>, out: seq<ActcData>, addr: seq<int>, n: nat, k: int, w: bool,
      pa: nat, ps: nat, pos: nat)
  {
    && ps > 0 && n < |t.pageNum| && pos < |addr| && addr[pos] == AlignDown(pa, ps)
    && var p := SumTo(t.pageNum, n) + pos;
       && p < |out| && CounterIs(devs, n, k, out[p].freq) && out[p].whiteList == w
       && out[p].prior == if p < |priors| then priors[p] % 64 else 0
  }

  /** Positions of node `n` and accepted addresses on it name each other's pages. */
  ghost predicate AllDelivered(
      t: Tracked, devs: seq<AccessDev>, priors: seq<nat>, out: seq<ActcData>, addr: seq<int>,
      places: seq<Option<(int, int)>>, pages: seq<Option<bool>>, paddrs: seq<nat>, st: seq<Status>, n: nat, ps: nat)
    requires |st| == |paddrs| == |places| == |pages|
  {
    && (forall i | 0 <= i < |st| && st[i].Ok? && places[i].Some? && places[i].value.0 == n ::
          exists pos :: FromAddress(t, devs, priors, out, addr, places, pages, paddrs, st, n, ps, i, pos))
    && (forall pos: nat | pos < |addr| :: FromScan(t, devs, priors, out, addr, places, pages, paddrs, st, n, ps, pos))
  }

  /** Position `pos` delivers the page of some accepted address. */
  ghost predicate FromScan(
      t: Tracked, devs: seq<AccessDev>, priors: seq<nat>, out: seq<ActcData>, addr: seq<int>,
      places: seq<Option<(int, int)>>, pages: seq<Option<bool>>, paddrs: seq<nat>, st: seq<Status>, n: nat, ps: nat,
      pos: nat)
    requires |st| == |paddrs| == |places| == |pages|
  {
    exists i :: FromAddress(t, devs, priors, out, addr, places, pages, paddrs, st, n, ps, i, pos)
  }

  /** Position `pos` delivers the page of accepted address `i`. */
  ghost predicate FromAddress(
      t: Tracked, devs: seq<AccessDev>, priors: seq<nat>, out: seq<ActcData>, addr: seq<int>,
      places: seq<Option<(int, int)>>, pages: seq<Option<bool>>, paddrs: seq<nat>, st: seq<Status>, n: nat, ps: nat,
      i: nat, pos: nat)
    requires |st| == |paddrs| == |places| == |pages|
  {
    && i < |st| && st[i].Ok? && places[i].Some? && places[i].value.0 == n
    && Delivered(t, devs, priors, out, addr, n, places[i].value.1,
                 AcceptedWhite(places, pages, st, n, places[i].value.1), paddrs[i], ps, pos)
  }

  /**
   Export and convert after a scan.  Every accepted address of the node is delivered at some position, and
   every position delivers an accepted address; different positions are different pages.
   */
  method ExportThenConvert(
      acpi: LocalMemory, io: RemoteMemory, ap: Process, ghost counts: seq<nat>, ghost paddrs: seq<nat>,
      ghost pages: seq<Option<bool>>, ghost st: seq<Status>, priors: seq<nat>, devs: seq<AccessDev>, n: nat, ps: nat)
    returns (out: array<ActcData>, addr: array<int>)
    requires Ready(acpi, io, counts, ps) && DevsCurrent(devs, counts) && |st| == |paddrs|
    requires Scanned(ap, counts, Places(acpi.mem, io.list, paddrs, ps), pages, acpi.nrLocalNuma, st)
    requires n < MAX_NODES && counts[n] + BITS_PER_LONG < U64 / 2
    ensures fresh(out) && fresh(addr) && addr.Length == ap.pageNum[n]
    ensures AllDelivered(
      ap.View(), devs, priors, out[..], addr[..], Places(acpi.mem, io.list, paddrs, ps), pages, paddrs, st, n, ps)
    ensures forall j, k | 0 <= j < k < addr.Length :: addr[j] != addr[k]
  {
    var lens;
    out, lens := ExportAll(ap, priors, devs);
    addr := ConvertAll(acpi, io, ap, n, ps);
    AllExportedInFull(ap.View(), devs, priors, out[..], lens, counts, n);
    DeliverAll(
      acpi.mem, io.list, acpi.nrLocalNuma, counts, ap.View(), devs, priors, out[..], lens, addr[..], paddrs, pages, st, n, ps);
  }

  /** The 4K pipeline: scan, export, convert.  Accepted are exactly the addresses on a node of the mask whose page exists. */
  method ScanExportThenConvert(
      acpi: LocalMemory, io: RemoteMemory, ap: Process, counts: seq<nat>, paddrs: seq<nat>, pages: seq<Option<bool>>,
      priors: seq<nat>, devs: seq<AccessDev>, n: nat, ps: nat)
    returns (st: seq<Status>, out: array<ActcData>, addr: array<int>)
    requires Ready(acpi, io, counts, ps) && Separate(acpi.mem, io.list, acpi.nrLocalNuma)
    requires DevsCurrent(devs, counts) && |pages| == |paddrs|
    requires n < MAX_NODES && counts[n] + BITS_PER_LONG < U64 / 2
    modifies ap
    ensures ap.Valid() && |st| == |paddrs| && addr.Length == ap.pageNum[n]
    ensures forall i | 0 <= i < |st| ::
      st[i].Ok? <==> OnMask(acpi.mem, io.list, old(ap.numaNodes), acpi.nrLocalNuma, paddrs[i]) && pages[i].Some?
    ensures AllDelivered(
      ap.View(), devs, priors, out[..], addr[..], Places(acpi.mem, io.list, paddrs, ps), pages, paddrs, st, n, ps)
    ensures forall j, k | 0 <= j < k < addr.Length :: addr[j] != addr[k]
  {
    st := ScanAll(acpi, io, ap, counts, paddrs, pages, ps);
    PlacesOnMask(acpi.mem, io.list, ap.numaNodes, acpi.nrLocalNuma, paddrs, ps);
    out, addr := ExportThenConvert(acpi, io, ap, counts, paddrs, pages, st, priors, devs, n, ps);
  }

  /** The huge-page pipeline. */
  method HugeScanExportThenConvert(
      acpi: LocalMemory, io: RemoteMemory, ap: Process, counts: seq<nat>, paddrs: seq<nat>, priors: seq<nat>,
      devs: seq<AccessDev>, n: nat, ps: nat)
    returns (st: seq<Status>, out: array<ActcData>, addr: array<int>)
    requires Ready(acpi, io, counts, ps) && DevsCurrent(devs, counts)
    requires n < MAX_NODES && counts[n] + BITS_PER_LONG < U64 / 2
    modifies ap
    ensures ap.Valid() && |st| == |paddrs| && addr.Length == ap.pageNum[n]
    ensures forall i | 0 <= i < |st| ::
      st[i].Ok? <==> OnMask(acpi.mem, io.list, old(ap.numaNodes), acpi.nrLocalNuma, paddrs[i])
    ensures AllDelivered(
      ap.View(), devs, priors, out[..], addr[..], Places(acpi.mem, io.list, paddrs, ps), HugePages(|paddrs|), paddrs, st, n, ps)
    ensures forall j, k | 0 <= j < k < addr.Length :: addr[j] != addr[k]
  {
    st := ScanAllHuge(acpi, io, ap, counts, paddrs, ps);
    PlacesOnMask(acpi.mem, io.list, ap.numaNodes, acpi.nrLocalNuma, paddrs, ps);
    out, addr := ExportThenConvert(acpi, io, ap, counts, paddrs, HugePages(|paddrs|), st, priors, devs, n, ps);
  }

  /** A segment of a node of the mask covers the address; a local segment hides remote ones. */
  ghost predicate OnMask(local: seq<Segment>, remote: seq<Segment>, mask: set<int>, nrLocal: nat, pa: nat) {
    if exists j :: 0 <= j < |local| && local[j].Covers(pa) then
      exists j :: 0 <= j < |local| && local[j].Covers(pa) && InMask(mask, local[j].node, nrLocal)
    else
      exists j :: 0 <= j < |remote| && remote[j].Covers(pa) && InMask(mask, remote[j].node, nrLocal)
  }

  lemma {:induction false} PlaceOnMask(
      local: seq<Segment>, remote: seq<Segment>, mask: set<int>, nrLocal: nat, pa: nat, ps: nat)
    requires ps > 0 && Ascending(local) && Ascending(remote)
    ensures var r := Uncached(local, remote, pa, ps);
      (r.Some? && InMask(mask, r.value.0, nrLocal)) <==> OnMask(local, remote, mask, nrLocal, pa)
  {
    if j: nat :| j < |local| && local[j].Covers(pa) {
      SegAtUnique(local, pa, j);
    }
    if j: nat :| j < |remote| && remote[j].Covers(pa) {
      SegAtUnique(remote, pa, j);
    }
  }

  lemma {:induction false} PlacesOnMask(
      local: seq<Segment>, remote: seq<Segment>, mask: set<int>, nrLocal: nat, paddrs: seq<nat>, ps: nat)
    requires ps > 0 && Ascending(local) && Ascending(remote)
    ensures forall i | 0 <= i < |paddrs| ::
      var r := Places(local, remote, paddrs, ps)[i];
      (r.Some? && InMask(mask, r.value.0, nrLocal)) <==> OnMask(local, remote, mask, nrLocal, paddrs[i])
  {
    forall i | 0 <= i < |paddrs|
      ensures var r := Places(local, remote, paddrs, ps)[i];
        (r.Some? && InMask(mask, r.value.0, nrLocal)) <==> OnMask(local, remote, mask, nrLocal, paddrs[i])
    {
      PlaceOnMask(local, remote, mask, nrLocal, paddrs[i], ps);
    }
  }

  /** When every node exports all its records, their numbers in the mapping are their places in the output. */
  lemma {:induction false} AllExportedInFull(
      t: Tracked, devs: seq<AccessDev>, priors: seq<nat>, out: seq<ActcData>, lens: seq<nat>, counts: seq<nat>, n: nat)
    requires Holds(t, counts) && DevsCurrent(devs, counts) && n <= MAX_NODES && n <= |lens|
    requires forall m: nat | m < n :: Exported(t, devs, priors, out, lens, m)
    ensures SumTo(lens, n) == SumTo(t.pageNum, n)
    decreases n
  {
    if n > 0 {
      AllExportedInFull(t, devs, priors, out, lens, counts, n - 1);
      CurrentDevsCover(t, devs, counts);
      ExportIsComplete(t, devs, n - 1);
      assert Exported(t, devs, priors, out, lens, n - 1);
    }
  }

  method TotalPages(pageNum: seq<nat>) returns (total: nat)
    requires |pageNum| == MAX_NODES
    ensures total == SumTo(pageNum, MAX_NODES)
  {
    total := 0;
    for i := 0 to MAX_NODES
      invariant total == SumTo(pageNum, i)
    {
      total := total + pageNum[i];
    }
  }

  /** What is known once the conversion is done. */
  ghost predicate Finished(
      local: seq<Segment>, remote: seq<Segment>, nrLocal: nat, counts: seq<nat>, t: Tracked, devs: seq<AccessDev>,
      priors: seq<nat>, out: seq<ActcData>, lens: seq<nat>, addr: seq<int>, n: nat, ps: nat)
  {
    && ps > 0 && Ascending(local) && Ascending(remote) && Addressable(local) && Addressable(remote)
    && PageMultiple(local, ps) && PageMultiple(remote, ps) && Grouped(local) && NodesSplit(local, remote, nrLocal)
    && CountsCurrent(counts, local, remote, nrLocal, ps) && DevsCurrent(devs, counts) && Holds(t, counts)
    && n < MAX_NODES && Exported(t, devs, priors, out, lens, n) && |addr| == t.pageNum[n]
    && SumTo(lens, n) == SumTo(t.pageNum, n)
    && forall i | 0 <= i < |addr| :: addr[i] == Target(t.paddr[n], SegsOf(local, remote, nrLocal, n), n, ps, i)
  }

  /** An accepted address is delivered at the rank of its page. */
  lemma {:induction false} DeliverOne(
      local: seq<Segment>, remote: seq<Segment>, nrLocal: nat, counts: seq<nat>, t: Tracked, devs: seq<AccessDev>,
      priors: seq<nat>, out: seq<ActcData>, lens: seq<nat>, addr: seq<int>, n: nat, k: int, pa: nat, ps: nat)
    requires Finished(local, remote, nrLocal, counts, t, devs, priors, out, lens, addr, n, ps)
    requires Uncached(local, remote, pa, ps) == Some((n, k)) && Has(t, n, k)
    ensures Delivered(t, devs, priors, out, addr, n, k, t.white[n][k], pa, ps, Rank(t.paddr[n], k))
  {
    UncachedIsIndex(local, remote, nrLocal, pa, ps);
    CurrentDevsCover(t, devs, counts);
    ShownIsMigrated(t, devs, priors, out, lens, SegsOf(local, remote, nrLocal, n), n, k, pa, ps);
  }

  lemma {:induction false} DeliverAll(
      local: seq<Segment>, remote: seq<Segment>, nrLocal: nat, counts: seq<nat>, t: Tracked, devs: seq<AccessDev>,
      priors: seq<nat>, out: seq<ActcData>, lens: seq<nat>, addr: seq<int>, paddrs: seq<nat>, pages: seq<Option<bool>>,
      st: seq<Status>, n: nat, ps: nat)
    requires Finished(local, remote, nrLocal, counts, t, devs, priors, out, lens, addr, n, ps)
    requires |st| == |paddrs| == |pages| && TracksAccepted(t, Places(local, remote, paddrs, ps), pages, st)
    ensures AllDelivered(t, devs, priors, out, addr, Places(local, remote, paddrs, ps), pages, paddrs, st, n, ps)
    ensures forall j, k | 0 <= j < k < |addr| :: addr[j] != addr[k]
  {
    var places := Places(local, remote, paddrs, ps);
    forall i | 0 <= i < |st| && st[i].Ok? && places[i].Some? && places[i].value.0 == n
      ensures exists pos :: FromAddress(t, devs, priors, out, addr, places, pages, paddrs, st, n, ps, i, pos)
    {
      var k := places[i].value.1;
      assert Accepted(places, st, n, k);
      assert IsWhite(t, n, k) <==> AcceptedWhite(places, pages, st, n, k);
      DeliverOne(local, remote, nrLocal, counts, t, devs, priors, out, lens, addr, n, k, paddrs[i], ps);
      assert FromAddress(t, devs, priors, out, addr, places, pages, paddrs, st, n, ps, i, Rank(t.paddr[n], k));
    }
    forall pos: nat | pos < |addr|
      ensures FromScan(t, devs, priors, out, addr, places, pages, paddrs, st, n, ps, pos)
    {
      RankSelect(t.paddr[n], pos);
      var k := SetBits(t.paddr[n])[pos];
      assert Has(t, n, k);
      var i :| 0 <= i < |st| && st[i].Ok? && places[i] == Some((n, k));
      assert IsWhite(t, n, k) <==> AcceptedWhite(places, pages, st, n, k);
      DeliverOne(local, remote, nrLocal, counts, t, devs, priors, out, lens, addr, n, k, paddrs[i], ps);
      assert FromAddress(t, devs, priors, out, addr, places, pages, paddrs, st, n, ps, i, pos);
    }
    forall j, k | 0 <= j < k < |addr|
      ensures addr[j] != addr[k]
    {
      PositionsAreDistinctPages(t.paddr[n], SegsOf(local, remote, nrLocal, n), n, ps, j, k);
    }
  }
}
