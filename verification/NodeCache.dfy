/**
 The last-node cache of the 4K scan (process_scan_results in accessed_bit.c): each address is first
 looked up on the node of the previous hit and only then searched for in both lists.
 */
module NodeCache {
  import opened Common
  import opened Segments
  import opened PageIndex
  import opened AcpiMem
  import opened IoMem

  /** The search without a cache: local memory first, then remote memory. */
  function Uncached(local: seq<Segment>, remote: seq<Segment>, pa: nat, ps: nat): Option<(int, int)>
    requires ps > 0
  {
    var r := FullSearch(local, pa, ps);
    if r.Some? then r else WholePageIndex(remote, pa, ps)
  }

  /** The lookup on the cached node alone. */
  function OnCached(local: seq<Segment>, remote: seq<Segment>, nrLocal: nat, nid: int, pa: nat, ps: nat)
    : Option<(int, int)>
    requires ps > 0
  {
    if nid < nrLocal then (if OnNode(local, nid, pa) then Index(local, pa, ps) else None)
    else (if OnNode(remote, nid, pa) then WholePageIndex(remote, pa, ps) else None)
  }

  /** One address with the cache. */
  function Cached(local: seq<Segment>, remote: seq<Segment>, nrLocal: nat, nid: int, pa: nat, ps: nat)
    : Option<(int, int)>
    requires ps > 0
  {
    var r := OnCached(local, remote, nrLocal, nid, pa, ps);
    if r.Some? then r else Uncached(local, remote, pa, ps)
  }

  /** All results of one batch; the node of a hit is kept for the next address. */
  function CachedRun(local: seq<Segment>, remote: seq<Segment>, nrLocal: nat, nid: int, pas: seq<nat>, ps: nat)
    : (r: seq<Option<(int, int)>>)
    requires ps > 0
    ensures |r| == |pas|
    decreases |pas|
  {
    if pas == [] then []
    else
      var r := Cached(local, remote, nrLocal, nid, pas[0], ps);
      var nid' := if r.Some? then r.value.0 else nid;
      [r] + CachedRun(local, remote, nrLocal, nid', pas[1..], ps)
  }

  /** No address of a remote node is also listed as local memory. */
  ghost predicate Separate(local: seq<Segment>, remote: seq<Segment>, nrLocal: nat) {
    forall pa: nat, j: nat | j < |remote| && remote[j].Covers(pa) && remote[j].node >= nrLocal ::
      SegAt(local, pa) < 0
  }

  lemma CachedIsUncached(local: seq<Segment>, remote: seq<Segment>, nrLocal: nat, nid: int, pa: nat, ps: nat)
    requires ps > 0 && SearchIsIndex(local, ps) && Separate(local, remote, nrLocal)
    ensures Cached(local, remote, nrLocal, nid, pa, ps) == Uncached(local, remote, pa, ps)
  {
    assert FullSearch(local, pa, ps) == Index(local, pa, ps);
  }

  lemma {:induction false} RunIsUncached(
      local: seq<Segment>, remote: seq<Segment>, nrLocal: nat, nid: int, pas: seq<nat>, ps: nat)
    requires ps > 0 && SearchIsIndex(local, ps) && Separate(local, remote, nrLocal)
    ensures forall i | 0 <= i < |pas| ::
      CachedRun(local, remote, nrLocal, nid, pas, ps)[i] == Uncached(local, remote, pas[i], ps)
    decreases |pas|
  {
    if pas != [] {
      CachedIsUncached(local, remote, nrLocal, nid, pas[0], ps);
      var r := Cached(local, remote, nrLocal, nid, pas[0], ps);
      RunIsUncached(local, remote, nrLocal, if r.Some? then r.value.0 else nid, pas[1..], ps);
    }
  }

  /** The cache changes no result, whatever the starting node and the addresses. */
  ghost predicate Transparent(local: seq<Segment>, remote: seq<Segment>, nrLocal: nat, ps: nat)
    requires ps > 0
  {
    forall nid: int, pas: seq<nat>, i: nat | i < |pas| ::
      CachedRun(local, remote, nrLocal, nid, pas, ps)[i] == Uncached(local, remote, pas[i], ps)
  }

  lemma TransparentOne(local: seq<Segment>, remote: seq<Segment>, nrLocal: nat, ps: nat, nid: int, pa: nat)
    requires ps > 0 && Transparent(local, remote, nrLocal, ps)
    ensures Cached(local, remote, nrLocal, nid, pa, ps) == Uncached(local, remote, pa, ps)
  {
    assert CachedRun(local, remote, nrLocal, nid, [pa], ps)[0] == Uncached(local, remote, [pa][0], ps);
  }

  /**
   The cache is transparent exactly when every restart of the local search fits and no remote address is
   also listed as local; segments need not hold whole pages.
   */
  lemma {:induction false} CacheTransparentIff(local: seq<Segment>, remote: seq<Segment>, nrLocal: nat, ps: nat)
    requires ps > 0 && Ascending(local) && Ascending(remote)
    requires forall i | 0 <= i < |local| :: local[i].node < nrLocal
    ensures Transparent(local, remote, nrLocal, ps) <==> RestartsFit(local, ps) && Separate(local, remote, nrLocal)
  {
    SearchIsIndexIff(local, ps);
    if RestartsFit(local, ps) && Separate(local, remote, nrLocal) {
      forall nid: int, pas: seq<nat>, i: nat | i < |pas|
        ensures CachedRun(local, remote, nrLocal, nid, pas, ps)[i] == Uncached(local, remote, pas[i], ps)
      {
        RunIsUncached(local, remote, nrLocal, nid, pas, ps);
      }
    }
    if Transparent(local, remote, nrLocal, ps) {
      forall pa: nat ensures FullSearch(local, pa, ps) == Index(local, pa, ps) {
        if SegAt(local, pa) >= 0 {
          TransparentOne(local, remote, nrLocal, ps, local[SegAt(local, pa)].node, pa);
        }
      }
      forall pa: nat, j: nat | j < |remote| && remote[j].Covers(pa) && remote[j].node >= nrLocal
        ensures SegAt(local, pa) < 0
      {
        SegAtUnique(remote, pa, j);
        TransparentOne(local, remote, nrLocal, ps, remote[j].node, pa);
      }
    }
  }

  /** With whole pages: exactly when local nodes stand together and no remote address is also local. */
  lemma CacheTransparentIffGrouped(local: seq<Segment>, remote: seq<Segment>, nrLocal: nat, ps: nat)
    requires ps > 0 && Ascending(local) && Ascending(remote) && PageMultiple(local, ps)
    requires forall i | 0 <= i < |local| :: local[i].node < nrLocal
    ensures Transparent(local, remote, nrLocal, ps) <==> Grouped(local) && Separate(local, remote, nrLocal)
  {
    CacheTransparentIff(local, remote, nrLocal, ps);
    RestartsFitIffGrouped(local, ps);
  }

  /** One address: the cached node first, then both lists. */
  method LookupCached(acpi: LocalMemory, io: RemoteMemory, nid: int, paddr: nat, ps: nat) returns (r: Option<(int, int)>)
    requires acpi.Valid() && io.Valid() && NodesInRange(io.list) && ps > 0
    ensures r == Cached(acpi.mem, io.list, acpi.nrLocalNuma, nid, paddr, ps)
  {
    var hit: Option<int>;
    if nid < acpi.nrLocalNuma {
      hit := acpi.CalcPaddrAcidxKnownNid(paddr, nid, ps);
    } else {
      hit := io.CalcPaddrAcidxKnownNid(paddr, nid, ps);
    }
    if hit.Some? {
      return Some((nid, hit.value));
    }
    r := acpi.CalcPaddrAcidx(paddr, ps);
    if r.None? {
      r := io.CalcPaddrAcidx(paddr, ps);
    }
  }

  /** The batch loop of the scan, on the two memory objects. */
  method ProcessScanResults(acpi: LocalMemory, io: RemoteMemory, start: int, paddrs: seq<nat>, ps: nat)
    returns (out: seq<Option<(int, int)>>)
    requires acpi.Valid() && io.Valid() && NodesInRange(io.list) && ps > 0
    requires RestartsFit(acpi.mem, ps) && Separate(acpi.mem, io.list, acpi.nrLocalNuma)
    ensures |out| == |paddrs|
    ensures forall i | 0 <= i < |out| :: out[i] == Uncached(acpi.mem, io.list, paddrs[i], ps)
  {
    SearchIsIndexIff(acpi.mem, ps);
    var nid := start;
    out := [];
    for i := 0 to |paddrs|
      invariant |out| == i
      invariant forall j | 0 <= j < i :: out[j] == Uncached(acpi.mem, io.list, paddrs[j], ps)
    {
      var r := LookupCached(acpi, io, nid, paddrs[i], ps);
      CachedIsUncached(acpi.mem, io.list, acpi.nrLocalNuma, nid, paddrs[i], ps);
      if r.Some? {
        nid := r.value.0;
      }
      out := out + [r];
    }
  }
}
