/** Remote memory: the iomem segment list and its three translations (access_iomem.c). */
module IoMem {
  import opened Common
  import opened Segments
  import opened PageIndex
  import opened MergeIndex
  import opened AcpiMem

  /** Node numbers that index the per-node counters. */
  ghost predicate NodesInRange(segs: seq<Segment>) {
    forall i | 0 <= i < |segs| :: 0 <= segs[i].node < MAX_NODES
  }

  /** The search for `pa` looks at segment `i`. */
  ghost predicate Reached(segs: seq<Segment>, pa: nat, i: nat) {
    i < |segs| && forall j | 0 <= j < i :: segs[j].end < pa
  }

  /** The search ends at segment `i`, before which all segments end below `pa`. */
  lemma {:induction false} StopsAt(segs: seq<Segment>, pa: nat, i: nat, ps: nat)
    requires ps > 0 && Ascending(segs) && i <= |segs|
    requires forall j | 0 <= j < i :: segs[j].end < pa && segs[j].node < MAX_NODES
    requires i < |segs| ==> pa <= segs[i].end && segs[i].node < MAX_NODES
    ensures forall j: nat | Reached(segs, pa, j) :: segs[j].node < MAX_NODES
    ensures WholePageIndex(segs, pa, ps) ==
      if i < |segs| && segs[i].start <= pa
      then Some((segs[i].node, WholePages(segs[..i], segs[i].node, ps) + (pa - segs[i].start) / ps)) else None
  {
    forall j: nat | Reached(segs, pa, j)
      ensures segs[j].node < MAX_NODES
    {
      assert j <= i;
    }
    if i < |segs| && segs[i].start <= pa {
      WholePageIs(segs, pa, i, ps);
    }
  }

  lemma {:induction false} CountsStep(segs: seq<Segment>, ps: nat, i: nat)
    requires ps > 0 && i < |segs|
    ensures forall m | 0 <= m < MAX_NODES ::
      WholePages(segs[..i + 1], m, ps) == WholePages(segs[..i], m, ps) + (if segs[i].node == m then segs[i].Len() / ps else 0)
  {
    forall m | 0 <= m < MAX_NODES
      ensures WholePages(segs[..i + 1], m, ps)
           == WholePages(segs[..i], m, ps) + (if segs[i].node == m then segs[i].Len() / ps else 0)
    {
      PageCountStep(segs, m, ps, i);
    }
  }

  /** The node's segments below `i` end before `pa`, and those from `i` on start behind it. */
  lemma {:induction false} NotOnNode(segs: seq<Segment>, nid: int, pa: nat, i: nat)
    requires Ascending(segs) && i <= |segs| && (i < |segs| ==> pa < segs[i].start)
    requires forall j | 0 <= j < i :: segs[j].node != nid || segs[j].end < pa
    ensures !OnNode(segs, nid, pa)
  {
  }

  class RemoteMemory {
    var list: seq<Segment>
    var nrLocalNuma: nat

    ghost predicate Valid()
      reads this
    {
      Ascending(list) && forall i | 0 <= i < |list| :: list[i].node >= 0
    }

    constructor (nrLocal: nat)
      ensures Valid() && list == [] && nrLocalNuma == nrLocal
    {
      list, nrLocalNuma := [], nrLocal;
    }

    /** Replaces the list by a freshly walked one, merged first. */
    method RefreshRemoteRam(walked: seq<Segment>)
      requires Ascending(walked) && forall i | 0 <= i < |walked| :: walked[i].node >= 0
      modifies this
      ensures Valid() && nrLocalNuma == old(nrLocalNuma)
      ensures SameMap(walked, list) && list == MergeFrom(walked, 0)
      ensures forall ps: nat | ps > 0 :: SameIndex(walked, list, ps) <==> NeverGains(walked, 0, ps)
      ensures forall ps: nat | ps > 0 && PageMultiple(walked, ps) :: PageMultiple(list, ps)
      ensures forall i | 0 <= i < |list| - 1 :: !(list[i].node == list[i + 1].node && list[i].end + 1 == list[i + 1].start)
    {
      list := MergeRamSegments(walked);
    }

    /** Pages of a remote node; local nodes and other page sizes count nothing. */
    method GetNodePageCnt(nid: int, pageSize: nat) returns (cnt: int)
      requires Valid()
      ensures cnt == if nid >= nrLocalNuma && (pageSize == HUGE_PAGE || pageSize == PAGE_SIZE)
                     then PageCount(list, nid, pageSize) else 0
    {
      cnt := 0;
      if nid < nrLocalNuma {
        return;
      }
      for i := 0 to |list|
        invariant cnt == if pageSize == HUGE_PAGE || pageSize == PAGE_SIZE
                         then PageCount(list[..i], nid, pageSize) else 0
      {
        if pageSize > 0 {
          PageCountStep(list, nid, pageSize, i);
        }
        if list[i].node == nid {
          if pageSize == HUGE_PAGE {
            cnt := cnt + PageCeil(list[i].end - list[i].start + 1, HUGE_PAGE);
          } else if pageSize == PAGE_SIZE {
            cnt := cnt + PageCeil(list[i].end - list[i].start + 1, PAGE_SIZE);
          }
        }
      }
      assert list[..|list|] == list;
    }

    /** Full search with one running page count per node. */
    method CalcPaddrAcidx(pa: nat, ps: nat) returns (r: Option<(int, int)>)
      requires Valid() && ps > 0
      ensures r == if exists i: nat :: Reached(list, pa, i) && list[i].node >= MAX_NODES then None
                   else WholePageIndex(list, pa, ps)
    {
      var idx := seq(MAX_NODES, _ => 0);
      for i := 0 to |list|
        invariant |idx| == MAX_NODES
        invariant forall n | 0 <= n < MAX_NODES :: idx[n] == WholePages(list[..i], n, ps)
        invariant forall j | 0 <= j < i :: list[j].end < pa && list[j].node < MAX_NODES
      {
        if list[i].node >= MAX_NODES {
          assert Reached(list, pa, i);
          return None;
        }
        if pa < list[i].start {
          StopsAt(list, pa, i, ps);
          return None;
        }
        var n := list[i].node;
        if pa <= list[i].end {
          StopsAt(list, pa, i, ps);
          return Some((n, idx[n] + (pa - list[i].start) / ps));
        }
        CountsStep(list, ps, i);
        var pages := (list[i].end - list[i].start + 1) / ps;
        assert pages == list[i].Len() / ps;
        idx := idx[n := idx[n] + pages];
      }
      StopsAt(list, pa, |list|, ps);
      return None;
    }

    method CalcPaddrAcidxKnownNid(pa: nat, nid: int, ps: nat) returns (r: Option<int>)
      requires Valid() && ps > 0
      ensures r.Some? <==> OnNode(list, nid, pa)
      ensures r.Some? ==> WholePageIndex(list, pa, ps) == Some((nid, r.value))
    {
      var idx := 0;
      for i := 0 to |list|
        invariant idx == WholePages(list[..i], nid, ps)
        invariant forall j | 0 <= j < i :: list[j].node != nid || list[j].end < pa
      {
        PageCountStep(list, nid, ps, i);
        if list[i].node == nid {
          if pa < list[i].start {
            NotOnNode(list, nid, pa, i);
            return None;
          }
          if pa <= list[i].end {
            WholePageIs(list, pa, i, ps);
            return Some(idx + (pa - list[i].start) / ps);
          }
          idx := idx + (list[i].end - list[i].start + 1) / ps;
        }
      }
      NotOnNode(list, nid, pa, |list|);
      return None;
    }

    method CalcAcidxPaddr(nid: int, acidx: nat, ps: nat) returns (r: Option<int>)
      requires Valid() && ps > 0
      ensures r == PageAddr(list, nid, acidx, ps)
    {
      r := WalkToByte(list, nid, (acidx * ps) % U64);
    }
  }

  /** Joins touching segments of one node. */
  method MergeRamSegments(head: seq<Segment>) returns (r: seq<Segment>)
    requires Ascending(head) && forall i | 0 <= i < |head| :: head[i].node >= 0
    ensures Ascending(r) && forall i | 0 <= i < |r| :: r[i].node >= 0
    ensures SameMap(head, r)
    ensures forall ps: nat | ps > 0 && PageMultiple(head, ps) :: PageMultiple(r, ps)
    ensures forall i | 0 <= i < |r| - 1 :: !(r[i].node == r[i + 1].node && r[i].end + 1 == r[i + 1].start)
    ensures r == MergeFrom(head, 0)
    ensures forall ps: nat | ps > 0 :: SameIndex(head, r, ps) <==> NeverGains(head, 0, ps)
    ensures forall ps: nat | ps > 0 && PageMultiple(head, ps) :: SameIndex(head, r, ps)
  {
    forall ps: nat | ps > 0
      ensures SameIndex(head, MergeFrom(head, 0), ps) <==> NeverGains(head, 0, ps)
      ensures PageMultiple(head, ps) ==> NeverGains(head, 0, ps)
    {
      MergeAllKeepsIndexIff(head, 0, ps);
      if PageMultiple(head, ps) {
        WholePagesNeverGain(head, 0, ps);
      }
    }
    r := head;
    if |r| == 0 {
      return;
    }
    var cur := 0;
    while cur + 1 < |r|
      invariant Ascending(r) && forall i | 0 <= i < |r| :: r[i].node >= 0
      invariant 0 <= cur < |r|
      invariant SameMap(head, r) && MergeFrom(r, cur) == MergeFrom(head, 0)
      invariant forall ps: nat | ps > 0 && PageMultiple(head, ps) :: PageMultiple(r, ps)
      invariant forall i: nat | i < cur :: !Mergeable(r, i)
      decreases |r| - cur
    {
      if r[cur].node == r[cur + 1].node && r[cur].end + 1 == r[cur + 1].start {
        MergeStep(r, cur);
        MergeKeepsLeft(r, cur);
        forall ps: nat | ps > 0 && PageMultiple(head, ps) ensures PageMultiple(MergeAt(r, cur), ps) {
          MergeKeepsPages(r, cur, ps);
        }
        r := MergeAt(r, cur);
      } else {
        cur := cur + 1;
      }
    }
    forall i | 0 <= i < |r| - 1
      ensures !(r[i].node == r[i + 1].node && r[i].end + 1 == r[i + 1].start)
    {
      assert !Mergeable(r, i);
    }
  }
}
