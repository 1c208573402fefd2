/**
 The round trips of the translations that the drivers run: the local full search with its inverse, and the
 remote search with its inverse.  Per node, pages and indices are in bijection.
 */
module Translations {
  import opened Arith
  import opened Common
  import opened Segments
  import opened PageIndex
  import opened AcpiMem

  // ---------------------------------------------------------------- local memory

  /** Address, then index, then address: the page-aligned address. */
  lemma {:induction false} LocalForwardThenInverse(segs: seq<Segment>, pa: nat, ps: nat)
    requires ps > 0 && Ascending(segs) && Addressable(segs) && PageMultiple(segs, ps) && Grouped(segs)
    requires SegAt(segs, pa) >= 0
    ensures var (nid, k) := FullSearch(segs, pa, ps).value;
      0 <= k && PageAddr(segs, nid, k, ps) == Some(AlignDown(pa, ps))
  {
    FullSearchGrouped(segs, pa, ps);
    ForwardThenInverse(segs, pa, ps);
  }

  /** Index, then address, then index: the same node and index, whole pages or not. */
  lemma {:induction false} LocalInverseThenForward(segs: seq<Segment>, nid: int, k: nat, ps: nat)
    requires ps > 0 && Ascending(segs) && Addressable(segs) && RestartsFit(segs, ps) && k * ps < BytesOf(segs, nid)
    ensures var r := PageAddr(segs, nid, k, ps);
      r.Some? && r.value >= 0 && FullSearch(segs, r.value, ps) == Some((nid, k))
  {
    InverseThenForward(segs, nid, k, ps);
    SearchIsIndexIff(segs, ps);
    assert FullSearch(segs, PageAddr(segs, nid, k, ps).value, ps) == Index(segs, PageAddr(segs, nid, k, ps).value, ps);
  }

  /** What is short of a page boundary lies in an earlier page. */
  lemma {:induction false} ShortOfPage(k: nat, miss: nat, ps: nat)
    requires ps > 0
    ensures (k * ps - miss) / ps == k <==> miss == 0
  {
    MulMod(k, ps);
    if miss > 0 {
      DivBounds(k * ps - miss, ps);
      if (k * ps - miss) / ps >= k {
        MulMono(k, (k * ps - miss) / ps, ps);
      }
    }
  }

  /** The first byte of page `k`: its place in the list, and its number. */
  lemma {:induction false} FirstByte(segs: seq<Segment>, nid: int, k: nat, ps: nat)
    requires ps > 0 && Ascending(segs) && Addressable(segs) && k * ps < BytesOf(segs, nid)
    ensures var r := PageAddr(segs, nid, k, ps);
      && r.Some? && r.value >= 0 && OnNode(segs, nid, r.value)
      && var j := SegAt(segs, r.value);
         BytesOf(segs[..j], nid) + r.value - segs[j].start == k * ps
  {
    BytesFit(segs, nid);
    PageAddrAt(segs, nid, k, ps, k * ps);
    OffsetRoundTrip(segs, nid, k * ps);
  }

  /** For any lengths: exactly when the restart before the page's first byte leaves out nothing. */
  lemma {:induction false} LocalRoundTripIff(segs: seq<Segment>, nid: int, k: nat, ps: nat)
    requires ps > 0 && Ascending(segs) && Addressable(segs) && k * ps < BytesOf(segs, nid)
    ensures var r := PageAddr(segs, nid, k, ps);
      && r.Some? && r.value >= 0 && SegAt(segs, r.value) >= 0
      && (FullSearch(segs, r.value, ps) == Some((nid, k)) <==> Missing(segs, SegAt(segs, r.value)) == 0)
  {
    FirstByte(segs, nid, k, ps);
    var j := SegAt(segs, PageAddr(segs, nid, k, ps).value);
    RunWithinNode(segs, j);
    ShortOfPage(k, Missing(segs, j), ps);
  }

  /** Equal indices mean the same page. */
  lemma {:induction false} LocalInjective(segs: seq<Segment>, pa: nat, pb: nat, ps: nat)
    requires ps > 0 && Ascending(segs) && Addressable(segs) && PageMultiple(segs, ps) && Grouped(segs)
    requires SegAt(segs, pa) >= 0 && SegAt(segs, pb) >= 0
    ensures FullSearch(segs, pa, ps) == FullSearch(segs, pb, ps) <==> AlignDown(pa, ps) == AlignDown(pb, ps)
  {
    FullSearchGrouped(segs, pa, ps);
    FullSearchGrouped(segs, pb, ps);
    IndexInjective(segs, pa, pb, ps);
  }

  /** Some address of the node has index `k`. */
  ghost predicate LocalHit(segs: seq<Segment>, nid: int, k: int, ps: nat)
    requires ps > 0
  {
    exists pa: nat :: FullSearch(segs, pa, ps) == Some((nid, k))
  }

  /** The indices of a node are exactly [0, page count). */
  lemma {:induction false} LocalRange(segs: seq<Segment>, nid: int, k: int, ps: nat)
    requires ps > 0 && Ascending(segs) && Addressable(segs) && PageMultiple(segs, ps) && Grouped(segs)
    ensures LocalHit(segs, nid, k, ps) <==> 0 <= k < PageCount(segs, nid, ps)
  {
    if LocalHit(segs, nid, k, ps) {
      var pa: nat :| FullSearch(segs, pa, ps) == Some((nid, k));
      FullSearchBound(segs, pa, ps);
    }
    if 0 <= k < PageCount(segs, nid, ps) {
      IndexRange(segs, nid, k, ps);
      RestartsFitIffGrouped(segs, ps);
      LocalInverseThenForward(segs, nid, k, ps);
      var a: nat := PageAddr(segs, nid, k, ps).value;
      assert FullSearch(segs, a, ps) == Some((nid, k));
    }
  }

  /** With whole pages the round trip gives every address its page exactly when the list is grouped. */
  lemma {:induction false} LocalForwardIffGrouped(segs: seq<Segment>, ps: nat)
    requires ps > 0 && Ascending(segs) && Addressable(segs) && PageMultiple(segs, ps)
    ensures (forall pa: nat | SegAt(segs, pa) >= 0 :: ComesBack(segs, pa, ps)) <==> Grouped(segs)
  {
    if Grouped(segs) {
      forall pa: nat | SegAt(segs, pa) >= 0
        ensures ComesBack(segs, pa, ps)
      {
        LocalForwardThenInverse(segs, pa, ps);
      }
    }
    if forall pa: nat | SegAt(segs, pa) >= 0 :: ComesBack(segs, pa, ps) {
      forall pa: nat
        ensures FullSearch(segs, pa, ps) == Index(segs, pa, ps)
      {
        if SegAt(segs, pa) >= 0 {
          ComesBackIsIndex(segs, pa, ps);
        }
      }
      FullSearchAgreesIffGrouped(segs, ps);
    }
  }

  /** The full search and its inverse lead from the address to its page. */
  predicate ComesBack(segs: seq<Segment>, pa: nat, ps: nat)
    requires ps > 0 && SegAt(segs, pa) >= 0
  {
    var (nid, k) := FullSearch(segs, pa, ps).value;
    PageAddr(segs, nid, k, ps) == Some(AlignDown(pa, ps))
  }

  lemma {:induction false} ComesBackIsIndex(segs: seq<Segment>, pa: nat, ps: nat)
    requires ps > 0 && Ascending(segs) && Addressable(segs) && PageMultiple(segs, ps)
    requires SegAt(segs, pa) >= 0 && ComesBack(segs, pa, ps)
    ensures FullSearch(segs, pa, ps) == Index(segs, pa, ps)
  {
    var (nid, k) := FullSearch(segs, pa, ps).value;
    FullSearchBound(segs, pa, ps);
    IndexRange(segs, nid, k, ps);
    InverseThenForward(segs, nid, k, ps);
    AlignedSameIndex(segs, pa, ps);
  }

  /** Distinct pages have distinct results of the full search. */
  ghost predicate TellsPagesApart(segs: seq<Segment>, ps: nat)
    requires ps > 0
  {
    forall pa: nat, pb: nat | SegAt(segs, pa) >= 0 && SegAt(segs, pb) >= 0 ::
      FullSearch(segs, pa, ps) == FullSearch(segs, pb, ps) ==> AlignDown(pa, ps) == AlignDown(pb, ps)
  }

  /** With whole pages they have exactly when the list is grouped. */
  lemma {:induction false} LocalInjectiveIffGrouped(segs: seq<Segment>, ps: nat)
    requires ps > 0 && Ascending(segs) && Addressable(segs) && PageMultiple(segs, ps)
    ensures TellsPagesApart(segs, ps) <==> Grouped(segs)
  {
    if Grouped(segs) {
      forall pa: nat, pb: nat | SegAt(segs, pa) >= 0 && SegAt(segs, pb) >= 0
        ensures FullSearch(segs, pa, ps) == FullSearch(segs, pb, ps) ==> AlignDown(pa, ps) == AlignDown(pb, ps)
      {
        LocalInjective(segs, pa, pb, ps);
      }
    } else {
      RestartsFitIffGrouped(segs, ps);
      var k: nat :| k < |segs| && !RestartFits(segs, k, ps);
      var j := FirstMissing(segs, k);
      SharedIndex(segs, j, ps);
    }
  }

  /** The first segment before which the restart leaves something out. */
  lemma {:induction false} FirstMissing(segs: seq<Segment>, k: nat) returns (j: nat)
    requires k < |segs| && Missing(segs, k) != 0
    ensures j < |segs| && Missing(segs, j) != 0 && forall i: nat | i < j :: Missing(segs, i) == 0
    decreases k
  {
    if i: nat :| i < k && Missing(segs, i) != 0 {
      j := FirstMissing(segs, i);
    } else {
      j := k;
    }
  }

  /** Its first page shares an index with an earlier page of the node. */
  lemma {:induction false} SharedIndex(segs: seq<Segment>, j: nat, ps: nat)
    requires ps > 0 && Ascending(segs) && Addressable(segs) && PageMultiple(segs, ps)
    requires j < |segs| && Missing(segs, j) != 0 && forall i: nat | i < j :: Missing(segs, i) == 0
    ensures !TellsPagesApart(segs, ps)
  {
    var nid, pa, k := segs[j].node, segs[j].start, RunOff(segs, j) / ps;
    RunWithinNode(segs, j);
    SegAtUnique(segs, pa, j);
    RunMultiple(segs, j, ps);
    MultipleIs(RunOff(segs, j), ps);
    DivMono(0, RunOff(segs, j), ps);
    assert FullSearch(segs, pa, ps) == Some((nid, k));
    BytesMono(segs, nid, j, |segs|);
    assert segs[..|segs|] == segs;
    FirstByte(segs, nid, k, ps);
    var pb: nat := PageAddr(segs, nid, k, ps).value;
    var i := SegAt(segs, pb);
    EarlierSegment(segs, nid, i, j, k * ps);
    LocalRoundTripIff(segs, nid, k, ps);
    assert FullSearch(segs, pb, ps) == FullSearch(segs, pa, ps);
    PageStartsApart(segs, i, j, pa, pb, ps);
  }

  lemma {:induction false} RunMultiple(segs: seq<Segment>, j: nat, ps: nat)
    requires ps > 0 && PageMultiple(segs, ps) && j < |segs|
    ensures RunOff(segs, j) % ps == 0
  {
    if j > 0 && segs[j - 1].node == segs[j].node {
      RunMultiple(segs, j - 1, ps);
      AddMultiples(RunOff(segs, j - 1), segs[j - 1].Len(), ps);
    } else {
      MulMod(0, ps);
    }
  }

  /** A byte whose number is below those of segment `j` lies before it. */
  lemma {:induction false} EarlierSegment(segs: seq<Segment>, nid: int, i: nat, j: nat, off: int)
    requires Ascending(segs) && i < |segs| && j < |segs| && BytesOf(segs[..i], nid) <= off < BytesOf(segs[..j], nid)
    ensures i < j
  {
    if j <= i {
      BytesMono(segs, nid, j, i);
    }
  }

  lemma {:induction false} PageStartsApart(segs: seq<Segment>, i: nat, j: nat, pa: nat, pb: nat, ps: nat)
    requires ps > 0 && Ascending(segs) && PageMultiple(segs, ps) && i < j < |segs|
    requires pa == segs[j].start && segs[i].Covers(pb)
    ensures AlignDown(pa, ps) != AlignDown(pb, ps)
  {
    MultipleIs(pa, ps);
  }

  /** On an ungrouped list two pages of a node can share an index. */
  lemma UngroupedNotInjective()
    ensures var segs := [Segment(0, 0, 4095), Segment(1, 4096, 8191), Segment(0, 8192, 12287)];
      && Ascending(segs) && PageMultiple(segs, 4096) && !Grouped(segs)
      && FullSearch(segs, 0, 4096) == FullSearch(segs, 8192, 4096) == Some((0, 0))
  {
    var segs := [Segment(0, 0, 4095), Segment(1, 4096, 8191), Segment(0, 8192, 12287)];
    assert segs[0].node == segs[2].node != segs[1].node;
    SegAtUnique(segs, 0, 0);
    SegAtUnique(segs, 8192, 2);
  }

  // ---------------------------------------------------------------- remote memory

  /** Address, then index, then address: the page-aligned address. */
  lemma {:induction false} RemoteForwardThenInverse(segs: seq<Segment>, pa: nat, ps: nat)
    requires ps > 0 && Ascending(segs) && Addressable(segs) && PageMultiple(segs, ps) && SegAt(segs, pa) >= 0
    ensures var (nid, k) := WholePageIndex(segs, pa, ps).value;
      0 <= k && PageAddr(segs, nid, k, ps) == Some(AlignDown(pa, ps))
  {
    TranslatorsAgree(segs, pa, ps);
    ForwardThenInverse(segs, pa, ps);
  }

  /** Index, then address, then index: the same, when no odd bytes make themselves felt. */
  lemma {:induction false} RemoteInverseThenForward(segs: seq<Segment>, nid: int, k: nat, ps: nat)
    requires ps > 0 && Ascending(segs) && Addressable(segs) && k * ps < BytesOf(segs, nid)
    requires forall j: nat | j < |segs| :: OddBytesFit(segs, j, ps)
    ensures var r := PageAddr(segs, nid, k, ps);
      r.Some? && r.value >= 0 && WholePageIndex(segs, r.value, ps) == Some((nid, k))
  {
    InverseThenForward(segs, nid, k, ps);
    TranslatorsAgreeIff(segs, ps);
    assert WholePageIndex(segs, PageAddr(segs, nid, k, ps).value, ps) == Index(segs, PageAddr(segs, nid, k, ps).value, ps);
  }

  /** For any lengths: exactly when rounding has left out nothing before the page's first byte. */
  lemma {:induction false} RemoteRoundTripIff(segs: seq<Segment>, nid: int, k: nat, ps: nat)
    requires ps > 0 && Ascending(segs) && Addressable(segs) && k * ps < BytesOf(segs, nid)
    ensures var r := PageAddr(segs, nid, k, ps);
      && r.Some? && r.value >= 0 && SegAt(segs, r.value) >= 0
      && (WholePageIndex(segs, r.value, ps) == Some((nid, k)) <==> Dropped(segs, SegAt(segs, r.value), ps) == 0)
  {
    FirstByte(segs, nid, k, ps);
    var a := PageAddr(segs, nid, k, ps).value;
    var j := SegAt(segs, a);
    DroppedNonneg(segs[..j], nid, ps);
    DivAddMul(WholePages(segs[..j], nid, ps), a - segs[j].start, ps);
    ShortOfPage(k, Dropped(segs, j, ps), ps);
  }

  /** With whole pages no odd bytes are left out. */
  lemma {:induction false} WholePagesFit(segs: seq<Segment>, j: nat, ps: nat)
    requires ps > 0 && PageMultiple(segs, ps) && j < |segs|
    ensures OddBytesFit(segs, j, ps)
  {
    BytesMultiple(segs[..j], segs[j].node, ps);
    MultipleIs(BytesOf(segs[..j], segs[j].node), ps);
  }

  /** Equal indices mean the same page. */
  lemma {:induction false} RemoteInjective(segs: seq<Segment>, pa: nat, pb: nat, ps: nat)
    requires ps > 0 && Ascending(segs) && Addressable(segs) && PageMultiple(segs, ps)
    requires SegAt(segs, pa) >= 0 && SegAt(segs, pb) >= 0
    ensures WholePageIndex(segs, pa, ps) == WholePageIndex(segs, pb, ps) <==> AlignDown(pa, ps) == AlignDown(pb, ps)
  {
    TranslatorsAgree(segs, pa, ps);
    TranslatorsAgree(segs, pb, ps);
    IndexInjective(segs, pa, pb, ps);
  }

  /** Some address of the node has index `k`. */
  ghost predicate RemoteHit(segs: seq<Segment>, nid: int, k: int, ps: nat)
    requires ps > 0
  {
    exists pa: nat :: WholePageIndex(segs, pa, ps) == Some((nid, k))
  }

  /** The indices of a node are exactly [0, page count). */
  lemma {:induction false} RemoteRange(segs: seq<Segment>, nid: int, k: int, ps: nat)
    requires ps > 0 && Ascending(segs) && Addressable(segs) && PageMultiple(segs, ps)
    ensures RemoteHit(segs, nid, k, ps) <==> 0 <= k < PageCount(segs, nid, ps)
  {
    if RemoteHit(segs, nid, k, ps) {
      var pa: nat :| WholePageIndex(segs, pa, ps) == Some((nid, k));
      WholePageIndexBound(segs, pa, ps);
    }
    if 0 <= k < PageCount(segs, nid, ps) {
      IndexRange(segs, nid, k, ps);
      forall j: nat | j < |segs|
        ensures OddBytesFit(segs, j, ps)
      {
        WholePagesFit(segs, j, ps);
      }
      RemoteInverseThenForward(segs, nid, k, ps);
      var a: nat := PageAddr(segs, nid, k, ps).value;
      assert WholePageIndex(segs, a, ps) == Some((nid, k));
    }
  }

  /** With odd bytes the inverse of an index can have another index. */
  lemma OddBytesBreakRoundTrip()
    ensures var segs := [Segment(1, 0, 6143), Segment(1, 8192, 14335)];
      && Ascending(segs) && PageAddr(segs, 1, 2, 4096) == Some(10240)
      && WholePageIndex(segs, 10240, 4096) == Some((1, 1))
  {
    var segs := [Segment(1, 0, 6143), Segment(1, 8192, 14335)];
    assert segs[..1] == [segs[0]];
    BytesStep(segs, 1, 0);
    ByteAtIn(segs, 1, 8192, 1);
    SegAtUnique(segs, 10240, 1);
    PageCountStep(segs, 1, 4096, 0);
  }
}
