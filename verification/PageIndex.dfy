/**
 Page indices of a segment list.  The ACPI translator divides the byte number by the page size, the
 iomem translator adds up whole pages segment by segment; the two agree when segments hold whole pages.
 */
module PageIndex {
  import opened Arith
  import opened Common
  import opened Segments

  /** calc_huge_count and calc_normal_count: pages that a range touches. */
  function PageCeil(range: int, ps: nat): int
    requires ps > 0
  {
    if range % ps == 0 then range / ps else range / ps + 1
  }

  /** The least number of pages that hold the range. */
  lemma PageCeilLeast(range: int, ps: nat, k: int)
    requires ps > 0
    ensures range <= k * ps <==> PageCeil(range, ps) <= k
  {
    DivBounds(range, ps);
    var q := range / ps;
    if k > q {
      MulMono(q + 1, k, ps);
      MulAdd(q, 1, ps);
    } else {
      MulMono(k, q, ps);
      if k < q {
        MulMono(k + 1, q, ps);
        MulAdd(k, 1, ps);
      }
    }
  }

  /** Pages of node `nid`, each segment rounded up. */
  function PageCount(segs: seq<Segment>, nid: int, ps: nat): int
    requires ps > 0
  {
    if |segs| == 0 then 0
    else
      var last := segs[|segs| - 1];
      PageCount(segs[..|segs| - 1], nid, ps) + (if last.node == nid then PageCeil(last.Len(), ps) else 0)
  }

  /** Pages of node `nid`, each segment rounded down. */
  function WholePages(segs: seq<Segment>, nid: int, ps: nat): int
    requires ps > 0
  {
    if |segs| == 0 then 0
    else
      var last := segs[|segs| - 1];
      WholePages(segs[..|segs| - 1], nid, ps) + (if last.node == nid then last.Len() / ps else 0)
  }

  /** Node and page index of `pa`: its byte number divided by the page size. */
  function Index(segs: seq<Segment>, pa: nat, ps: nat): Option<(int, int)>
    requires ps > 0
  {
    var l := Locate(segs, pa);
    if l.Some? then Some((l.value.0, l.value.1 / ps)) else None
  }

  /** Node and page index of `pa`, counting whole pages of the segments before it. */
  function WholePageIndex(segs: seq<Segment>, pa: nat, ps: nat): Option<(int, int)>
    requires ps > 0
  {
    var j := SegAt(segs, pa);
    if j >= 0 then Some((segs[j].node, WholePages(segs[..j], segs[j].node, ps) + (pa - segs[j].start) / ps))
    else None
  }

  lemma WholePageIs(segs: seq<Segment>, pa: nat, j: nat, ps: nat)
    requires ps > 0 && Ascending(segs) && j < |segs| && segs[j].Covers(pa)
    ensures WholePageIndex(segs, pa, ps)
         == Some((segs[j].node, WholePages(segs[..j], segs[j].node, ps) + (pa - segs[j].start) / ps))
    ensures OnNode(segs, segs[j].node, pa)
  {
    SegAtUnique(segs, pa, j);
  }

  /** Address of page `k` of node `nid`; the byte number is a 64-bit left shift. */
  function PageAddr(segs: seq<Segment>, nid: int, k: int, ps: nat): Option<int>
    requires ps > 0
  {
    ByteAt(segs, nid, (k * ps) % U64)
  }

  /** A shift that does not overflow is the byte number itself. */
  lemma PageAddrAt(segs: seq<Segment>, nid: int, k: int, ps: nat, off: int)
    requires ps > 0 && k * ps == off && 0 <= off < U64
    ensures PageAddr(segs, nid, k, ps) == ByteAt(segs, nid, off)
  {
  }

  /** Physical addresses fit a 64-bit word. */
  ghost predicate Addressable(segs: seq<Segment>) {
    forall i | 0 <= i < |segs| :: segs[i].end < U64
  }

  lemma BytesFit(segs: seq<Segment>, nid: int)
    requires Ascending(segs) && Addressable(segs)
    ensures 0 <= BytesOf(segs, nid) <= U64
  {
    BytesNonneg(segs, nid);
    BytesBound(segs, nid);
  }

  // ---------------------------------------------------------------- round trips

  lemma BytesMultiple(segs: seq<Segment>, nid: int, ps: nat)
    requires ps > 0 && PageMultiple(segs, ps)
    ensures BytesOf(segs, nid) % ps == 0
    ensures BytesOf(segs, nid) / ps == WholePages(segs, nid, ps) == PageCount(segs, nid, ps)
  {
    if |segs| > 0 {
      var front := segs[..|segs| - 1];
      BytesMultiple(front, nid, ps);
      AddMultiples(BytesOf(front, nid), segs[|segs| - 1].Len(), ps);
    }
  }

  /** The byte `o` places after the start of the segment that covers `pa`. */
  lemma {:induction false} ByteBelow(segs: seq<Segment>, pa: nat, o: nat)
    requires Ascending(segs) && Addressable(segs) && SegAt(segs, pa) >= 0
    requires o <= pa - segs[SegAt(segs, pa)].start
    ensures var j := SegAt(segs, pa);
      var off := BytesOf(segs[..j], segs[j].node) + o;
      0 <= off < U64 && ByteAt(segs, segs[j].node, off) == Some(segs[j].start + o)
  {
    var j := SegAt(segs, pa);
    AscendingPrefix(segs, j);
    BytesNonneg(segs[..j], segs[j].node);
    ByteAtIn(segs, segs[j].node, BytesOf(segs[..j], segs[j].node) + o, j);
    ByteRoundTrip(segs, pa);
    BytesFit(segs, segs[j].node);
  }

  /** With whole pages, rounding the byte number and rounding the address drop the same bytes. */
  lemma {:induction false} RoundTogether(segs: seq<Segment>, pa: nat, ps: nat)
    requires ps > 0 && Ascending(segs) && PageMultiple(segs, ps) && SegAt(segs, pa) >= 0
    ensures var j := SegAt(segs, pa);
      var o := AlignDown(pa - segs[j].start, ps);
      && 0 <= ByteOff(segs, pa) / ps
      && (ByteOff(segs, pa) / ps) * ps == BytesOf(segs[..j], segs[j].node) + o
      && AlignDown(pa, ps) == segs[j].start + o
  {
    var j := SegAt(segs, pa);
    var base, x := BytesOf(segs[..j], segs[j].node), pa - segs[j].start;
    BytesMultiple(segs[..j], segs[j].node, ps);
    AlignSplit(base, x, ps);
    AlignSplit(segs[j].start, x, ps);
    AscendingPrefix(segs, j);
    BytesNonneg(segs[..j], segs[j].node);
    DivMono(0, base + x, ps);
  }

  /** Address, then index, then address: the page-aligned address. */
  lemma {:induction false} ForwardThenInverse(segs: seq<Segment>, pa: nat, ps: nat)
    requires ps > 0 && Ascending(segs) && Addressable(segs) && PageMultiple(segs, ps)
    requires SegAt(segs, pa) >= 0
    ensures var (nid, k) := Index(segs, pa, ps).value;
      0 <= k && PageAddr(segs, nid, k, ps) == Some(AlignDown(pa, ps))
  {
    var j := SegAt(segs, pa);
    var o := AlignDown(pa - segs[j].start, ps);
    RoundTogether(segs, pa, ps);
    ByteBelow(segs, pa, o);
    PageAddrAt(segs, segs[j].node, ByteOff(segs, pa) / ps, ps, BytesOf(segs[..j], segs[j].node) + o);
  }

  /** Index, then address, then index: the same index.  Segments need not hold whole pages. */
  lemma {:induction false} InverseThenForward(segs: seq<Segment>, nid: int, k: nat, ps: nat)
    requires ps > 0 && Ascending(segs) && Addressable(segs) && k * ps < BytesOf(segs, nid)
    ensures var r := PageAddr(segs, nid, k, ps);
      r.Some? && r.value >= 0 && Index(segs, r.value, ps) == Some((nid, k))
  {
    BytesFit(segs, nid);
    assert (k * ps) % U64 == k * ps;
    OffsetRoundTrip(segs, nid, k * ps);
    MulMod(k, ps);
  }

  /** With whole pages the valid indices of a node are exactly [0, PageCount). */
  lemma IndexRange(segs: seq<Segment>, nid: int, k: nat, ps: nat)
    requires ps > 0 && Ascending(segs) && PageMultiple(segs, ps)
    ensures k < PageCount(segs, nid, ps) <==> k * ps < BytesOf(segs, nid)
  {
    BytesMultiple(segs, nid, ps);
    MultipleIs(BytesOf(segs, nid), ps);
    var c := PageCount(segs, nid, ps);
    if k < c {
      MulMono(k + 1, c, ps);
    } else {
      MulMono(c, k, ps);
    }
  }

  /** Distinct pages of a node have distinct indices: equal indices mean the same aligned address. */
  lemma {:induction false} IndexInjective(segs: seq<Segment>, pa: nat, pb: nat, ps: nat)
    requires ps > 0 && Ascending(segs) && Addressable(segs) && PageMultiple(segs, ps)
    requires SegAt(segs, pa) >= 0 && SegAt(segs, pb) >= 0
    ensures Index(segs, pa, ps) == Index(segs, pb, ps) <==>
      AlignDown(pa, ps) == AlignDown(pb, ps)
  {
    ForwardThenInverse(segs, pa, ps);
    ForwardThenInverse(segs, pb, ps);
    AlignedSameIndex(segs, pa, ps);
    AlignedSameIndex(segs, pb, ps);
  }

  lemma {:induction false} AlignedSameIndex(segs: seq<Segment>, pa: nat, ps: nat)
    requires ps > 0 && Ascending(segs) && Addressable(segs) && PageMultiple(segs, ps)
    requires SegAt(segs, pa) >= 0
    ensures SegAt(segs, AlignDown(pa, ps)) >= 0
    ensures Index(segs, AlignDown(pa, ps), ps) == Index(segs, pa, ps)
  {
    ForwardThenInverse(segs, pa, ps);
    var (nid, k) := Index(segs, pa, ps).value;
    ByteRoundTrip(segs, pa);
    DivBounds(ByteOff(segs, pa), ps);
    InverseThenForward(segs, nid, k, ps);
  }

  // ---------------------------------------------------------------- bounds without whole pages

  lemma PageCeilBound(x: int, len: int, ps: nat)
    requires ps > 0 && 0 <= x < len
    ensures 0 <= x / ps < PageCeil(len, ps)
  {
    DivMono(x, len - 1, ps);
    DivBounds(len, ps);
    DivUnique(len - 1, ps, PageCeil(len, ps) - 1);
  }

  lemma PageCeilCovers(len: int, ps: nat)
    requires ps > 0 && len >= 0
    ensures len <= PageCeil(len, ps) * ps
    ensures 0 <= len / ps <= PageCeil(len, ps)
  {
    DivBounds(len, ps);
    DivMono(0, len, ps);
    MulAdd(len / ps, 1, ps);
  }

  /** The byte count never exceeds the rounded-up pages. */
  lemma {:induction false} BytesWithinPages(segs: seq<Segment>, nid: int, ps: nat)
    requires ps > 0 && Ascending(segs)
    ensures BytesOf(segs, nid) <= PageCount(segs, nid, ps) * ps
    ensures 0 <= WholePages(segs, nid, ps) <= PageCount(segs, nid, ps)
  {
    if |segs| > 0 {
      var n := |segs| - 1;
      AscendingPrefix(segs, n);
      BytesWithinPages(segs[..n], nid, ps);
      PageCeilCovers(segs[n].Len(), ps);
      MulAdd(PageCount(segs[..n], nid, ps), PageCeil(segs[n].Len(), ps), ps);
    }
  }

  /** Every index the ACPI translator yields is below the node's rounded-up page count. */
  lemma {:induction false} IndexBound(segs: seq<Segment>, pa: nat, ps: nat)
    requires ps > 0 && Ascending(segs) && SegAt(segs, pa) >= 0
    ensures var (nid, k) := Index(segs, pa, ps).value;
      0 <= k < PageCount(segs, nid, ps)
  {
    ByteRoundTrip(segs, pa);
    var (nid, k) := Index(segs, pa, ps).value;
    BytesWithinPages(segs, nid, ps);
    DivBounds(ByteOff(segs, pa), ps);
    DivMono(0, ByteOff(segs, pa), ps);
    if k >= PageCount(segs, nid, ps) {
      MulMono(PageCount(segs, nid, ps), k, ps);
      assert false;
    }
  }

  lemma PageCountStep(segs: seq<Segment>, nid: int, ps: nat, k: nat)
    requires ps > 0 && k < |segs|
    ensures PageCount(segs[..k + 1], nid, ps)
         == PageCount(segs[..k], nid, ps) + (if segs[k].node == nid then PageCeil(segs[k].Len(), ps) else 0)
    ensures WholePages(segs[..k + 1], nid, ps)
         == WholePages(segs[..k], nid, ps) + (if segs[k].node == nid then segs[k].Len() / ps else 0)
  {
    assert segs[..k + 1][..k] == segs[..k];
  }

  lemma {:induction false} PageCountMono(segs: seq<Segment>, nid: int, ps: nat, k: nat)
    requires ps > 0 && Ascending(segs) && k <= |segs|
    ensures PageCount(segs[..k], nid, ps) <= PageCount(segs, nid, ps)
    decreases |segs| - k
  {
    if k < |segs| {
      PageCountStep(segs, nid, ps, k);
      DivMono(0, segs[k].Len(), ps);
      PageCountMono(segs, nid, ps, k + 1);
    } else {
      assert segs[..k] == segs;
    }
  }

  /** The same bound for the iomem translator. */
  lemma {:induction false} WholePageIndexBound(segs: seq<Segment>, pa: nat, ps: nat)
    requires ps > 0 && Ascending(segs) && SegAt(segs, pa) >= 0
    ensures var (nid, k) := WholePageIndex(segs, pa, ps).value;
      0 <= k < PageCount(segs, nid, ps)
  {
    var j := SegAt(segs, pa);
    var nid := segs[j].node;
    AscendingPrefix(segs, j);
    BytesWithinPages(segs[..j], nid, ps);
    PageCeilBound(pa - segs[j].start, segs[j].Len(), ps);
    PageCountStep(segs, nid, ps, j);
    PageCountMono(segs, nid, ps, j + 1);
  }

  // ---------------------------------------------------------------- the two translators agree

  /** With whole pages both translators give the same index. */
  lemma {:induction false} TranslatorsAgree(segs: seq<Segment>, pa: nat, ps: nat)
    requires ps > 0 && PageMultiple(segs, ps)
    ensures WholePageIndex(segs, pa, ps) == Index(segs, pa, ps)
  {
    var j := SegAt(segs, pa);
    if j >= 0 {
      assert PageMultiple(segs[..j], ps);
      WholeIsDivided(segs[..j], segs[j].node, pa - segs[j].start, ps);
    }
  }

  lemma {:induction false} WholeIsDivided(front: seq<Segment>, nid: int, x: int, ps: nat)
    requires ps > 0 && PageMultiple(front, ps)
    ensures WholePages(front, nid, ps) + x / ps == (BytesOf(front, nid) + x) / ps
  {
    BytesMultiple(front, nid, ps);
    DivSplit(BytesOf(front, nid), x, ps);
  }

  // ---------------------------------------------------------------- two offsets in step

  /** `r` and `r + miss`, both moved on by `x`, lie in one page. */
  predicate StayTogether(r: int, miss: int, x: int, ps: nat)
    requires ps > 0
  {
    (r + x) / ps == (r + miss + x) / ps
  }

  lemma {:induction false} TogetherIff(r: nat, miss: nat, len: nat, ps: nat)
    requires ps > 0 && len > 0
    ensures (forall x: nat | x < len :: StayTogether(r, miss, x, ps)) <==> miss == 0 || r % ps + len + miss <= ps
  {
    var q, m := r / ps, r % ps;
    DivBounds(r, ps);
    if miss > 0 && m + len + miss <= ps {
      forall x: nat | x < len
        ensures StayTogether(r, miss, x, ps)
      {
        DivUnique(r + x, ps, q);
        DivUnique(r + miss + x, ps, q);
      }
    }
    if miss > 0 && m + len + miss > ps {
      Straddles(r, miss, len, ps);
    }
  }

  /** Otherwise some step has a page boundary between the two. */
  lemma {:induction false} Straddles(r: nat, miss: nat, len: nat, ps: nat)
    requires ps > 0 && len > 0 && miss > 0 && r % ps + len + miss > ps
    ensures exists x: nat :: x < len && !StayTogether(r, miss, x, ps)
  {
    var q, m := r / ps, r % ps;
    DivBounds(r, ps);
    var x: nat := if m + miss >= ps then 0 else ps - miss - m;
    DivUnique(r + x, ps, q);
    MulAdd(q, 1, ps);
    MulMod(q + 1, ps);
    DivMono((q + 1) * ps, r + miss + x, ps);
    assert !StayTogether(r, miss, x, ps);
  }

  // ---------------------------------------------------------------- the two translators without whole pages

  /** Odd bytes of segment `j`'s node that rounding every earlier segment down has left out. */
  function Dropped(segs: seq<Segment>, j: nat, ps: nat): int
    requires j < |segs| && ps > 0
  {
    BytesOf(segs[..j], segs[j].node) - WholePages(segs[..j], segs[j].node, ps) * ps
  }

  /** No odd bytes, or the segment fits behind them into one page. */
  predicate OddBytesFit(segs: seq<Segment>, j: nat, ps: nat)
    requires j < |segs| && ps > 0
  {
    Dropped(segs, j, ps) == 0 || segs[j].Len() + Dropped(segs, j, ps) <= ps
  }

  lemma {:induction false} DroppedNonneg(segs: seq<Segment>, nid: int, ps: nat)
    requires ps > 0
    ensures WholePages(segs, nid, ps) * ps <= BytesOf(segs, nid)
    decreases |segs|
  {
    if |segs| > 0 {
      var front, last := segs[..|segs| - 1], segs[|segs| - 1];
      DroppedNonneg(front, nid, ps);
      DivBounds(last.Len(), ps);
      MulAdd(WholePages(front, nid, ps), last.Len() / ps, ps);
    }
  }

  lemma {:induction false} BothIndicesAt(segs: seq<Segment>, j: nat, x: nat, ps: nat)
    requires ps > 0 && Ascending(segs) && j < |segs| && x < segs[j].Len()
    ensures WholePageIndex(segs, segs[j].start + x, ps) == Index(segs, segs[j].start + x, ps) <==>
      StayTogether(WholePages(segs[..j], segs[j].node, ps) * ps, Dropped(segs, j, ps), x, ps)
  {
    SegAtUnique(segs, segs[j].start + x, j);
    DivAddMul(WholePages(segs[..j], segs[j].node, ps), x, ps);
  }

  lemma {:induction false} OddBytesFitIff(segs: seq<Segment>, j: nat, ps: nat)
    requires ps > 0 && Ascending(segs) && j < |segs|
    ensures OddBytesFit(segs, j, ps) <==> forall x: nat | x < segs[j].Len() ::
      StayTogether(WholePages(segs[..j], segs[j].node, ps) * ps, Dropped(segs, j, ps), x, ps)
  {
    var wp := WholePages(segs[..j], segs[j].node, ps);
    AscendingPrefix(segs, j);
    BytesWithinPages(segs[..j], segs[j].node, ps);
    DroppedNonneg(segs[..j], segs[j].node, ps);
    MulMono(0, wp, ps);
    MulMod(wp, ps);
    TogetherIff(wp * ps, Dropped(segs, j, ps), segs[j].Len(), ps);
  }

  /** Both translators give every address the same index exactly when no odd bytes can make themselves felt. */
  lemma {:induction false} TranslatorsAgreeIff(segs: seq<Segment>, ps: nat)
    requires ps > 0 && Ascending(segs)
    ensures (forall pa: nat :: WholePageIndex(segs, pa, ps) == Index(segs, pa, ps)) <==>
      forall j: nat | j < |segs| :: OddBytesFit(segs, j, ps)
  {
    if forall pa: nat :: WholePageIndex(segs, pa, ps) == Index(segs, pa, ps) {
      forall j: nat | j < |segs|
        ensures OddBytesFit(segs, j, ps)
      {
        forall x: nat | x < segs[j].Len()
          ensures StayTogether(WholePages(segs[..j], segs[j].node, ps) * ps, Dropped(segs, j, ps), x, ps)
        {
          BothIndicesAt(segs, j, x, ps);
        }
        OddBytesFitIff(segs, j, ps);
      }
    }
    if forall j: nat | j < |segs| :: OddBytesFit(segs, j, ps) {
      forall pa: nat
        ensures WholePageIndex(segs, pa, ps) == Index(segs, pa, ps)
      {
        var j := SegAt(segs, pa);
        if j >= 0 {
          assert OddBytesFit(segs, j, ps);
          OddBytesFitIff(segs, j, ps);
          BothIndicesAt(segs, j, pa - segs[j].start, ps);
        }
      }
    }
  }

  // ---------------------------------------------------------------- translation and merging

  /** Lists with the same byte numbers translate alike in both directions. */
  lemma {:induction false} SameMapSameIndex(a: seq<Segment>, b: seq<Segment>, pa: nat, nid: int, k: int, ps: nat)
    requires ps > 0 && Ascending(a) && Ascending(b) && SameMap(a, b)
    ensures Index(a, pa, ps) == Index(b, pa, ps)
    ensures PageAddr(a, nid, k, ps) == PageAddr(b, nid, k, ps)
  {
    assert Locate(a, pa) == Locate(b, pa);
    SameMapInverse(a, b, nid, (k * ps) % U64);
  }

  /** Without whole pages the iomem index can change when neighbours are merged. */
  lemma UnalignedMergeShiftsIndex()
    ensures var segs := [Segment(1, 0, 4095 + 2048), Segment(1, 4096 + 2048, 12287)];
      && Ascending(segs) && Mergeable(segs, 0)
      && WholePageIndex(segs, 8192, 4096) == Some((1, 1))
      && WholePageIndex(MergeAt(segs, 0), 8192, 4096) == Some((1, 2))
  {
    var segs := [Segment(1, 0, 4095 + 2048), Segment(1, 4096 + 2048, 12287)];
    var m := MergeAt(segs, 0);
    assert m == [Segment(1, 0, 12287)];
    SegAtUnique(segs, 8192, 1);
    SegAtUnique(m, 8192, 0);
    assert segs[..1] == [segs[0]];
  }
}
