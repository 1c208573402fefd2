/**
 When joining two remote segments leaves all page indices alone.  The remote translator rounds every
 segment down to whole pages, so a join can gain a page that neither part had.
 */
module MergeIndex {
  import opened Arith
  import opened Common
  import opened Segments
  import opened PageIndex

  /** Some segment behind the pair is on the same node. */
  predicate NodeGoesOn(segs: seq<Segment>, i: nat) {
    exists j :: i + 1 < j < |segs| && segs[j].node == segs[i].node
  }

  /**
   The odd bytes at the end of the left segment and the bytes of the right one do not make up a page that
   starts inside the right one, or, if the node goes on, that ends with it.
   */
  predicate NoPageGained(segs: seq<Segment>, i: nat, ps: nat)
    requires i + 1 < |segs| && ps > 0
  {
    var odd, right := segs[i].Len() % ps, segs[i + 1].Len();
    odd + (if right < ps then right else ps) <= ps && (NodeGoesOn(segs, i) ==> odd + right % ps < ps)
  }

  /** Pages gained by rounding the sum instead of the parts. */
  function Gain(a: int, b: int, ps: nat): int
    requires ps > 0
  {
    (a + b) / ps - a / ps - b / ps
  }

  lemma GainIff(a: nat, b: nat, ps: nat)
    requires ps > 0
    ensures Gain(a, b, ps) == if a % ps + b % ps < ps then 0 else 1
  {
    DivBounds(a, ps);
    DivBounds(b, ps);
    var r := a % ps + b % ps;
    assert a + b == (a / ps + b / ps) * ps + r by {
      MulAdd(a / ps, b / ps, ps);
    }
    DivAddMul(a / ps + b / ps, r, ps);
    DivUnique(r, ps, if r < ps then 0 else 1);
  }

  /** No gain at any byte of the right segment. */
  lemma GainInside(a: nat, b: nat, ps: nat)
    requires ps > 0 && b > 0
    ensures (forall x | 0 <= x < b :: Gain(a, x, ps) == 0) <==> a % ps + (if b < ps then b else ps) <= ps
  {
    var least := if b < ps then b else ps;
    forall x | 0 <= x < b && a % ps + least <= ps
      ensures Gain(a, x, ps) == 0
    {
      GainIff(a, x, ps);
      RemainderLess(x, b, ps);
    }
    if a % ps + least > ps {
      GainIff(a, least - 1, ps);
      DivUnique(least - 1, ps, 0);
      DivBounds(least - 1, ps);
      assert Gain(a, least - 1, ps) != 0;
    }
  }

  lemma RemainderLess(x: nat, b: nat, ps: nat)
    requires ps > 0 && x < b
    ensures x % ps < b && x % ps < ps
  {
    DivBounds(x, ps);
    MulMono(0, x / ps, ps);
  }

  /** Whole pages before a place behind the pair. */
  lemma {:induction false} MergeWhole(segs: seq<Segment>, i: nat, nid: int, ps: nat, k: nat)
    requires ps > 0 && Mergeable(segs, i) && i < k < |segs|
    ensures WholePages(MergeAt(segs, i)[..k], nid, ps) == WholePages(segs[..k + 1], nid, ps)
      + (if segs[i].node == nid then Gain(segs[i].Len(), segs[i + 1].Len(), ps) else 0)
    decreases k
  {
    var m := MergeAt(segs, i);
    PageCountStep(m, nid, ps, k - 1);
    PageCountStep(segs, nid, ps, k);
    if k == i + 1 {
      assert m[..i] == segs[..i];
      assert m[i].Len() == segs[i].Len() + segs[i + 1].Len();
      PageCountStep(segs, nid, ps, i);
    } else {
      MergeWhole(segs, i, nid, ps, k - 1);
      assert m[k - 1] == segs[k];
    }
  }

  /** How far the join moves the index of an address. */
  function Shift(segs: seq<Segment>, i: nat, j: nat, pa: nat, ps: nat): int
    requires ps > 0 && i + 1 < |segs| && j < |segs|
  {
    if j <= i || segs[j].node != segs[i].node then 0
    else if j == i + 1 then Gain(segs[i].Len(), pa - segs[j].start, ps)
    else Gain(segs[i].Len(), segs[i + 1].Len(), ps)
  }

  /** Pages of the node before `pa`, which lies in segment `j`. */
  function Before(segs: seq<Segment>, j: nat, nid: int, pa: nat, ps: nat): int
    requires ps > 0 && j < |segs|
  {
    WholePages(segs[..j], nid, ps) + (pa - segs[j].start) / ps
  }

  lemma {:induction false} MergeShifts(segs: seq<Segment>, i: nat, j: nat, pa: nat, ps: nat)
    requires ps > 0 && Ascending(segs) && Mergeable(segs, i) && j < |segs| && segs[j].Covers(pa)
    ensures WholePageIndex(segs, pa, ps).Some?
    ensures WholePageIndex(MergeAt(segs, i), pa, ps)
      == Some((segs[j].node, WholePageIndex(segs, pa, ps).value.1 + Shift(segs, i, j, pa, ps)))
    ensures WholePageIndex(segs, pa, ps).value.0 == segs[j].node
  {
    var m, q := MergeAt(segs, i), if j <= i then j else j - 1;
    MergedPlace(segs, i, j, q, pa);
    PrefixShifts(segs, i, j, q, pa, ps);
    IndexShifts(segs, m, j, q, pa, ps, Shift(segs, i, j, pa, ps));
  }

  lemma {:induction false} MergedPlace(segs: seq<Segment>, i: nat, j: nat, q: nat, pa: nat)
    requires Ascending(segs) && Mergeable(segs, i) && j < |segs| && segs[j].Covers(pa)
    requires q == if j <= i then j else j - 1
    ensures var m := MergeAt(segs, i); Ascending(m) && m[q].Covers(pa) && m[q].node == segs[j].node
  {
    MergeStep(segs, i);
    MergeCovers(segs, i, pa, q);
  }

  lemma {:induction false} IndexShifts(segs: seq<Segment>, m: seq<Segment>, j: nat, q: nat, pa: nat, ps: nat, d: int)
    requires ps > 0 && Ascending(segs) && j < |segs| && segs[j].Covers(pa)
    requires Ascending(m) && q < |m| && m[q].Covers(pa) && m[q].node == segs[j].node
    requires Before(m, q, segs[j].node, pa, ps) == Before(segs, j, segs[j].node, pa, ps) + d
    ensures WholePageIndex(segs, pa, ps).Some? && WholePageIndex(segs, pa, ps).value.0 == segs[j].node
    ensures WholePageIndex(m, pa, ps) == Some((segs[j].node, WholePageIndex(segs, pa, ps).value.1 + d))
  {
    WholePageIs(segs, pa, j, ps);
    WholePageIs(m, pa, q, ps);
  }

  lemma {:induction false} PrefixShifts(segs: seq<Segment>, i: nat, j: nat, q: nat, pa: nat, ps: nat)
    requires ps > 0 && Mergeable(segs, i) && j < |segs| && q == if j <= i then j else j - 1
    ensures Before(MergeAt(segs, i), q, segs[j].node, pa, ps)
      == Before(segs, j, segs[j].node, pa, ps) + Shift(segs, i, j, pa, ps)
  {
    var m, nid := MergeAt(segs, i), segs[j].node;
    if j <= i {
      assert m[..j] == segs[..j];
    } else if j == i + 1 {
      assert m[..i] == segs[..i];
      PageCountStep(segs, nid, ps, i);
      assert pa - m[i].start == segs[i].Len() + (pa - segs[j].start);
    } else {
      MergeWhole(segs, i, nid, ps, q);
      assert m[q] == segs[j];
    }
  }

  /** The remote page index of every address survives the join. */
  ghost predicate IndexKept(segs: seq<Segment>, i: nat, ps: nat)
    requires ps > 0 && i + 1 < |segs|
  {
    forall pa: nat :: WholePageIndex(MergeAt(segs, i), pa, ps) == WholePageIndex(segs, pa, ps)
  }

  /** A join keeps the remote index of every address exactly when no page is gained. */
  lemma {:induction false} MergeKeepsIndexIff(segs: seq<Segment>, i: nat, ps: nat)
    requires ps > 0 && Ascending(segs) && Mergeable(segs, i)
    ensures IndexKept(segs, i, ps) <==> NoPageGained(segs, i, ps)
  {
    GainInside(segs[i].Len(), segs[i + 1].Len(), ps);
    GainIff(segs[i].Len(), segs[i + 1].Len(), ps);
    if NoPageGained(segs, i, ps) {
      forall pa: nat
        ensures WholePageIndex(MergeAt(segs, i), pa, ps) == WholePageIndex(segs, pa, ps)
      {
        var j := SegAt(segs, pa);
        if j < 0 {
          MergeUncovered(segs, i, pa);
        } else {
          MergeShifts(segs, i, j, pa, ps);
        }
      }
    } else {
      ShiftSomewhere(segs, i, ps);
    }
  }

  lemma {:induction false} ShiftSomewhere(segs: seq<Segment>, i: nat, ps: nat)
    requires ps > 0 && Ascending(segs) && Mergeable(segs, i) && !NoPageGained(segs, i, ps)
    ensures !IndexKept(segs, i, ps)
  {
    var a, b := segs[i].Len(), segs[i + 1].Len();
    GainInside(a, b, ps);
    if x :| 0 <= x < b && Gain(a, x, ps) != 0 {
      MergeShifts(segs, i, i + 1, segs[i + 1].start + x, ps);
    } else {
      var j :| i + 1 < j < |segs| && segs[j].node == segs[i].node;
      GainIff(a, b, ps);
      MergeShifts(segs, i, j, segs[j].start, ps);
    }
  }

  // ---------------------------------------------------------------- the whole merge

  /** The merge loop from position `cur` on: join while possible, then move on. */
  function MergeFrom(r: seq<Segment>, cur: nat): seq<Segment>
    decreases |r| - cur
  {
    if cur + 1 >= |r| then r
    else if Mergeable(r, cur) then MergeFrom(MergeAt(r, cur), cur)
    else MergeFrom(r, cur + 1)
  }

  /** No join of the loop gains a page. */
  predicate NeverGains(r: seq<Segment>, cur: nat, ps: nat)
    requires ps > 0
    decreases |r| - cur
  {
    if cur + 1 >= |r| then true
    else if Mergeable(r, cur) then NoPageGained(r, cur, ps) && NeverGains(MergeAt(r, cur), cur, ps)
    else NeverGains(r, cur + 1, ps)
  }

  /** Both lists give every address the same remote index. */
  ghost predicate SameIndex(a: seq<Segment>, b: seq<Segment>, ps: nat)
    requires ps > 0
  {
    forall pa: nat :: WholePageIndex(a, pa, ps) == WholePageIndex(b, pa, ps)
  }

  predicate AtMost(x: Option<(int, int)>, y: Option<(int, int)>) {
    x == y || (x.Some? && y.Some? && x.value.0 == y.value.0 && x.value.1 < y.value.1)
  }

  /** A join never lowers an index. */
  lemma {:induction false} JoinRaises(r: seq<Segment>, i: nat, pa: nat, ps: nat)
    requires ps > 0 && Ascending(r) && Mergeable(r, i)
    ensures AtMost(WholePageIndex(r, pa, ps), WholePageIndex(MergeAt(r, i), pa, ps))
  {
    var j := SegAt(r, pa);
    if j < 0 {
      MergeUncovered(r, i, pa);
    } else {
      MergeShifts(r, i, j, pa, ps);
      GainIff(r[i].Len(), if j == i + 1 then pa - r[j].start else r[i + 1].Len(), ps);
    }
  }

  lemma {:induction false} MergeRaises(r: seq<Segment>, cur: nat, pa: nat, ps: nat)
    requires ps > 0 && Ascending(r)
    ensures AtMost(WholePageIndex(r, pa, ps), WholePageIndex(MergeFrom(r, cur), pa, ps))
    decreases |r| - cur
  {
    if cur + 1 < |r| {
      if Mergeable(r, cur) {
        MergeStep(r, cur);
        JoinRaises(r, cur, pa, ps);
        MergeRaises(MergeAt(r, cur), cur, pa, ps);
      } else {
        MergeRaises(r, cur + 1, pa, ps);
      }
    }
  }

  /** What one join raises, the rest of the loop does not lower again. */
  lemma {:induction false} GainStays(r: seq<Segment>, cur: nat, ps: nat)
    requires ps > 0 && Ascending(r) && Mergeable(r, cur) && !NoPageGained(r, cur, ps)
    ensures !SameIndex(r, MergeFrom(MergeAt(r, cur), cur), ps)
  {
    var m := MergeAt(r, cur);
    MergeKeepsIndexIff(r, cur, ps);
    var pa: nat :| WholePageIndex(m, pa, ps) != WholePageIndex(r, pa, ps);
    MergeStep(r, cur);
    JoinRaises(r, cur, pa, ps);
    MergeRaises(m, cur, pa, ps);
  }

  /** The merge keeps the remote index of every address exactly when none of its joins gains a page. */
  lemma {:induction false} MergeAllKeepsIndexIff(r: seq<Segment>, cur: nat, ps: nat)
    requires ps > 0 && Ascending(r)
    ensures SameIndex(r, MergeFrom(r, cur), ps) <==> NeverGains(r, cur, ps)
    decreases |r| - cur
  {
    if cur + 1 < |r| {
      if !Mergeable(r, cur) {
        MergeAllKeepsIndexIff(r, cur + 1, ps);
      } else if NoPageGained(r, cur, ps) {
        var m := MergeAt(r, cur);
        assert SameIndex(r, m, ps) by {
          MergeKeepsIndexIff(r, cur, ps);
        }
        assert Ascending(m) by {
          MergeStep(r, cur);
        }
        MergeAllKeepsIndexIff(m, cur, ps);
        SameIndexTrans(r, m, MergeFrom(m, cur), ps);
      } else {
        GainStays(r, cur, ps);
      }
    }
  }

  lemma {:induction false} SameIndexTrans(a: seq<Segment>, b: seq<Segment>, c: seq<Segment>, ps: nat)
    requires ps > 0 && SameIndex(a, b, ps)
    ensures SameIndex(a, c, ps) <==> SameIndex(b, c, ps)
  {
    forall pa: nat
      ensures WholePageIndex(a, pa, ps) == WholePageIndex(b, pa, ps)
    {
    }
  }

  /** With whole pages no join gains one. */
  lemma {:induction false} WholePagesNeverGain(r: seq<Segment>, cur: nat, ps: nat)
    requires ps > 0 && PageMultiple(r, ps)
    ensures NeverGains(r, cur, ps)
    decreases |r| - cur
  {
    if cur + 1 < |r| {
      if Mergeable(r, cur) {
        DivBounds(r[cur + 1].Len(), ps);
        MergeKeepsPages(r, cur, ps);
        WholePagesNeverGain(MergeAt(r, cur), cur, ps);
      } else {
        WholePagesNeverGain(r, cur + 1, ps);
      }
    }
  }

  /** Both remote translations survive the merge: forward when no page is gained, inverse always. */
  lemma {:induction false} MergeKeepsTranslations(head: seq<Segment>, r: seq<Segment>, ps: nat, pa: nat, nid: int, k: int)
    requires ps > 0 && Ascending(head) && Ascending(r) && SameMap(head, r) && r == MergeFrom(head, 0)
    ensures PageMultiple(head, ps) ==> WholePageIndex(r, pa, ps) == WholePageIndex(head, pa, ps)
    ensures PageAddr(r, nid, k, ps) == PageAddr(head, nid, k, ps)
  {
    SameMapSameIndex(head, r, pa, nid, k, ps);
    if PageMultiple(head, ps) {
      WholePagesNeverGain(head, 0, ps);
      MergeAllKeepsIndexIff(head, 0, ps);
    }
  }
}
