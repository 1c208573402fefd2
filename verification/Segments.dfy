/**
 Ascending lists of physical memory segments, one NUMA node per segment.

 The meaning of such a list is kept at the byte level, where nothing is rounded: the bytes of one
 node, taken in address order, are numbered 0, 1, 2, ...  `ByteOff` is the number of a byte, `ByteAt`
 the byte with a given number.  The page indices of the two translators are these numbers divided
 by the page size.
 */
module Segments {
  import opened Arith
  import opened Common

  /** A segment with an inclusive end, as the drivers store it. */
  datatype Segment = Segment(node: int, start: nat, end: nat) {
    predicate Covers(pa: nat) {
      start <= pa <= end
    }

    function Len(): int {
      end - start + 1
    }
  }

  /** Segments are non-empty, ascending and pairwise disjoint. */
  ghost predicate Ascending(segs: seq<Segment>) {
    && (forall i | 0 <= i < |segs| :: segs[i].start <= segs[i].end)
    && (forall i, j | 0 <= i < j < |segs| :: segs[i].end < segs[j].start)
  }

  /** Every segment starts on a page boundary and holds whole pages. */
  ghost predicate PageMultiple(segs: seq<Segment>, ps: nat)
    requires ps > 0
  {
    forall i | 0 <= i < |segs| :: segs[i].start % ps == 0 && segs[i].Len() % ps == 0
  }

  /** Number of bytes of node `nid`. */
  function BytesOf(segs: seq<Segment>, nid: int): int {
    if |segs| == 0 then 0
    else
      var last := segs[|segs| - 1];
      BytesOf(segs[..|segs| - 1], nid) + (if last.node == nid then last.Len() else 0)
  }

  /** Position of the segment that covers `pa`, or -1. */
  function SegAt(segs: seq<Segment>, pa: nat): (j: int)
    ensures -1 <= j < |segs|
    ensures j >= 0 ==> segs[j].Covers(pa)
    ensures j < 0 ==> forall i | 0 <= i < |segs| :: !segs[i].Covers(pa)
  {
    if |segs| == 0 then -1
    else if segs[|segs| - 1].Covers(pa) then |segs| - 1
    else SegAt(segs[..|segs| - 1], pa)
  }

  /** Number of the byte `pa` among the bytes of its node. */
  function ByteOff(segs: seq<Segment>, pa: nat): int
    requires SegAt(segs, pa) >= 0
  {
    var j := SegAt(segs, pa);
    BytesOf(segs[..j], segs[j].node) + pa - segs[j].start
  }

  /** The byte of node `nid` that has number `off`. */
  function ByteAt(segs: seq<Segment>, nid: int, off: int): Option<int> {
    if |segs| == 0 then None
    else
      var front, last := segs[..|segs| - 1], segs[|segs| - 1];
      var before := BytesOf(front, nid);
      if last.node == nid && before <= off < before + last.Len() then Some(last.start + off - before)
      else ByteAt(front, nid, off)
  }

  /** The byte `pa` belongs to node `nid`. */
  predicate OnNode(segs: seq<Segment>, nid: int, pa: nat) {
    var j := SegAt(segs, pa);
    j >= 0 && segs[j].node == nid
  }

  // ---------------------------------------------------------------- prefixes

  lemma AscendingPrefix(segs: seq<Segment>, k: nat)
    requires Ascending(segs) && k <= |segs|
    ensures Ascending(segs[..k])
  {
  }

  lemma SegAtUnique(segs: seq<Segment>, pa: nat, j: nat)
    requires Ascending(segs) && j < |segs| && segs[j].Covers(pa)
    ensures SegAt(segs, pa) == j
  {
  }

  lemma BytesNonneg(segs: seq<Segment>, nid: int)
    requires Ascending(segs)
    ensures BytesOf(segs, nid) >= 0
  {
    if |segs| > 0 {
      AscendingPrefix(segs, |segs| - 1);
      BytesNonneg(segs[..|segs| - 1], nid);
    }
  }

  lemma BytesStep(segs: seq<Segment>, nid: int, k: nat)
    requires k < |segs|
    ensures BytesOf(segs[..k + 1], nid)
         == BytesOf(segs[..k], nid) + (if segs[k].node == nid then segs[k].Len() else 0)
  {
    assert segs[..k + 1][..k] == segs[..k];
  }

  lemma BytesMono(segs: seq<Segment>, nid: int, i: nat, k: nat)
    requires Ascending(segs) && i <= k <= |segs|
    ensures BytesOf(segs[..i], nid) <= BytesOf(segs[..k], nid)
    decreases k
  {
    if i < k {
      BytesStep(segs, nid, k - 1);
      BytesMono(segs, nid, i, k - 1);
    }
  }

  /** The bytes of a node never number more than the addresses up to the last segment. */
  lemma BytesBound(segs: seq<Segment>, nid: int)
    requires Ascending(segs)
    ensures |segs| > 0 ==> BytesOf(segs, nid) <= segs[|segs| - 1].end + 1
  {
    if |segs| > 0 {
      AscendingPrefix(segs, |segs| - 1);
      BytesBound(segs[..|segs| - 1], nid);
    }
  }

  lemma ByteAtIn(segs: seq<Segment>, nid: int, off: int, j: nat)
    requires Ascending(segs) && j < |segs| && segs[j].node == nid
    requires BytesOf(segs[..j], nid) <= off < BytesOf(segs[..j], nid) + segs[j].Len()
    ensures ByteAt(segs, nid, off) == Some(segs[j].start + off - BytesOf(segs[..j], nid))
  {
    var n := |segs| - 1;
    if j < n {
      AscendingPrefix(segs, n);
      BytesStep(segs, nid, j);
      BytesMono(segs, nid, j + 1, n);
      assert segs[..n][..j] == segs[..j];
      ByteAtIn(segs[..n], nid, off, j);
    } else {
      assert segs[..n] == segs[..j];
    }
  }

  lemma ByteAtRange(segs: seq<Segment>, nid: int, off: int)
    requires Ascending(segs)
    ensures ByteAt(segs, nid, off).Some? <==> 0 <= off < BytesOf(segs, nid)
  {
    if |segs| > 0 {
      var front := segs[..|segs| - 1];
      AscendingPrefix(segs, |segs| - 1);
      BytesNonneg(front, nid);
      ByteAtRange(front, nid, off);
    }
  }

  // ---------------------------------------------------------------- the byte-level bijection

  /** Number, then byte: back to the same byte. */
  lemma ByteRoundTrip(segs: seq<Segment>, pa: nat)
    requires Ascending(segs) && SegAt(segs, pa) >= 0
    ensures var nid := segs[SegAt(segs, pa)].node;
      && 0 <= ByteOff(segs, pa) < BytesOf(segs, nid)
      && ByteAt(segs, nid, ByteOff(segs, pa)) == Some(pa)
  {
    var j := SegAt(segs, pa);
    var nid := segs[j].node;
    AscendingPrefix(segs, j);
    BytesNonneg(segs[..j], nid);
    ByteAtIn(segs, nid, ByteOff(segs, pa), j);
    ByteAtRange(segs, nid, ByteOff(segs, pa));
  }

  /** Byte, then number: back to the same number. */
  lemma {:induction false} OffsetRoundTrip(segs: seq<Segment>, nid: int, off: int)
    requires Ascending(segs) && 0 <= off < BytesOf(segs, nid)
    ensures var r := ByteAt(segs, nid, off);
      r.Some? && r.value >= 0 && OnNode(segs, nid, r.value) && ByteOff(segs, r.value) == off
  {
    var n := |segs| - 1;
    var front := segs[..n];
    AscendingPrefix(segs, n);
    var before := BytesOf(front, nid);
    if off < before {
      OffsetRoundTrip(front, nid, off);
      var pa: nat := ByteAt(segs, nid, off).value;
      var j := SegAt(front, pa);
      SegAtUnique(segs, pa, j);
      assert front[..j] == segs[..j];
    } else {
      SegAtUnique(segs, segs[n].start + off - before, n);
    }
  }

  // ---------------------------------------------------------------- lists with the same meaning

  /** Node and byte number of `pa`. */
  function Locate(segs: seq<Segment>, pa: nat): Option<(int, int)> {
    var j := SegAt(segs, pa);
    if j >= 0 then Some((segs[j].node, ByteOff(segs, pa))) else None
  }

  lemma LocateIs(segs: seq<Segment>, pa: nat, j: nat)
    requires Ascending(segs) && j < |segs| && segs[j].Covers(pa)
    ensures Locate(segs, pa) == Some((segs[j].node, BytesOf(segs[..j], segs[j].node) + pa - segs[j].start))
  {
    SegAtUnique(segs, pa, j);
  }

  /** Two lists cover the same bytes with the same nodes and the same numbers. */
  ghost predicate SameMap(a: seq<Segment>, b: seq<Segment>) {
    && (forall pa: nat :: Locate(a, pa) == Locate(b, pa))
    && (forall nid :: BytesOf(a, nid) == BytesOf(b, nid))
  }

  /** Lists that number bytes alike also invert alike. */
  lemma SameMapInverse(a: seq<Segment>, b: seq<Segment>, nid: int, off: int)
    requires Ascending(a) && Ascending(b) && SameMap(a, b)
    ensures ByteAt(a, nid, off) == ByteAt(b, nid, off)
  {
    ByteAtRange(a, nid, off);
    ByteAtRange(b, nid, off);
    if 0 <= off < BytesOf(a, nid) {
      OffsetRoundTrip(a, nid, off);
      var pa: nat := ByteAt(a, nid, off).value;
      assert Locate(b, pa) == Some((nid, off));
      ByteRoundTrip(b, pa);
    }
  }

  /** Neighbours `i` and `i+1` that touch and share a node. */
  predicate Mergeable(segs: seq<Segment>, i: nat) {
    i + 1 < |segs| && segs[i].node == segs[i + 1].node && segs[i].end + 1 == segs[i + 1].start
  }

  /** Segment `i` extended over its right neighbour, which is unlinked. */
  function MergeAt(segs: seq<Segment>, i: nat): (r: seq<Segment>)
    requires i + 1 < |segs|
    ensures |r| == |segs| - 1
    ensures r[..i] == segs[..i]
    ensures forall k | 0 <= k < |r| ::
      r[k] == if k < i then segs[k] else if k == i then segs[i].(end := segs[i + 1].end) else segs[k + 1]
  {
    segs[..i] + [segs[i].(end := segs[i + 1].end)] + segs[i + 2..]
  }

  /** Merging at `i` decides nothing to the left of `i`. */
  lemma MergeKeepsLeft(segs: seq<Segment>, i: nat)
    requires i + 1 < |segs|
    ensures forall k: nat | k < i :: Mergeable(MergeAt(segs, i), k) == Mergeable(segs, k)
  {
  }

  lemma MergeBytes(segs: seq<Segment>, i: nat, nid: int, k: nat)
    requires Mergeable(segs, i) && i < k < |segs|
    ensures BytesOf(MergeAt(segs, i)[..k], nid) == BytesOf(segs[..k + 1], nid)
  {
    var m := MergeAt(segs, i);
    BytesStep(m, nid, k - 1);
    BytesStep(segs, nid, k);
    if k == i + 1 {
      assert m[..i] == segs[..i];
      BytesStep(segs, nid, i);
    } else {
      MergeBytes(segs, i, nid, k - 1);
    }
  }

  lemma MergeCovers(segs: seq<Segment>, i: nat, pa: nat, q: nat)
    requires Ascending(segs) && Mergeable(segs, i) && q < |segs| - 1
    ensures MergeAt(segs, i)[q].Covers(pa)
       <==> if q < i then segs[q].Covers(pa)
            else if q == i then segs[i].Covers(pa) || segs[i + 1].Covers(pa)
            else segs[q + 1].Covers(pa)
  {
  }

  lemma MergeUncovered(segs: seq<Segment>, i: nat, pa: nat)
    requires Ascending(segs) && Mergeable(segs, i) && SegAt(segs, pa) < 0
    ensures SegAt(MergeAt(segs, i), pa) < 0
  {
    var q := SegAt(MergeAt(segs, i), pa);
    if q >= 0 {
      MergeCovers(segs, i, pa, q);
    }
  }

  lemma {:induction false} MergeLocate(segs: seq<Segment>, i: nat, pa: nat)
    requires Ascending(segs) && Mergeable(segs, i) && Ascending(MergeAt(segs, i))
    ensures Locate(MergeAt(segs, i), pa) == Locate(segs, pa)
  {
    var j := SegAt(segs, pa);
    if j < 0 {
      MergeUncovered(segs, i, pa);
    } else {
      MergeCovered(segs, i, pa, j, if j <= i then j else j - 1);
    }
  }

  lemma {:induction false} MergeCovered(segs: seq<Segment>, i: nat, pa: nat, j: nat, q: nat)
    requires Ascending(segs) && Mergeable(segs, i) && Ascending(MergeAt(segs, i))
    requires j < |segs| && segs[j].Covers(pa) && q == if j <= i then j else j - 1
    ensures Locate(MergeAt(segs, i), pa) == Locate(segs, pa)
  {
    var m := MergeAt(segs, i);
    assert m[q].node == segs[j].node;
    assert BytesOf(m[..q], segs[j].node) - m[q].start == BytesOf(segs[..j], segs[j].node) - segs[j].start by {
      MergePrefix(segs, i, j);
    }
    assert m[q].Covers(pa) by {
      MergeCovers(segs, i, pa, q);
    }
    LocateIs(m, pa, q);
    LocateIs(segs, pa, j);
  }

  /** The numbers at which segment `j` starts, before and after the merge. */
  lemma {:induction false} MergePrefix(segs: seq<Segment>, i: nat, j: nat)
    requires Mergeable(segs, i) && j < |segs|
    ensures var m, nid := MergeAt(segs, i), segs[j].node;
      if j <= i then BytesOf(m[..j], nid) == BytesOf(segs[..j], nid)
      else BytesOf(m[..j - 1], nid) - m[j - 1].start == BytesOf(segs[..j], nid) - segs[j].start
  {
    var m, nid := MergeAt(segs, i), segs[j].node;
    if j <= i {
      assert m[..j] == segs[..j];
    } else if j == i + 1 {
      BytesStep(segs, nid, i);
    } else {
      MergeBytes(segs, i, nid, j - 1);
    }
  }

  /** One merge step keeps order, coverage, nodes and byte numbers. */
  lemma {:induction false} MergeStep(segs: seq<Segment>, i: nat)
    requires Ascending(segs) && Mergeable(segs, i)
    ensures Ascending(MergeAt(segs, i)) && SameMap(segs, MergeAt(segs, i))
  {
    var m := MergeAt(segs, i);
    forall pa: nat ensures Locate(segs, pa) == Locate(m, pa) {
      MergeLocate(segs, i, pa);
    }
    forall nid ensures BytesOf(segs, nid) == BytesOf(m, nid) {
      MergeBytes(segs, i, nid, |m|);
      assert m[..|m|] == m && segs[..|segs|] == segs;
    }
  }

  /** Merging keeps whole pages whole. */
  lemma MergeKeepsPages(segs: seq<Segment>, i: nat, ps: nat)
    requires ps > 0 && Mergeable(segs, i) && PageMultiple(segs, ps)
    ensures PageMultiple(MergeAt(segs, i), ps)
  {
    AddMultiples(segs[i].Len(), segs[i + 1].Len(), ps);
    var m := MergeAt(segs, i);
    assert m[i].Len() == segs[i].Len() + segs[i + 1].Len();
    forall k | 0 <= k < |m| ensures m[k].start % ps == 0 && m[k].Len() % ps == 0 {
      assert k < i ==> m[k] == segs[k];
      assert k > i ==> m[k] == segs[k + 1];
    }
  }
}
