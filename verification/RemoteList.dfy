/** The segments of remote nodes among all segments of the iomem list, as the histogram device takes them. */
module RemoteList {
  import opened Common
  import opened Segments
  import opened PageIndex

  /** The segments of nodes from `nrLocal` on, in order. */
  function Remote(list: seq<Segment>, nrLocal: int): seq<Segment> {
    if |list| == 0 then []
    else Kept(Remote(list[..|list| - 1], nrLocal), list[|list| - 1], nrLocal)
  }

  function Kept(front: seq<Segment>, last: Segment, nrLocal: int): seq<Segment> {
    if last.node >= nrLocal then front + [last] else front
  }

  lemma {:induction false} RemoteMember(list: seq<Segment>, nrLocal: int, i: nat)
    requires i < |Remote(list, nrLocal)|
    ensures Remote(list, nrLocal)[i] in list && Remote(list, nrLocal)[i].node >= nrLocal
    decreases |list|
  {
    var n := |list| - 1;
    if i < |Remote(list[..n], nrLocal)| {
      RemoteMember(list[..n], nrLocal, i);
    }
  }

  lemma {:induction false} RemoteAscending(list: seq<Segment>, nrLocal: int)
    requires Ascending(list)
    ensures Ascending(Remote(list, nrLocal))
    decreases |list|
  {
    if |list| > 0 {
      var n := |list| - 1;
      var front := Remote(list[..n], nrLocal);
      AscendingPrefix(list, n);
      RemoteAscending(list[..n], nrLocal);
      forall i | 0 <= i < |front|
        ensures front[i].end < list[n].start
      {
        RemoteMember(list[..n], nrLocal, i);
      }
      KeptAscending(front, list[n], nrLocal);
    }
  }

  lemma {:induction false} KeptAscending(front: seq<Segment>, last: Segment, nrLocal: int)
    requires Ascending(front) && last.start <= last.end && forall i | 0 <= i < |front| :: front[i].end < last.start
    ensures Ascending(Kept(front, last, nrLocal))
  {
  }

  /** Both lists number the bytes and pages of node `n` alike. */
  ghost predicate SameNumbers(a: seq<Segment>, b: seq<Segment>, n: int, ps: nat)
    requires ps > 0
  {
    && BytesOf(a, n) == BytesOf(b, n)
    && PageCount(a, n, ps) == PageCount(b, n, ps) && WholePages(a, n, ps) == WholePages(b, n, ps)
  }

  lemma {:induction false} NumbersSnoc(front: seq<Segment>, last: Segment, n: int, ps: nat)
    requires ps > 0
    ensures var all, own := front + [last], last.node == n;
      && BytesOf(all, n) == BytesOf(front, n) + (if own then last.Len() else 0)
      && PageCount(all, n, ps) == PageCount(front, n, ps) + (if own then PageCeil(last.Len(), ps) else 0)
      && WholePages(all, n, ps) == WholePages(front, n, ps) + (if own then last.Len() / ps else 0)
  {
    assert (front + [last])[..|front|] == front;
  }

  lemma {:induction false} ByteAtSnoc(front: seq<Segment>, last: Segment, n: int, off: int)
    ensures ByteAt(front + [last], n, off) ==
      if last.node == n && BytesOf(front, n) <= off < BytesOf(front, n) + last.Len()
      then Some(last.start + off - BytesOf(front, n)) else ByteAt(front, n, off)
  {
    assert (front + [last])[..|front|] == front;
  }

  lemma {:induction false} KeptNumbers(a: seq<Segment>, b: seq<Segment>, last: Segment, nrLocal: int, n: int, ps: nat)
    requires ps > 0 && n >= nrLocal && SameNumbers(a, b, n, ps)
    ensures SameNumbers(Kept(a, last, nrLocal), b + [last], n, ps)
  {
    NumbersSnoc(a, last, n, ps);
    NumbersSnoc(b, last, n, ps);
  }

  /** Leaving out local segments changes no number of a remote node. */
  lemma {:induction false} RemoteNumbers(list: seq<Segment>, nrLocal: int, n: int, ps: nat)
    requires ps > 0 && n >= nrLocal
    ensures SameNumbers(Remote(list, nrLocal), list, n, ps)
    decreases |list|
  {
    if |list| > 0 {
      var front, last := list[..|list| - 1], list[|list| - 1];
      RemoteNumbers(front, nrLocal, n, ps);
      KeptNumbers(Remote(front, nrLocal), front, last, nrLocal, n, ps);
      assert list == front + [last];
    }
  }

  lemma {:induction false} KeptByteAt(a: seq<Segment>, b: seq<Segment>, last: Segment, nrLocal: int, n: int, off: int)
    requires n >= nrLocal && BytesOf(a, n) == BytesOf(b, n) && ByteAt(a, n, off) == ByteAt(b, n, off)
    ensures ByteAt(Kept(a, last, nrLocal), n, off) == ByteAt(b + [last], n, off)
  {
    ByteAtSnoc(a, last, n, off);
    ByteAtSnoc(b, last, n, off);
  }

  /** The inverse translation of a remote node does not see local segments. */
  lemma {:induction false} RemoteByteAt(list: seq<Segment>, nrLocal: int, n: int, off: int)
    requires n >= nrLocal
    ensures ByteAt(Remote(list, nrLocal), n, off) == ByteAt(list, n, off)
    decreases |list|
  {
    if |list| > 0 {
      var front, last := list[..|list| - 1], list[|list| - 1];
      RemoteNumbers(front, nrLocal, n, 1);
      RemoteByteAt(front, nrLocal, n, off);
      KeptByteAt(Remote(front, nrLocal), front, last, nrLocal, n, off);
      assert list == front + [last];
    }
  }

  /** The segment list with one more segment behind: where an address is found. */
  lemma {:induction false} IndexSnoc(front: seq<Segment>, last: Segment, pa: nat, ps: nat)
    requires ps > 0
    ensures WholePageIndex(front + [last], pa, ps)
         == if last.Covers(pa) then Some((last.node, WholePages(front, last.node, ps) + (pa - last.start) / ps))
            else WholePageIndex(front, pa, ps)
  {
    var all := front + [last];
    assert all[..|front|] == front;
    var j := SegAt(front, pa);
    if !last.Covers(pa) && j >= 0 {
      assert all[..j] == front[..j];
    }
  }

  lemma {:induction false} KeptIndex(a: seq<Segment>, b: seq<Segment>, last: Segment, nrLocal: int, pa: nat, ps: nat)
    requires ps > 0
    requires if last.Covers(pa) then last.node >= nrLocal && WholePages(a, last.node, ps) == WholePages(b, last.node, ps)
             else WholePageIndex(a, pa, ps) == WholePageIndex(b, pa, ps)
    ensures WholePageIndex(Kept(a, last, nrLocal), pa, ps) == WholePageIndex(b + [last], pa, ps)
  {
    IndexSnoc(a, last, pa, ps);
    IndexSnoc(b, last, pa, ps);
  }

  /** Addresses on remote nodes keep their index. */
  lemma {:induction false} RemoteIndex(list: seq<Segment>, nrLocal: int, pa: nat, ps: nat)
    requires ps > 0 && SegAt(list, pa) >= 0 && list[SegAt(list, pa)].node >= nrLocal
    ensures WholePageIndex(Remote(list, nrLocal), pa, ps) == WholePageIndex(list, pa, ps)
    decreases |list|
  {
    var front, last := list[..|list| - 1], list[|list| - 1];
    if last.Covers(pa) {
      RemoteNumbers(front, nrLocal, last.node, ps);
    } else {
      RemoteIndex(front, nrLocal, pa, ps);
    }
    KeptIndex(Remote(front, nrLocal), front, last, nrLocal, pa, ps);
    assert list == front + [last];
  }
}
