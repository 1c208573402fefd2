/**
 Adding hardware samples to the page counters (update_actc_direct and do_actc_update in hist_ops.c),
 and the whole direct pass: plan the windows, schedule them, add every window's samples.
 */
module HistUpdate {
  import opened Arith
  import opened Common
  import opened Segments
  import opened PageIndex
  import opened HistPlan
  import opened HistSchedule
  import opened RemoteList
  import opened CompressFreq

  /** Saturation at U8_MAX: the largest 8-bit value that does not exceed `x`. */
  function Sat(x: nat): (r: nat)
    ensures r <= x && r <= 255 && (x <= 255 ==> r == x) && (x >= 255 ==> r == 255)
  {
    if x < 255 then x else 255
  }

  /** `r` is the square root of the count `x`, rounded down. */
  predicate RootOf(r: nat, x: nat) {
    r * r <= x < (r + 1) * (r + 1)
  }

  /** A counter after a sample with hardware count `x`: the root is added, the sum stops at 255. */
  ghost predicate SampleAdded(was: nat, now: nat, x: nat) {
    && (exists r: nat :: RootOf(r, x) && now == (if was + r <= 255 then was + r else 255))
    && now <= 255 && (was <= 255 ==> was <= now)
  }

  lemma SampleIsAdded(was: nat, x: nat)
    ensures SampleAdded(was, Sat(was + ISqrt(x)), x)
  {
    assert RootOf(ISqrt(x), x);
  }

  /** The counters with `pages` samples added from index `at` on. */
  function Bumped(actc: seq<nat>, at: nat, hist: nat, pages: nat, freq: seq<nat>): (r: seq<nat>)
    requires hist + pages <= |freq|
    ensures |r| == |actc|
  {
    seq(|actc|, i requires 0 <= i < |actc| =>
      if at <= i < at + pages then Sat(actc[i] + ISqrt(freq[hist + (i - at)])) else actc[i])
  }

  /** Page for page: the touched counters have their own sample added, the others are as before. */
  lemma BumpedAdds(actc: seq<nat>, at: nat, hist: nat, pages: nat, freq: seq<nat>)
    requires hist + pages <= |freq| && at + pages <= |actc|
    ensures var r := Bumped(actc, at, hist, pages, freq);
      && (forall i | at <= i < at + pages :: SampleAdded(actc[i], r[i], freq[hist + (i - at)]))
      && (forall i | 0 <= i < |actc| && !(at <= i < at + pages) :: r[i] == actc[i])
  {
    forall i | at <= i < at + pages
      ensures SampleAdded(actc[i], Bumped(actc, at, hist, pages, freq)[i], freq[hist + (i - at)])
    {
      SampleIsAdded(actc[i], freq[hist + (i - at)]);
    }
  }

  /** find_rseg_by_start. */
  function FindRseg(list: seq<Segment>, start: nat): Option<Segment> {
    if list == [] then None
    else if list[0].start == start then Some(list[0])
    else FindRseg(list[1..], start)
  }

  function Max(a: int, b: int): int {
    if a > b then a else b
  }

  function Min(a: int, b: int): int {
    if a < b then a else b
  }

  predicate Intersects(a: AddrSeg, b: AddrSeg) {
    !(a.End() < b.start || b.End() < a.start)
  }

  /** Pages of the overlap, rounded down. */
  function InterPages(cur: AddrSeg, win: AddrSeg, ps: nat): int
    requires ps > 0
  {
    (Min(cur.End(), win.End()) - Max(cur.start, win.start) + 1) / ps
  }

  /** First sample of the overlap in the window's buffer. */
  function HistOffset(cur: AddrSeg, win: AddrSeg, ps: nat): int
    requires ps > 0
  {
    (Max(cur.start, win.start) - win.start) / ps
  }

  /** First page of the overlap among the segment's pages. */
  function SegOffset(cur: AddrSeg, win: AddrSeg, ps: nat): int
    requires ps > 0
  {
    (Max(cur.start, win.start) - cur.start) / ps
  }

  /** The samples of the overlap lie inside the buffer. */
  lemma OverlapInBuffer(cur: AddrSeg, win: AddrSeg, ps: nat, n: nat)
    requires ps > 0 && win.size == n * ps && Intersects(cur, win)
    ensures 0 <= HistOffset(cur, win, ps) && 0 <= SegOffset(cur, win, ps) && 0 <= InterPages(cur, win, ps)
    ensures HistOffset(cur, win, ps) + InterPages(cur, win, ps) <= n
  {
    var x := Max(cur.start, win.start) - win.start;
    var y := Min(cur.End(), win.End()) - Max(cur.start, win.start) + 1;
    DivMono(0, x, ps);
    DivMono(0, Max(cur.start, win.start) - cur.start, ps);
    DivMono(0, y, ps);
    DivBounds(x, ps);
    DivBounds(y, ps);
    MulAdd(x / ps, y / ps, ps);
    if x / ps + y / ps > n {
      MulMono(n + 1, x / ps + y / ps, ps);
      MulAdd(n, 1, ps);
      assert false;
    }
  }

  /** In whole pages: segment [a, a+p), window [b, b+m). */
  lemma {:induction false} PageUnits(cur: AddrSeg, win: AddrSeg, ps: nat, p: nat, m: nat)
    requires ps > 0 && cur.start % ps == 0 && win.start % ps == 0
    requires cur.size == p * ps && win.size == m * ps && p > 0 && m > 0
    ensures var a, b := cur.start / ps, win.start / ps;
      && (Intersects(cur, win) <==> a < b + m && b < a + p)
      && HistOffset(cur, win, ps) == Max(a, b) - b
      && SegOffset(cur, win, ps) == Max(a, b) - a
      && InterPages(cur, win, ps) == Min(a + p, b + m) - Max(a, b)
  {
    var a, b := cur.start / ps, win.start / ps;
    MultipleIs(cur.start, ps);
    MultipleIs(win.start, ps);
    MulAdd(a, p, ps);
    MulAdd(b, m, ps);
    ScaleCompare(a, b, ps);
    ScaleCompare(a, b + m, ps);
    ScaleCompare(b, a + p, ps);
    ScaleCompare(a + p, b + m, ps);
    ScaleDiff(Max(a, b), b, ps);
    ScaleDiff(Max(a, b), a, ps);
    ScaleDiff(Min(a + p, b + m), Max(a, b), ps);
  }

  lemma ScaleCompare(x: int, y: int, ps: nat)
    requires ps > 0
    ensures x < y <==> x * ps < y * ps
    ensures x == y <==> x * ps == y * ps
  {
    if x < y {
      MulMono(x + 1, y, ps);
      MulAdd(x, 1, ps);
    } else if y < x {
      MulMono(y + 1, x, ps);
      MulAdd(y, 1, ps);
    }
  }

  lemma ScaleDiff(x: int, y: int, ps: nat)
    requires ps > 0
    ensures (x * ps - y * ps) / ps == x - y
  {
    MulAdd(x, -y, ps);
    MulMod(x - y, ps);
  }

  /** What one segment's turn does to the counters. */
  function SegEffect(
      actc: map<int, seq<nat>>, rseg: Option<Segment>, cur: AddrSeg, win: AddrSeg, freq: seq<nat>, ps: nat,
      preceding: map<int, nat>): map<int, seq<nat>>
    requires ps > 0 && win.size == |freq| * ps
  {
    if rseg.None? || !Intersects(cur, win) then actc
    else
      OverlapInBuffer(cur, win, ps, |freq|);
      var n := rseg.value.node;
      if n !in actc || n !in preceding then actc
      else
        var at, pages := SegOffset(cur, win, ps) + preceding[n], InterPages(cur, win, ps);
        if at + pages > |actc[n]| then actc
        else actc[n := Bumped(actc[n], at, HistOffset(cur, win, ps), pages, freq)]
  }

  class HistDevs {
    /** Counters per node; a node without a histogram device has no entry. */
    var actc: map<int, seq<nat>>

    constructor (counts: map<int, nat>)
      ensures actc.Keys == counts.Keys
      ensures forall n | n in counts :: actc[n] == seq(counts[n], _ => 0)
    {
      actc := map n | n in counts :: seq(counts[n], _ => 0);
    }

    /** Adds one compressed sample per page, saturating. */
    method DoActcUpdate(node: int, at: nat, hist: nat, pages: nat, freq: seq<nat>)
      requires node in actc && at + pages <= |actc[node]| && hist + pages <= |freq|
      requires forall i | 0 <= i < |freq| :: freq[i] < U16
      modifies this
      ensures actc == old(actc)[node := Bumped(old(actc)[node], at, hist, pages, freq)]
      ensures forall i | at <= i < at + pages :: SampleAdded(old(actc)[node][i], actc[node][i], freq[hist + (i - at)])
    {
      ghost var was := actc[node];
      assert Bumped(was, at, hist, 0, freq) == was;
      for j := 0 to pages
        invariant node in actc && actc == old(actc)[node := Bumped(was, at, hist, j, freq)]
      {
        var buf := actc[node];
        var c := Compress(freq[hist + j]);
        var sum := buf[at + j] + c;
        buf := buf[at + j := if sum < 255 then sum else 255];
        assert buf == Bumped(was, at, hist, j + 1, freq);
        actc := actc[node := buf];
      }
      BumpedAdds(was, at, hist, pages, freq);
    }

    /** One segment against one window. */
    method UpdateSeg(list: seq<Segment>, cur: AddrSeg, win: AddrSeg, freq: seq<nat>, ps: nat, preceding: map<int, nat>)
      returns (preceding': map<int, nat>)
      requires ps > 0 && win.size == |freq| * ps && forall i | 0 <= i < |freq| :: freq[i] < U16
      requires forall i | 0 <= i < |list| :: list[i].node in preceding
      modifies this
      ensures var rseg := FindRseg(list, cur.start);
        && actc == SegEffect(old(actc), rseg, cur, win, freq, ps, preceding)
        && (rseg.None? ==> preceding' == preceding)
        && (rseg.Some? ==> rseg.value.node in preceding)
        && (rseg.Some? ==>
            preceding' == preceding[rseg.value.node := preceding[rseg.value.node] + cur.size / ps])
    {
      preceding' := preceding;
      var rseg := FindRseg(list, cur.start);
      FindRsegMember(list, cur.start);
      if rseg.None? {
        return;
      }
      var n := rseg.value.node;
      DivMono(0, cur.size, ps);
      preceding' := preceding[n := preceding[n] + cur.size / ps];
      if !Intersects(cur, win) || n !in actc {
        return;
      }
      OverlapInBuffer(cur, win, ps, |freq|);
      var interStart := Max(cur.start, win.start);
      var interEnd := Min(cur.End(), win.End());
      var histOffset := (interStart - win.start) / ps;
      var segOffset := (interStart - cur.start) / ps + preceding[n];
      var interPages := (interEnd - interStart + 1) / ps;
      if segOffset + interPages > |actc[n]| {
        return;
      }
      DoActcUpdate(n, segOffset, histOffset, interPages, freq);
    }

    /** Segment `i`'s turn in the loop below. */
    method UpdateTurn(
        all: seq<Segment>, ghost list: seq<Segment>, ghost i: nat, cur: AddrSeg, win: AddrSeg, freq: seq<nat>, ps: nat,
        preceding: map<int, nat>, ghost was: map<int, seq<nat>>) returns (preceding': map<int, nat>)
      requires Within(list, all) && AllNodes(preceding, all)
      requires ps > 0 && Ascending(list) && Addressable(list) && PageMultiple(list, ps) && i < |list|
      requires cur.start == list[i].start && cur.size == list[i].Len() && WindowOk(win, freq, ps)
      requires CountersFit(was, list, ps) && SampledUpTo(actc, was, list, i, ps, win, freq)
      requires Counted(preceding, list, i, ps)
      modifies this
      ensures SampledUpTo(actc, was, list, i + 1, ps, win, freq) && Counted(preceding', list, i + 1, ps)
      ensures AllNodes(preceding', all)
    {
      TurnAdvances(actc, was, list, i, cur, win, freq, ps, preceding);
      CountedStep(preceding, list, i, ps);
      assert FindRseg(all, cur.start) == Some(list[i]);
      preceding' := UpdateSeg(all, cur, win, freq, ps, preceding);
    }

    /**
     One window against the device's segments: every page in the window gets its sample, and no other
     page.  `all` is the whole iomem list, in which the node of a segment is looked up.
     */
    method UpdateActcDirect(
        rmem: seq<AddrSeg>, all: seq<Segment>, ghost list: seq<Segment>, win: AddrSeg, freq: seq<nat>, ps: nat)
      requires ps > 0 && Ascending(list) && Addressable(list) && PageMultiple(list, ps) && Within(list, all)
      requires Matches(rmem, list) && WindowOk(win, freq, ps) && CountersFit(actc, list, ps)
      modifies this
      ensures SampledUpTo(actc, old(actc), list, |list|, ps, win, freq)
    {
      var preceding := NonePreceding(all);
      NoneCounted(preceding, all, list, ps);
      for i := 0 to |rmem|
        invariant SampledUpTo(actc, old(actc), list, i, ps, win, freq)
        invariant Counted(preceding, list, i, ps) && AllNodes(preceding, all)
      {
        preceding := UpdateTurn(all, list, i, rmem[i], win, freq, ps, preceding, old(actc));
      }
    }
  }

  /**
   One direct pass that is not aborted: take the remote segments, plan, schedule, scan.  Every page of
   every remote node gets exactly one sample, the integer square root of its hardware count, added with
   saturation to the counter at the index that the remote translation gives for the page.
   */
  method DirectPass(
      devs: HistDevs, all: seq<Segment>, nrLocal: int, bas: seq<BaInfo>, m: nat, ps: nat, hw: nat -> nat)
    requires ps > 0 && m > 0 && Ascending(all) && PassReady(Remote(all, nrLocal), bas, m, ps)
    requires DevicesFit(devs.actc, all, nrLocal, ps) && forall a :: hw(a) < U16
    modifies devs
    ensures PassDone(devs.actc, old(devs.actc), all, ps, hw)
  {
    var list := Remote(all, nrLocal);
    RemoteWithin(all, nrLocal);
    RemoteFit(devs.actc, all, nrLocal, ps);
    ghost var was := devs.actc;
    RemotePass(devs, all, list, bas, m, ps, hw);
    PassOnAll(devs.actc, was, all, nrLocal, ps, hw);
  }

  /** The pass over the device's segments. */
  method RemotePass(
      devs: HistDevs, all: seq<Segment>, list: seq<Segment>, bas: seq<BaInfo>, m: nat, ps: nat, hw: nat -> nat)
    requires ps > 0 && m > 0 && PassReady(list, bas, m, ps) && CountersFit(devs.actc, list, ps) && Within(list, all)
    requires forall a :: hw(a) < U16
    modifies devs
    ensures PassDone(devs.actc, old(devs.actc), list, ps, hw)
  {
    var rmem := AddrSegsOf(list);
    var plan := GenerateAlignedScanWins(rmem, m * ps, bas);
    if plan.None? {
      return;
    }
    var wins := plan.value;
    PlanIsReady(list, bas, wins, m, ps);
    var order := ScanOrder(BaTags(bas), WinTags(wins));
    ghost var was := devs.actc;
    ScanWindows(devs, rmem, all, list, wins, order, m, ps, hw);
    PassEnd(devs.actc, was, list, bas, wins, order, m, ps, hw);
  }

  /** Histogram devices belong to remote nodes and have one counter per page; every remote node has one. */
  ghost predicate DevicesFit(actc: map<int, seq<nat>>, all: seq<Segment>, nrLocal: int, ps: nat)
    requires ps > 0
  {
    && (forall i | 0 <= i < |all| && all[i].node >= nrLocal :: all[i].node in actc)
    && (forall n | n in actc :: n >= nrLocal && |actc[n]| == PageCount(all, n, ps))
  }

  lemma {:induction false} RemoteFit(actc: map<int, seq<nat>>, all: seq<Segment>, nrLocal: int, ps: nat)
    requires ps > 0 && DevicesFit(actc, all, nrLocal, ps)
    ensures CountersFit(actc, Remote(all, nrLocal), ps)
  {
    forall i | 0 <= i < |Remote(all, nrLocal)|
      ensures Remote(all, nrLocal)[i].node in actc
    {
      RemoteMember(all, nrLocal, i);
    }
    forall n | n in actc
      ensures |actc[n]| == PageCount(Remote(all, nrLocal), n, ps)
    {
      RemoteNumbers(all, nrLocal, n, ps);
    }
  }

  lemma {:induction false} RemoteWithin(all: seq<Segment>, nrLocal: int)
    requires Ascending(all)
    ensures Within(Remote(all, nrLocal), all)
  {
    forall i | 0 <= i < |Remote(all, nrLocal)|
      ensures FindRseg(all, Remote(all, nrLocal)[i].start) == Some(Remote(all, nrLocal)[i])
    {
      RemoteMember(all, nrLocal, i);
      var j :| 0 <= j < |all| && all[j] == Remote(all, nrLocal)[i];
      FindRsegIs(all, j);
    }
  }

  /** What holds of the device's segments holds of the whole list. */
  lemma {:induction false} PassOnAll(
      actc: map<int, seq<nat>>, was: map<int, seq<nat>>, all: seq<Segment>, nrLocal: int, ps: nat, hw: nat -> nat)
    requires ps > 0 && Ascending(all) && (forall n | n in was :: n >= nrLocal)
    requires PassDone(actc, was, Remote(all, nrLocal), ps, hw)
    ensures PassDone(actc, was, all, ps, hw)
  {
    var list := Remote(all, nrLocal);
    forall n, k: nat | n in was && k < PageCount(all, n, ps)
      ensures PageBumped(actc, was, all, ps, hw, n, k)
    {
      RemoteNumbers(all, nrLocal, n, ps);
      assert PageBumped(actc, was, list, ps, hw, n, k);
      RemoteByteAt(all, nrLocal, n, (k * ps) % U64);
      var a: nat := PageAddr(list, n, k, ps).value;
      OnAll(all, nrLocal, a, ps);
    }
  }

  /** An address of a remote segment is found in the whole list, with the same index. */
  lemma {:induction false} OnAll(all: seq<Segment>, nrLocal: int, a: nat, ps: nat)
    requires ps > 0 && Ascending(all) && WholePageIndex(Remote(all, nrLocal), a, ps).Some?
    ensures WholePageIndex(all, a, ps) == WholePageIndex(Remote(all, nrLocal), a, ps)
  {
    var i := SegAt(Remote(all, nrLocal), a);
    RemoteMember(all, nrLocal, i);
    var j :| 0 <= j < |all| && all[j] == Remote(all, nrLocal)[i];
    SegAtUnique(all, a, j);
    RemoteIndex(all, nrLocal, a, ps);
  }

  /** Page `k` of node `n` is the page with that index and has one sample more. */
  ghost predicate PageBumped(
      actc: map<int, seq<nat>>, was: map<int, seq<nat>>, list: seq<Segment>, ps: nat, hw: nat -> nat, n: int, k: nat)
    requires ps > 0
  {
    && n in actc && n in was && k < |actc[n]| && k < |was[n]|
    && var a := PageAddr(list, n, k, ps);
       && a.Some? && a.value >= 0
       && WholePageIndex(list, a.value, ps) == Some((n, k))
       && SampleAdded(was[n][k], actc[n][k], hw(a.value))
  }

  /** Every page, its index and its new counter. */
  ghost predicate PassDone(
      actc: map<int, seq<nat>>, was: map<int, seq<nat>>, list: seq<Segment>, ps: nat, hw: nat -> nat)
    requires ps > 0
  {
    && actc.Keys == was.Keys
    && forall n, k: nat | n in was && k < PageCount(list, n, ps) :: PageBumped(actc, was, list, ps, hw, n, k)
  }

  /** The scan loop: one window after the other in the order of the schedule. */
  method ScanWindows(
      devs: HistDevs, rmem: seq<AddrSeg>, all: seq<Segment>, ghost list: seq<Segment>, wins: seq<AddrSeg>,
      order: seq<nat>, m: nat, ps: nat, hw: nat -> nat)
    requires Within(list, all)
    requires ps > 0 && m > 0 && Ascending(list) && Addressable(list) && PageMultiple(list, ps)
    requires Matches(rmem, list) && CountersFit(devs.actc, list, ps)
    requires Windowed(wins, m, ps) && EachOnce(order, |wins|) && forall a :: hw(a) < U16
    modifies devs
    ensures PassState(devs.actc, old(devs.actc), list, ps, wins, order, |order|, hw)
  {
    ghost var was := devs.actc;
    PassStart(was, list, ps, wins, order, hw);
    for x := 0 to |order|
      invariant PassState(devs.actc, was, list, ps, wins, order, x, hw)
    {
      var win := wins[order[x]];
      var freq := Counts(hw, win.start, m, ps);
      ghost var before := devs.actc;
      assert WindowOk(win, freq, ps);
      devs.UpdateActcDirect(rmem, all, list, win, freq, ps);
      PassStep(devs.actc, before, was, list, ps, wins, order, x, m, hw);
    }
  }

  lemma {:induction false} PassEnd(
      actc: map<int, seq<nat>>, was: map<int, seq<nat>>, list: seq<Segment>, bas: seq<BaInfo>, wins: seq<AddrSeg>,
      order: seq<nat>, m: nat, ps: nat, hw: nat -> nat)
    requires ps > 0 && m > 0 && Ascending(list) && Addressable(list) && PageMultiple(list, ps)
    requires Planned(wins, AddrSegsOf(list), m * ps, bas) && EachOnce(order, |wins|) && CountersFit(was, list, ps)
    requires PassState(actc, was, list, ps, wins, order, |order|, hw)
    ensures PassDone(actc, was, list, ps, hw)
  {
    forall n, k: nat | n in was && k < PageCount(list, n, ps) ensures PageBumped(actc, was, list, ps, hw, n, k) {
      PageIsThere(list, n, k, ps);
      var a := PageAddr(list, n, k, ps).value;
      assert InDone(wins, order, |order|, a) by {
        PageIsPlanned(list, bas, wins, order, m, ps, a);
      }
      SampleIsAdded(was[n][k], hw(a));
    }
  }

  lemma PassStart(
      was: map<int, seq<nat>>, list: seq<Segment>, ps: nat, wins: seq<AddrSeg>, order: seq<nat>, hw: nat -> nat)
    requires ps > 0 && Ascending(list) && Addressable(list) && PageMultiple(list, ps) && CountersFit(was, list, ps)
    ensures PassState(was, was, list, ps, wins, order, 0, hw)
  {
    forall n, k: nat | n in was && k < |was[n]|
      ensures PageAddr(list, n, k, ps).Some? && PageAddr(list, n, k, ps).value >= 0
    {
      PageIsThere(list, n, k, ps);
    }
  }

  /** The zeroed page counts before the first segment. */
  function NonePreceding(all: seq<Segment>): (r: map<int, nat>)
    ensures AllNodes(r, all) && forall n | n in r :: r[n] == 0
  {
    var nodes := set i | 0 <= i < |all| :: all[i].node;
    map n | n in nodes :: 0
  }

  /** Every node of the list has a count. */
  predicate AllNodes(preceding: map<int, nat>, all: seq<Segment>) {
    forall i | 0 <= i < |all| :: all[i].node in preceding
  }

  /** Every segment of `list` is the one that a search of `all` by its start finds. */
  ghost predicate Within(list: seq<Segment>, all: seq<Segment>) {
    forall i | 0 <= i < |list| :: FindRseg(all, list[i].start) == Some(list[i])
  }

  lemma {:induction false} NoneCounted(preceding: map<int, nat>, all: seq<Segment>, list: seq<Segment>, ps: nat)
    requires ps > 0 && Within(list, all) && AllNodes(preceding, all) && forall n | n in preceding :: preceding[n] == 0
    ensures Counted(preceding, list, 0, ps)
  {
    forall i | 0 <= i < |list|
      ensures list[i].node in preceding
    {
      FindRsegMember(all, list[i].start);
    }
    assert list[..0] == [];
  }

  lemma CountedStep(preceding: map<int, nat>, list: seq<Segment>, i: nat, ps: nat)
    requires ps > 0 && Ascending(list) && i < |list| && Counted(preceding, list, i, ps)
    ensures 0 <= list[i].Len() / ps
    ensures Counted(preceding[list[i].node := preceding[list[i].node] + list[i].Len() / ps], list, i + 1, ps)
  {
    DivMono(0, list[i].Len(), ps);
    forall n | n in preceding
      ensures WholePages(list[..i + 1], n, ps)
           == WholePages(list[..i], n, ps) + (if list[i].node == n then list[i].Len() / ps else 0)
    {
      PageCountStep(list, n, ps, i);
    }
  }

  lemma FindRsegMember(list: seq<Segment>, start: nat)
    ensures FindRseg(list, start).Some? ==>
      exists i :: 0 <= i < |list| && list[i] == FindRseg(list, start).value && list[i].start == start
  {
    if list != [] && list[0].start != start {
      FindRsegMember(list[1..], start);
    }
  }

  lemma {:induction false} FindRsegIs(list: seq<Segment>, i: nat)
    requires Ascending(list) && i < |list|
    ensures FindRseg(list, list[i].start) == Some(list[i])
  {
    if i > 0 {
      var rest := list[1..];
      assert forall k | 0 <= k < |rest| :: rest[k] == list[k + 1];
      FindRsegIs(rest, i - 1);
    }
  }

  // ---------------------------------------------------------------- one window, all segments

  /** The planner's segments are the remote list's segments. */
  ghost predicate Matches(rmem: seq<AddrSeg>, list: seq<Segment>) {
    |rmem| == |list| &&
    forall i | 0 <= i < |list| :: rmem[i].start == list[i].start && rmem[i].size == list[i].Len()
  }

  /** A window of whole pages with one 16-bit count per page. */
  ghost predicate WindowOk(win: AddrSeg, freq: seq<nat>, ps: nat)
    requires ps > 0
  {
    && win.start % ps == 0 && win.size == |freq| * ps && |freq| > 0
    && forall i | 0 <= i < |freq| :: freq[i] < U16
  }

  /** Every node of the list has its counters, one per page. */
  ghost predicate CountersFit(actc: map<int, seq<nat>>, list: seq<Segment>, ps: nat)
    requires ps > 0
  {
    && (forall i | 0 <= i < |list| :: list[i].node in actc)
    && (forall n | n in actc :: |actc[n]| == PageCount(list, n, ps))
  }

  /** Counter of page `k` of node `n` after the window: one more sample if the page lies in it. */
  function Sampled(list: seq<Segment>, n: int, k: nat, ps: nat, was: nat, win: AddrSeg, freq: seq<nat>): nat
    requires ps > 0
  {
    var a := PageAddr(list, n, k, ps);
    if a.Some? && win.start <= a.value <= win.End() then
      var j := (a.value - win.start) / ps;
      if 0 <= j < |freq| then Sat(was + ISqrt(freq[j])) else was
    else was
  }

  /** The address of a page, by its segment. */
  lemma {:induction false} PageOfSegment(list: seq<Segment>, i: nat, j: nat, ps: nat)
    requires ps > 0 && Ascending(list) && Addressable(list) && PageMultiple(list, ps) && i < |list|
    requires j < list[i].Len() / ps
    ensures var n := list[i].node;
      PageAddr(list, n, WholePages(list[..i], n, ps) + j, ps) == Some(list[i].start + j * ps)
  {
    var n, len := list[i].node, list[i].Len();
    var wp, o := WholePages(list[..i], n, ps), j * ps;
    assert (wp + j) * ps == BytesOf(list[..i], n) + o by {
      BytesMultiple(list[..i], n, ps);
      MultipleIs(BytesOf(list[..i], n), ps);
      MulAdd(wp, j, ps);
    }
    assert 0 <= o < len by {
      MultipleIs(len, ps);
      MulMono(j + 1, len / ps, ps);
      MulAdd(j, 1, ps);
    }
    SegAtUnique(list, list[i].end, i);
    ByteBelow(list, list[i].end, o);
    PageAddrAt(list, n, wp + j, ps, BytesOf(list[..i], n) + o);
  }

  /** Which counters a segment's turn touches, and with which sample. */
  lemma {:induction false} TurnInPages(list: seq<Segment>, i: nat, cur: AddrSeg, win: AddrSeg, freq: seq<nat>, ps: nat, x: nat)
    requires ps > 0 && Ascending(list) && Addressable(list) && PageMultiple(list, ps) && i < |list|
    requires cur.start == list[i].start && cur.size == list[i].Len() && WindowOk(win, freq, ps)
    requires WholePages(list[..i], list[i].node, ps) <= x < WholePages(list[..i], list[i].node, ps) + list[i].Len() / ps
    ensures var n, wp := list[i].node, WholePages(list[..i], list[i].node, ps);
      var at := wp + SegOffset(cur, win, ps);
      var a := PageAddr(list, n, x, ps);
      && a.Some?
      && (win.start <= a.value <= win.End() <==>
          Intersects(cur, win) && at <= x < at + InterPages(cur, win, ps))
      && (win.start <= a.value <= win.End() ==>
          (a.value - win.start) / ps == HistOffset(cur, win, ps) + (x - at))
  {
    var n, wp := list[i].node, WholePages(list[..i], list[i].node, ps);
    var p, m, j := list[i].Len() / ps, |freq|, x - wp;
    PageOfSegment(list, i, j, ps);
    MultipleIs(list[i].Len(), ps);
    PageUnits(cur, win, ps, p, m);
    PageInWindow(cur, win, ps, m, j);
  }

  /** Page `j` of the segment against the window, in whole pages. */
  lemma PageInWindow(cur: AddrSeg, win: AddrSeg, ps: nat, m: nat, j: nat)
    requires ps > 0 && cur.start % ps == 0 && win.start % ps == 0 && win.size == m * ps
    ensures var a, b, addr := cur.start / ps, win.start / ps, cur.start + j * ps;
      && (win.start <= addr <= win.End() <==> b <= a + j < b + m)
      && (addr - win.start) / ps == a + j - b
  {
    var a, b := cur.start / ps, win.start / ps;
    MultipleIs(cur.start, ps);
    MultipleIs(win.start, ps);
    MulAdd(a, j, ps);
    MulAdd(b, m, ps);
    ScaleCompare(a + j, b, ps);
    ScaleCompare(a + j, b + m, ps);
    ScaleDiff(a + j, b, ps);
  }

  /** The pages of segment `i` fit the counters of its node. */
  lemma SegmentFits(list: seq<Segment>, i: nat, ps: nat)
    requires ps > 0 && Ascending(list) && PageMultiple(list, ps) && i < |list|
    ensures var n, wp := list[i].node, WholePages(list[..i], list[i].node, ps);
      0 <= wp && wp + list[i].Len() / ps == WholePages(list[..i + 1], n, ps) <= PageCount(list, n, ps)
  {
    var n := list[i].node;
    PageCountStep(list, n, ps, i);
    PageCountMono(list, n, ps, i + 1);
    BytesMultiple(list[..i + 1], n, ps);
    AscendingPrefix(list, i);
    BytesWithinPages(list[..i], n, ps);
  }

  /** A segment's turn samples exactly the pages of the segment that lie in the window. */
  lemma {:induction false} TurnSamples(
      list: seq<Segment>, i: nat, cur: AddrSeg, win: AddrSeg, freq: seq<nat>, ps: nat, buf: seq<nat>, x: nat)
    requires ps > 0 && Ascending(list) && Addressable(list) && PageMultiple(list, ps) && i < |list|
    requires cur.start == list[i].start && cur.size == list[i].Len() && WindowOk(win, freq, ps)
    requires |buf| == PageCount(list, list[i].node, ps) && x < |buf|
    ensures var n, wp := list[i].node, WholePages(list[..i], list[i].node, ps);
      var at, pages := SegOffset(cur, win, ps) + wp, InterPages(cur, win, ps);
      var want := if wp <= x < wp + list[i].Len() / ps then Sampled(list, n, x, ps, buf[x], win, freq) else buf[x];
      && (!Intersects(cur, win) ==> want == buf[x])
      && (Intersects(cur, win) ==>
          && 0 <= at && 0 <= pages && at + pages <= |buf|
          && 0 <= HistOffset(cur, win, ps) && HistOffset(cur, win, ps) + pages <= |freq|
          && Bumped(buf, at, HistOffset(cur, win, ps), pages, freq)[x] == want)
  {
    var n, wp := list[i].node, WholePages(list[..i], list[i].node, ps);
    SegmentFits(list, i, ps);
    MultipleIs(list[i].Len(), ps);
    PositiveMultiple(list[i].Len(), ps);
    DivMono(ps, list[i].Len(), ps);
    PageUnits(cur, win, ps, list[i].Len() / ps, |freq|);
    if Intersects(cur, win) {
      OverlapInBuffer(cur, win, ps, |freq|);
    }
    if wp <= x < wp + list[i].Len() / ps {
      TurnInPages(list, i, cur, win, freq, ps, x);
    }
  }

  /** The pages of the first `i` segments have had this window's samples, the others have not. */
  ghost predicate SampledUpTo(
      actc: map<int, seq<nat>>, was: map<int, seq<nat>>, list: seq<Segment>, i: nat, ps: nat, win: AddrSeg, freq: seq<nat>)
    requires ps > 0 && i <= |list|
  {
    && actc.Keys == was.Keys
    && (forall n | n in was :: |actc[n]| == |was[n]|)
    && (forall n, k: nat | n in was && k < |was[n]| ::
        actc[n][k] == if k < WholePages(list[..i], n, ps) then Sampled(list, n, k, ps, was[n][k], win, freq) else was[n][k])
  }

  /** Whole pages before segment `i`, per node. */
  ghost predicate Counted(preceding: map<int, nat>, list: seq<Segment>, i: nat, ps: nat)
    requires ps > 0 && i <= |list|
  {
    && (forall j | 0 <= j < |list| :: list[j].node in preceding)
    && (forall n | n in preceding :: preceding[n] == WholePages(list[..i], n, ps))
  }

  /** One counter before and after segment `i`'s turn. */
  lemma {:induction false} TurnAt(
      r: map<int, seq<nat>>, actc: map<int, seq<nat>>, list: seq<Segment>, i: nat, cur: AddrSeg,
      win: AddrSeg, freq: seq<nat>, ps: nat, preceding: map<int, nat>, n: int, k: nat)
    requires ps > 0 && Ascending(list) && Addressable(list) && PageMultiple(list, ps) && i < |list|
    requires cur.start == list[i].start && cur.size == list[i].Len() && WindowOk(win, freq, ps)
    requires CountersFit(actc, list, ps) && Counted(preceding, list, i, ps)
    requires r == SegEffect(actc, Some(list[i]), cur, win, freq, ps, preceding)
    requires n in actc && k < |actc[n]|
    ensures r.Keys == actc.Keys && |r[n]| == |actc[n]|
    ensures r[n][k] == if WholePages(list[..i], n, ps) <= k < WholePages(list[..i + 1], n, ps)
                       then Sampled(list, n, k, ps, actc[n][k], win, freq) else actc[n][k]
  {
    EffectIs(actc, list, i, cur, win, freq, ps, preceding);
    PageCountStep(list, n, ps, i);
    if n == list[i].node {
      TurnSamples(list, i, cur, win, freq, ps, actc[n], k);
    }
  }

  lemma {:induction false} TurnAdvances(
      actc: map<int, seq<nat>>, was: map<int, seq<nat>>, list: seq<Segment>, i: nat, cur: AddrSeg,
      win: AddrSeg, freq: seq<nat>, ps: nat, preceding: map<int, nat>)
    requires ps > 0 && Ascending(list) && Addressable(list) && PageMultiple(list, ps) && i < |list|
    requires cur.start == list[i].start && cur.size == list[i].Len() && WindowOk(win, freq, ps)
    requires CountersFit(was, list, ps) && SampledUpTo(actc, was, list, i, ps, win, freq)
    requires Counted(preceding, list, i, ps)
    ensures SampledUpTo(SegEffect(actc, Some(list[i]), cur, win, freq, ps, preceding), was, list, i + 1, ps, win, freq)
  {
    var r := SegEffect(actc, Some(list[i]), cur, win, freq, ps, preceding);
    assert CountersFit(actc, list, ps);
    assert r.Keys == was.Keys && forall n | n in was :: |r[n]| == |was[n]| by {
      EffectIs(actc, list, i, cur, win, freq, ps, preceding);
    }
    forall n, k: nat | n in was && k < |was[n]|
      ensures r[n][k] == if k < WholePages(list[..i + 1], n, ps)
                         then Sampled(list, n, k, ps, was[n][k], win, freq) else was[n][k]
    {
      TurnAt(r, actc, list, i, cur, win, freq, ps, preceding, n, k);
      WholeGrows(list, n, ps, i);
    }
  }

  lemma WholeGrows(list: seq<Segment>, n: int, ps: nat, i: nat)
    requires ps > 0 && Ascending(list) && i < |list|
    ensures WholePages(list[..i], n, ps) <= WholePages(list[..i + 1], n, ps)
  {
    PageCountStep(list, n, ps, i);
    DivMono(0, list[i].Len(), ps);
  }

  /** Rounding parts down never gives more than rounding the whole. */
  lemma PartsFit(x: nat, y: nat, len: nat, ps: nat)
    requires ps > 0 && x + y <= len
    ensures 0 <= x / ps && 0 <= y / ps && x / ps + y / ps <= len / ps
  {
    DivBounds(x, ps);
    DivAddMul(x / ps, x % ps + y, ps);
    DivMono(y, x % ps + y, ps);
    DivMono(x + y, len, ps);
    DivMono(0, x, ps);
    DivMono(0, y, ps);
  }

  /**
   The counters that a segment's turn names exist: with one counter per page, each segment rounded up, the
   buffer is never exceeded, whole pages or not.
   */
  lemma {:induction false} NeverExceeds(list: seq<Segment>, i: nat, cur: AddrSeg, win: AddrSeg, ps: nat)
    requires ps > 0 && Ascending(list) && i < |list| && cur.start == list[i].start && cur.size == list[i].Len()
    requires win.size > 0 && Intersects(cur, win)
    ensures 0 <= SegOffset(cur, win, ps) && 0 <= InterPages(cur, win, ps) && 0 <= WholePages(list[..i], list[i].node, ps)
    ensures SegOffset(cur, win, ps) + WholePages(list[..i], list[i].node, ps) + InterPages(cur, win, ps)
      <= PageCount(list, list[i].node, ps)
  {
    var n, len := list[i].node, list[i].Len();
    PartsFit(Max(cur.start, win.start) - cur.start, Min(cur.End(), win.End()) - Max(cur.start, win.start) + 1, len, ps);
    PageCeilCovers(len, ps);
    AscendingPrefix(list, i);
    BytesWithinPages(list[..i], n, ps);
    PageCountStep(list, n, ps, i);
    PageCountMono(list, n, ps, i + 1);
  }

  /** With counters for every page the buffer-exceeded branch is not taken. */
  lemma {:induction false} EffectIs(
      actc: map<int, seq<nat>>, list: seq<Segment>, i: nat, cur: AddrSeg,
      win: AddrSeg, freq: seq<nat>, ps: nat, preceding: map<int, nat>)
    requires ps > 0 && Ascending(list) && i < |list|
    requires cur.start == list[i].start && cur.size == list[i].Len() && win.size == |freq| * ps && |freq| > 0
    requires list[i].node in actc && |actc[list[i].node]| == PageCount(list, list[i].node, ps)
    requires Counted(preceding, list, i, ps)
    ensures var n := list[i].node;
      var at, pages, hist := SegOffset(cur, win, ps) + preceding[n], InterPages(cur, win, ps), HistOffset(cur, win, ps);
      SegEffect(actc, Some(list[i]), cur, win, freq, ps, preceding)
      == if Intersects(cur, win) && 0 <= at && 0 <= pages && 0 <= hist && hist + pages <= |freq|
         then actc[n := Bumped(actc[n], at, hist, pages, freq)] else actc
  {
    assert win.size > 0 by {
      MulMono(1, |freq|, ps);
    }
    if Intersects(cur, win) {
      OverlapInBuffer(cur, win, ps, |freq|);
      NeverExceeds(list, i, cur, win, ps);
    }
  }

  // ---------------------------------------------------------------- the whole pass

  /** addr_segs_init: segments as planner segments; the list is sorted by start already. */
  function AddrSegsOf(list: seq<Segment>): (r: seq<AddrSeg>)
    requires Ascending(list)
    ensures Matches(r, list) && Sorted(r)
  {
    seq(|list|, i requires 0 <= i < |list| => AddrSeg(list[i].start, list[i].Len(), 0, 0))
  }

  /** The window's hardware counts: entry j is the count of its j-th page. */
  function Counts(hw: nat -> nat, start: nat, n: nat, ps: nat): (r: seq<nat>)
    ensures |r| == n
  {
    seq(n, j requires 0 <= j < n => hw(start + j * ps))
  }

  /** The address lies in one of the first `x` windows of the order. */
  ghost predicate InDone(wins: seq<AddrSeg>, order: seq<nat>, x: nat, a: int) {
    exists y :: 0 <= y < x <= |order| && order[y] < |wins| &&
      wins[order[y]].start <= a <= wins[order[y]].End()
  }

  /** Pages in the windows done so far have one more sample, the others are as before. */
  ghost predicate PassState(
      actc: map<int, seq<nat>>, was: map<int, seq<nat>>, list: seq<Segment>, ps: nat,
      wins: seq<AddrSeg>, order: seq<nat>, x: nat, hw: nat -> nat)
    requires ps > 0
  {
    && actc.Keys == was.Keys
    && (forall n | n in was :: |actc[n]| == |was[n]|)
    && (forall n, k: nat | n in was && k < |was[n]| ::
        && PageAddr(list, n, k, ps).Some? && PageAddr(list, n, k, ps).value >= 0
        && actc[n][k] == if InDone(wins, order, x, PageAddr(list, n, k, ps).value)
                         then Sat(was[n][k] + ISqrt(hw(PageAddr(list, n, k, ps).value))) else was[n][k])
  }

  /** A page of a node has an aligned address whose index is the page's. */
  lemma {:induction false} PageIsThere(list: seq<Segment>, n: int, k: nat, ps: nat)
    requires ps > 0 && Ascending(list) && Addressable(list) && PageMultiple(list, ps)
    requires k < PageCount(list, n, ps)
    ensures var a := PageAddr(list, n, k, ps);
      && a.Some? && a.value >= 0 && a.value % ps == 0
      && SegAt(list, a.value) >= 0 && WholePageIndex(list, a.value, ps) == Some((n, k))
  {
    IndexRange(list, n, k, ps);
    InverseThenForward(list, n, k, ps);
    var a: nat := PageAddr(list, n, k, ps).value;
    TranslatorsAgree(list, a, ps);
    ForwardThenInverse(list, a, ps);
  }

  /** The sample taken for a page of the window is the page's hardware count. */
  lemma SampleIsCount(hw: nat -> nat, win: AddrSeg, m: nat, ps: nat, a: nat)
    requires ps > 0 && win.start % ps == 0 && a % ps == 0 && win.size == m * ps
    requires win.start <= a <= win.End()
    ensures var j := (a - win.start) / ps; 0 <= j < m && Counts(hw, win.start, m, ps)[j] == hw(a)
  {
    var j := a / ps - win.start / ps;
    assert a - win.start == j * ps by {
      MultipleIs(win.start, ps);
      MultipleIs(a, ps);
      MulAdd(a / ps, -(win.start / ps), ps);
    }
    MulMod(j, ps);
    ScaleCompare(j, m, ps);
    ScaleCompare(j, 0, ps);
  }

  /** Windows of the plan: aligned, whole, disjoint. */
  ghost predicate Windowed(wins: seq<AddrSeg>, m: nat, ps: nat)
    requires ps > 0
  {
    && (forall i | 0 <= i < |wins| :: wins[i].start % ps == 0 && wins[i].size == m * ps)
    && (forall i, j | 0 <= i < j < |wins| :: wins[i].start + m * ps <= wins[j].start)
  }

  lemma {:induction false} PassStep(
      actc: map<int, seq<nat>>, before: map<int, seq<nat>>, was: map<int, seq<nat>>, list: seq<Segment>, ps: nat,
      wins: seq<AddrSeg>, order: seq<nat>, x: nat, m: nat, hw: nat -> nat)
    requires ps > 0 && Ascending(list) && Addressable(list) && PageMultiple(list, ps) && CountersFit(was, list, ps)
    requires Windowed(wins, m, ps) && EachOnce(order, |wins|) && x < |order|
    requires PassState(before, was, list, ps, wins, order, x, hw)
    requires SampledUpTo(actc, before, list, |list|, ps, wins[order[x]], Counts(hw, wins[order[x]].start, m, ps))
    ensures PassState(actc, was, list, ps, wins, order, x + 1, hw)
  {
    var win := wins[order[x]];
    forall n, k: nat | n in was && k < |was[n]|
      ensures var a := PageAddr(list, n, k, ps);
        && a.Some? && a.value >= 0
        && actc[n][k] == if InDone(wins, order, x + 1, a.value) then Sat(was[n][k] + ISqrt(hw(a.value))) else was[n][k]
    {
      PageIsThere(list, n, k, ps);
      BytesMultiple(list, n, ps);
      assert list[..|list|] == list;
      DoneStep(wins, order, x, m, ps, PageAddr(list, n, k, ps).value);
      if win.start <= PageAddr(list, n, k, ps).value <= win.End() {
        SampleIsCount(hw, win, m, ps, PageAddr(list, n, k, ps).value);
      }
    }
  }

  /** The next window is new: no page in it has been sampled. */
  lemma DoneStep(wins: seq<AddrSeg>, order: seq<nat>, x: nat, m: nat, ps: nat, a: int)
    requires ps > 0 && Windowed(wins, m, ps) && EachOnce(order, |wins|) && x < |order|
    ensures var win := wins[order[x]];
      && (win.start <= a <= win.End() ==> !InDone(wins, order, x, a))
      && (InDone(wins, order, x + 1, a) <==> InDone(wins, order, x, a) || win.start <= a <= win.End())
  {
    var win := wins[order[x]];
    if win.start <= a <= win.End() && InDone(wins, order, x, a) {
      assert false;
    }
  }

  /** What the pass relies on: windows of whole pages, distinct BA tags, every window start in some BA. */
  ghost predicate PassReady(list: seq<Segment>, bas: seq<BaInfo>, m: nat, ps: nat)
    requires ps > 0 && m > 0
  {
    && Ascending(list) && Addressable(list) && PageMultiple(list, ps)
    && DistinctTags(BaTags(bas))
    && forall a: nat :: a % (m * ps) == 0 && Touches(AddrSegsOf(list), a, m * ps) ==> CalcBaTag(bas, a).Some?
  }

  /** The tags of BAs, or of windows. */
  function TagsOf<T>(s: seq<T>, tag: T -> nat): (r: seq<nat>)
    ensures |r| == |s| && forall i | 0 <= i < |s| :: r[i] == tag(s[i])
  {
    seq(|s|, i requires 0 <= i < |s| => tag(s[i]))
  }

  function BaTags(bas: seq<BaInfo>): (r: seq<nat>)
    ensures |r| == |bas| && forall i | 0 <= i < |bas| :: r[i] == bas[i].tag
  {
    TagsOf(bas, (b: BaInfo) => b.tag)
  }

  function WinTags(wins: seq<AddrSeg>): (r: seq<nat>)
    ensures |r| == |wins| && forall i | 0 <= i < |wins| :: r[i] == wins[i].tag
  {
    TagsOf(wins, (w: AddrSeg) => w.tag)
  }

  lemma CalcBaTagKnown(bas: seq<BaInfo>, a: nat)
    requires CalcBaTag(bas, a).Some?
    ensures CalcBaTag(bas, a).value in BaTags(bas)
  {
    if bas[0].Covers(a) {
      assert BaTags(bas)[0] == bas[0].tag;
    } else {
      CalcBaTagKnown(bas[1..], a);
      var i :| 0 <= i < |bas| - 1 && BaTags(bas[1..])[i] == CalcBaTag(bas, a).value;
      assert BaTags(bas)[i + 1] == CalcBaTag(bas, a).value;
    }
  }

  /** A planned window is an aligned window of `m` pages that some BA covers. */
  lemma {:induction false} PlannedWindow(list: seq<Segment>, bas: seq<BaInfo>, wins: seq<AddrSeg>, m: nat, ps: nat, i: nat)
    requires ps > 0 && m > 0 && PassReady(list, bas, m, ps)
    requires Planned(wins, AddrSegsOf(list), m * ps, bas) && i < |wins|
    ensures wins[i].start % (m * ps) == 0 && wins[i].size == m * ps
    ensures CalcBaTag(bas, wins[i].start) == Some(wins[i].tag)
  {
    assert HasWindow(wins, wins[i].start);
  }

  lemma MultipleOfPages(a: nat, m: nat, ps: nat)
    requires ps > 0 && m > 0 && a % (m * ps) == 0
    ensures a % ps == 0
  {
    MultipleIs(a, m * ps);
    assert a == (a / (m * ps)) * m * ps;
    MulMod((a / (m * ps)) * m, ps);
  }

  /** The planned windows are what the pass needs. */
  lemma {:induction false} PlanIsReady(list: seq<Segment>, bas: seq<BaInfo>, wins: seq<AddrSeg>, m: nat, ps: nat)
    requires ps > 0 && m > 0 && PassReady(list, bas, m, ps)
    requires Planned(wins, AddrSegsOf(list), m * ps, bas)
    ensures Windowed(wins, m, ps)
    ensures forall i | 0 <= i < |wins| :: WinTags(wins)[i] in BaTags(bas)
  {
    forall i | 0 <= i < |wins|
      ensures wins[i].start % ps == 0 && wins[i].size == m * ps && WinTags(wins)[i] in BaTags(bas)
    {
      PlannedWindow(list, bas, wins, m, ps, i);
      CalcBaTagKnown(bas, wins[i].start);
      MultipleOfPages(wins[i].start, m, ps);
    }
  }

  /** Every page of the list lies in some planned window. */
  lemma {:induction false} PageIsPlanned(
      list: seq<Segment>, bas: seq<BaInfo>, wins: seq<AddrSeg>, order: seq<nat>, m: nat, ps: nat, a: nat)
    requires ps > 0 && m > 0 && Ascending(list) && Planned(wins, AddrSegsOf(list), m * ps, bas)
    requires EachOnce(order, |wins|) && SegAt(list, a) >= 0
    ensures InDone(wins, order, |order|, a)
  {
    PlanCovers(wins, AddrSegsOf(list), m * ps, bas, SegAt(list, a), a);
    var k :| 0 <= k < |wins| && wins[k].start <= a < wins[k].start + wins[k].size;
    assert k in order;
    var y :| 0 <= y < |order| && order[y] == k;
  }
}
