/**
 Export of one record per tracked page and conversion of record positions back to physical addresses
 (access_pid.c).  Both sides count set bits, so position k names the same page on both.
 */
module Export {
  import opened Common
  import opened Bitmap
  import opened AccessPid

  /** One exported record; `prior` is the six-bit priority. */
  datatype ActcData = ActcData(freq: nat, prior: nat, whiteList: bool)

  /** A tracking device: its node and the access counters of the node's pages. */
  datatype AccessDev = AccessDev(node: int, actc: seq<nat>)

  /** Device `i` is the first one of node `nid`. */
  predicate DevOf(devs: seq<AccessDev>, nid: int, i: nat) {
    i < |devs| && devs[i].node == nid && forall j | 0 <= j < i :: devs[j].node != nid
  }

  /** The search for the device of a node: it finds the first one, and fails only if there is none. */
  function FindDev(devs: seq<AccessDev>, nid: int): (r: Option<AccessDev>)
    ensures r.Some? ==> exists i: nat :: DevOf(devs, nid, i) && r.value == devs[i]
    ensures r.None? ==> forall i | 0 <= i < |devs| :: devs[i].node != nid
  {
    if devs == [] then None
    else if devs[0].node == nid then
      assert DevOf(devs, nid, 0);
      Some(devs[0])
    else
      var r := FindDev(devs[1..], nid);
      FindLater(devs, nid);
      r
  }

  lemma FindLater(devs: seq<AccessDev>, nid: int)
    requires |devs| > 0 && devs[0].node != nid
    ensures forall i: nat | DevOf(devs[1..], nid, i) :: DevOf(devs, nid, i + 1) && devs[i + 1] == devs[1..][i]
  {
    forall i: nat | DevOf(devs[1..], nid, i)
      ensures DevOf(devs, nid, i + 1)
    {
      forall j | 0 <= j < i + 1
        ensures devs[j].node != nid
      {
        if j > 0 {
          assert devs[1..][j - 1] == devs[j];
        }
      }
    }
  }

  /** The first device of a node is what the search returns. */
  lemma {:induction false} FindDevIs(devs: seq<AccessDev>, nid: int, i: nat)
    requires DevOf(devs, nid, i)
    ensures FindDev(devs, nid) == Some(devs[i])
  {
    var r := FindDev(devs, nid);
    assert r.Some?;
    var k: nat :| DevOf(devs, nid, k) && r.value == devs[k];
  }

  /** Priority of record number `pos` of the process; 0 where the mapping has no entry. */
  function Prior(priors: seq<nat>, pos: nat): nat {
    if pos < |priors| then priors[pos] % 64 else 0
  }

  /** The record of page `acidx`, exported as record number `pos` of the process. */
  function Record(dev: AccessDev, white: seq<bool>, priors: seq<nat>, acidx: nat, pos: nat): ActcData
    requires acidx < |dev.actc| && acidx < |white|
  {
    ActcData(dev.actc[acidx], Prior(priors, pos), white[acidx])
  }

  /** Set bits that have a counter. */
  function Covered(bm: seq<bool>, pages: nat): nat {
    Rank(bm, if pages < |bm| then pages else |bm|)
  }

  lemma CoveredBits(bm: seq<bool>, pages: nat, k: nat)
    requires k < |SetBits(bm)|
    ensures k < Covered(bm, pages) <==> SetBits(bm)[k] < pages
  {
    RankSelect(bm, k);
    var i := SetBits(bm)[k];
    var m := if pages < |bm| then pages else |bm|;
    if i < m {
      RankStep(bm, i);
      RankPrefix(bm, i + 1, m);
    } else {
      RankPrefix(bm, m, i);
    }
  }

  /**
   Writes the records of one node at `actc[at..]`: record k belongs to the k-th set bit, for as many
   set bits as have a counter.
   */
  method FillActcDataByBitmap(
      pageNum: nat, bm: seq<bool>, white: seq<bool>, priors: seq<nat>, devs: seq<AccessDev>, nid: int,
      actc: array<ActcData>, at: nat, mappingOffset: nat) returns (len: nat)
    requires |white| == |bm| && at + pageNum <= actc.Length
    modifies actc
    ensures var dev := FindDev(devs, nid);
      && (dev.None? ==> len == 0)
      && (dev.Some? ==>
        && len == (if pageNum < Covered(bm, |dev.value.actc|) then pageNum else Covered(bm, |dev.value.actc|))
        && len <= |SetBits(bm)|
        && forall k | 0 <= k < len ::
          && SetBits(bm)[k] < |dev.value.actc| && SetBits(bm)[k] < |white|
          && actc[at + k] == Record(dev.value, white, priors, SetBits(bm)[k], mappingOffset + k))
    ensures len <= pageNum
    ensures forall i | 0 <= i < actc.Length && !(at <= i < at + len) :: actc[i] == old(actc[i])
  {
    len := 0;
    var dev := FindDev(devs, nid);
    if pageNum == 0 || |bm| == 0 {
      return;
    }
    if dev.None? {
      return;
    }
    var pages := |dev.value.actc|;
    var acidx := 0;
    assert bm[..0] == [];
    RankWhole(bm);
    ghost var was := actc[..];
    while len < pageNum
      invariant len <= pageNum && acidx <= |bm| && acidx <= pages
      invariant len == Rank(bm, acidx) && Filled(actc[..], was, dev.value, bm, white, priors, at, mappingOffset, len)
      decreases pageNum - len
    {
      var next := FindNextBit(bm, acidx);
      RankSkip(bm, acidx, next);
      if next >= |bm| {
        RankPrefix(bm, acidx, if pages < |bm| then pages else |bm|);
        RankPrefix(bm, if pages < |bm| then pages else |bm|, |bm|);
        break;
      }
      SelectRank(bm, next);
      if next >= pages {
        RankPrefix(bm, acidx, pages);
        RankPrefix(bm, pages, next);
        break;
      }
      RankStep(bm, next);
      FilledStep(actc[..], was, dev.value, bm, white, priors, at, mappingOffset, len, next);
      actc[at + len] := ActcData(
        dev.value.actc[next],
        Prior(priors, mappingOffset + len),
        white[next]);
      len := len + 1;
      acidx := next + 1;
    }
    RankPrefix(bm, acidx, if pages < |bm| then pages else |bm|);
  }

  /** The first `len` records are written at `at`, and nothing else has changed. */
  ghost predicate Filled(
      now: seq<ActcData>, was: seq<ActcData>, dev: AccessDev, bm: seq<bool>, white: seq<bool>, priors: seq<nat>,
      at: nat, off: nat, len: nat)
  {
    && |now| == |was| && len <= |SetBits(bm)| && at + len <= |now|
    && (forall k | 0 <= k < len :: SetBits(bm)[k] < |dev.actc| && SetBits(bm)[k] < |white|)
    && (forall p | at <= p < at + len :: now[p] == Record(dev, white, priors, SetBits(bm)[p - at], off + p - at))
    && (forall p | 0 <= p < |now| && !(at <= p < at + len) :: now[p] == was[p])
  }

  lemma {:induction false} FilledStep(
      now: seq<ActcData>, was: seq<ActcData>, dev: AccessDev, bm: seq<bool>, white: seq<bool>, priors: seq<nat>,
      at: nat, off: nat, len: nat, next: nat)
    requires Filled(now, was, dev, bm, white, priors, at, off, len) && at + len < |now|
    requires len < |SetBits(bm)| && SetBits(bm)[len] == next && next < |dev.actc| && next < |white|
    ensures Filled(now[at + len := Record(dev, white, priors, next, off + len)], was, dev, bm, white, priors, at, off, len + 1)
  {
  }

  /** Sum of the first `n` entries. */
  function SumTo(s: seq<nat>, n: nat): nat
    requires n <= |s|
  {
    if n == 0 then 0 else SumTo(s, n - 1) + s[n - 1]
  }

  lemma SumMono(s: seq<nat>, n: nat, m: nat)
    requires n <= m <= |s|
    ensures SumTo(s, n) <= SumTo(s, m)
  {
  }

  lemma SumPrefix(s: seq<nat>, x: nat, n: nat)
    requires n <= |s|
    ensures SumTo(s + [x], n) == SumTo(s, n)
  {
  }

  /** Number of records node `n` exports. */
  function ExportLen(t: Tracked, devs: seq<AccessDev>, n: nat): nat
    requires n < |t.pageNum| == |t.paddr|
  {
    var dev := FindDev(devs, n);
    if dev.None? then 0
    else
      var c := Covered(t.paddr[n], |dev.value.actc|);
      if t.pageNum[n] < c then t.pageNum[n] else c
  }

  /** The records of node `n` lie in `out` at the node's page offset. */
  ghost predicate Exported(t: Tracked, devs: seq<AccessDev>, priors: seq<nat>, out: seq<ActcData>, lens: seq<nat>, n: nat)
  {
    && n < |t.pageNum| == |t.paddr| == |t.white| && n < |lens|
    && SumTo(t.pageNum, n) + t.pageNum[n] <= |out|
    && lens[n] == ExportLen(t, devs, n) <= t.pageNum[n]
    && lens[n] <= |SetBits(t.paddr[n])|
    && forall k | 0 <= k < lens[n] ::
      && FindDev(devs, n).Some?
      && SetBits(t.paddr[n])[k] < |FindDev(devs, n).value.actc|
      && SetBits(t.paddr[n])[k] < |t.white[n]|
      && out[SumTo(t.pageNum, n) + k]
         == Record(FindDev(devs, n).value, t.white[n], priors, SetBits(t.paddr[n])[k], SumTo(lens, n) + k)
  }

  /** What a record says, field by field. */
  lemma RecordFields(dev: AccessDev, white: seq<bool>, priors: seq<nat>, acidx: nat, pos: nat)
    requires acidx < |dev.actc| && acidx < |white|
    ensures var r := Record(dev, white, priors, acidx, pos);
      && r.freq == dev.actc[acidx] && r.whiteList == white[acidx]
      && 0 <= r.prior < 64 && (pos >= |priors| ==> r.prior == 0)
      && (pos < |priors| ==> (priors[pos] - r.prior) % 64 == 0)
  {
  }

  lemma {:induction false} ExportedFrame(
      t: Tracked, devs: seq<AccessDev>, priors: seq<nat>, out: seq<ActcData>, lens: seq<nat>,
      out': seq<ActcData>, x: nat, n: nat)
    requires |lens| < |t.pageNum| && n < |lens|
    requires Exported(t, devs, priors, out, lens, n) && |out'| == |out|
    requires forall i | 0 <= i < SumTo(t.pageNum, |lens|) && i < |out| :: out'[i] == out[i]
    ensures Exported(t, devs, priors, out', lens + [x], n)
  {
    SumMono(t.pageNum, n + 1, |lens|);
    SumPrefix(lens, x, n);
  }

  /** Records of one node, behind those of the nodes before it. */
  method FillNode(
      t: Tracked, priors: seq<nat>, devs: seq<AccessDev>, actc: array<ActcData>, ghost lens: seq<nat>,
      nid: nat, actcOffset: nat, mappingOffset: nat) returns (len: nat)
    requires WellFormed(t) && nid < MAX_NODES && |lens| == nid && actcOffset + t.pageNum[nid] <= actc.Length
    requires actcOffset == SumTo(t.pageNum, nid) && mappingOffset == SumTo(lens, nid)
    modifies actc
    ensures Exported(t, devs, priors, actc[..], lens + [len], nid)
    ensures forall i | 0 <= i < actcOffset :: actc[i] == old(actc[i])
  {
    len := FillActcDataByBitmap(
      t.pageNum[nid], t.paddr[nid], t.white[nid], priors, devs, nid, actc, actcOffset, mappingOffset);
    SumPrefix(lens, len, nid);
  }

  /** Records of all nodes, each node's at the sum of the page counts before it. */
  method FillPidActcData(t: Tracked, priors: seq<nat>, devs: seq<AccessDev>, actc: array<ActcData>)
    returns (lens: seq<nat>)
    requires WellFormed(t) && actc.Length == SumTo(t.pageNum, MAX_NODES)
    modifies actc
    ensures |lens| == MAX_NODES
    ensures forall n: nat | n < MAX_NODES :: Exported(t, devs, priors, actc[..], lens, n)
  {
    lens := [];
    var mappingOffset, actcOffset := 0, 0;
    for nid := 0 to MAX_NODES
      invariant |lens| == nid
      invariant actcOffset == SumTo(t.pageNum, nid) && mappingOffset == SumTo(lens, nid)
      invariant forall n: nat | n < nid :: Exported(t, devs, priors, actc[..], lens, n)
    {
      SumMono(t.pageNum, nid + 1, MAX_NODES);
      ghost var before := actc[..];
      var len := FillNode(t, priors, devs, actc, lens, nid, actcOffset, mappingOffset);
      forall n: nat | n < nid ensures Exported(t, devs, priors, actc[..], lens + [len], n) {
        ExportedFrame(t, devs, priors, before, lens, actc[..], len, n);
      }
      SumPrefix(lens, len, nid);
      lens := lens + [len];
      mappingOffset := mappingOffset + len;
      actcOffset := actcOffset + t.pageNum[nid];
    }
  }

  /** The devices have a counter for every tracked page. */
  ghost predicate DevsCover(t: Tracked, devs: seq<AccessDev>)
    requires |t.pageNum| == |t.paddr| == MAX_NODES
  {
    forall n | 0 <= n < MAX_NODES && t.pageNum[n] > 0 ::
      exists d: nat :: DevOf(devs, n, d) && CountersFor(t.paddr[n], devs[d])
  }

  /** The device has a counter for every set bit. */
  predicate CountersFor(bm: seq<bool>, dev: AccessDev) {
    forall i | 0 <= i < |bm| && bm[i] :: i < |dev.actc|
  }

  /** With a counter for every tracked page no record is left out: the over-range exit is not taken. */
  lemma ExportIsComplete(t: Tracked, devs: seq<AccessDev>, n: nat)
    requires WellFormed(t) && DevsCover(t, devs) && n < MAX_NODES
    ensures ExportLen(t, devs, n) == t.pageNum[n]
  {
    if t.pageNum[n] > 0 {
      var d: nat :| DevOf(devs, n, d) && CountersFor(t.paddr[n], devs[d]);
      FindDevIs(devs, n, d);
      var bm, pages := t.paddr[n], |devs[d].actc|;
      var k := t.pageNum[n] - 1;
      RankSelect(bm, k);
      CoveredBits(bm, pages, k);
    }
  }
}
