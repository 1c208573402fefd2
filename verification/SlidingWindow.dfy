/**
 Statistic scans (accessed_bit.c, access_ioctl.c): a ring of per-scan windows, filled by a two-pointer
 merge and summed in chunks, counts in how many of the last scans a page was young.
 */
module SlidingWindow {
  import opened Arith
  import opened Common

  const TRUE_REF: nat := 1
  const DEFAULT_REF_COUNT: nat := 0
  const SCHEDULE_INTERVAL: nat := 100000

  // ---------------------------------------------------------------- the order of the tracked addresses

  datatype Hva = Hva(va: nat, nid: int)

  /** hva_cmp: local nodes first, then by address. */
  function HvaCmp(x: Hva, y: Hva, locals: int): int {
    if x.nid < locals && y.nid >= locals then -1
    else if x.nid >= locals && y.nid < locals then 1
    else if x.va < y.va then -1
    else if x.va > y.va then 1
    else 0
  }

  ghost predicate HvaSorted(hs: seq<Hva>, locals: int) {
    forall i, j | 0 <= i < j < |hs| :: HvaCmp(hs[i], hs[j], locals) <= 0
  }

  /** Pages on local nodes. */
  function LocalCount(hs: seq<Hva>, locals: int): (n: nat)
    ensures n <= |hs|
  {
    if |hs| == 0 then 0
    else LocalCount(hs[..|hs| - 1], locals) + (if hs[|hs| - 1].nid < locals then 1 else 0)
  }

  ghost predicate Strict(s: seq<nat>) {
    forall i, j | 0 <= i < j < |s| :: s[i] < s[j]
  }

  ghost predicate Sorted(s: seq<nat>) {
    forall i, j | 0 <= i < j < |s| :: s[i] <= s[j]
  }

  function Vas(hs: seq<Hva>): (vs: seq<nat>)
    ensures |vs| == |hs| && forall i | 0 <= i < |hs| :: vs[i] == hs[i].va
  {
    seq(|hs|, i requires 0 <= i < |hs| => hs[i].va)
  }

  /** In a list sorted this way the local pages come first. */
  lemma {:induction false} LocalsFirst(hs: seq<Hva>, locals: int)
    requires HvaSorted(hs, locals)
    ensures forall i | 0 <= i < |hs| :: hs[i].nid < locals <==> i < LocalCount(hs, locals)
    decreases |hs|
  {
    if hs != [] {
      var front, last := hs[..|hs| - 1], hs[|hs| - 1];
      LocalsFirst(front, locals);
      assert forall i | 0 <= i < |front| :: hs[i] == front[i];
      if last.nid < locals {
        forall i | 0 <= i < |front|
          ensures hs[i].nid < locals
        {
          assert HvaCmp(hs[i], last, locals) <= 0;
        }
      }
    }
  }

  /** So the local page count splits the address vector into two strictly ascending arrays, one per level. */
  lemma SplitByLevel(hs: seq<Hva>, locals: int)
    requires HvaSorted(hs, locals)
    requires forall i, j | 0 <= i < j < |hs| :: hs[i].va != hs[j].va
    ensures var n := LocalCount(hs, locals);
      Strict(Vas(hs)[..n]) && Strict(Vas(hs)[n..]) && forall i | 0 <= i < |hs| :: hs[i].nid < locals <==> i < n
  {
    LocalsFirst(hs, locals);
    forall i, j | 0 <= i < j < |hs| && (hs[i].nid < locals) == (hs[j].nid < locals)
      ensures hs[i].va < hs[j].va
    {
      assert HvaCmp(hs[i], hs[j], locals) <= 0;
    }
  }

  // ---------------------------------------------------------------- one scan

  /** The address is young, and above every address collected before it. */
  ghost predicate Seen(young: seq<nat>, a: nat) {
    exists v :: 0 <= v < |young| && young[v] == a && forall u | 0 <= u < v :: young[u] < a
  }

  /** In an ascending list every address is seen. */
  lemma SortedSeesAll(young: seq<nat>, a: nat)
    requires Sorted(young)
    ensures Seen(young, a) <==> a in young
  {
    if a in young {
      FirstOf(young, a);
    }
  }

  lemma {:induction false} FirstOf(young: seq<nat>, a: nat)
    requires a in young
    ensures exists v :: 0 <= v < |young| && young[v] == a && a !in young[..v]
    decreases |young|
  {
    var n := |young| - 1;
    if a in young[..n] {
      FirstOf(young[..n], a);
      var v :| 0 <= v < n && young[..n][v] == a && a !in young[..n][..v];
      assert young[..n][..v] == young[..v];
    } else {
      assert young[n] == a;
    }
  }

  /**
   The two-pointer merge sets the reference of every tracked address it sees, and of no other, whatever
   the order of the young addresses.
   */
  method MarkLevel(window: seq<nat>, base: nat, addrs: seq<nat>, young: seq<nat>) returns (w: seq<nat>)
    requires base + |addrs| <= |window| && Strict(addrs)
    ensures |w| == |window|
    ensures forall p | 0 <= p < |w| && !(base <= p < base + |addrs|) :: w[p] == window[p]
    ensures forall p | base <= p < base + |addrs| ::
      w[p] == if Seen(young, addrs[p - base]) then TRUE_REF else window[p]
  {
    w := window;
    var v, k := 0, 0;
    while v < |young| && k < |addrs|
      invariant 0 <= v <= |young| && 0 <= k <= |addrs| && |w| == |window|
      invariant forall p | 0 <= p < |w| && !(base <= p < base + k) :: w[p] == window[p]
      invariant forall u, i | 0 <= u < v && k <= i < |addrs| :: young[u] < addrs[i]
      invariant forall p | base <= p < base + k ::
        w[p] == if Seen(young, addrs[p - base]) then TRUE_REF else window[p]
      decreases |young| - v + |addrs| - k
    {
      if young[v] == addrs[k] {
        assert Seen(young, addrs[k]);
        w := w[base + k := TRUE_REF];
        k := k + 1;
        v := v + 1;
      } else if young[v] < addrs[k] {
        v := v + 1;
      } else {
        assert !Seen(young, addrs[k]);
        k := k + 1;
      }
    }
  }

  /** The references of one scan. */
  ghost function Marks(addrs: seq<nat>, young: seq<nat>): (m: seq<nat>)
    ensures |m| == |addrs|
  {
    seq(|addrs|, i requires 0 <= i < |addrs| => if Seen(young, addrs[i]) then TRUE_REF else DEFAULT_REF_COUNT)
  }

  function Zeros(n: nat): (z: seq<nat>)
    ensures |z| == n && forall i | 0 <= i < n :: z[i] == DEFAULT_REF_COUNT
  {
    seq(n, _ => DEFAULT_REF_COUNT)
  }

  // ---------------------------------------------------------------- sums and counts

  ghost predicate Wide(ws: seq<seq<nat>>, n: nat) {
    forall j | 0 <= j < |ws| :: |ws[j]| == n
  }

  /** Sum of column `i`. */
  function SumAt(ws: seq<seq<nat>>, i: nat): nat
    requires forall j | 0 <= j < |ws| :: i < |ws[j]|
  {
    if |ws| == 0 then 0 else SumAt(ws[..|ws| - 1], i) + ws[|ws| - 1][i]
  }

  lemma {:induction false} SumUpdate(ws: seq<seq<nat>>, k: nat, v: seq<nat>, i: nat)
    requires k < |ws| && i < |v| && forall j | 0 <= j < |ws| :: i < |ws[j]|
    ensures SumAt(ws[k := v], i) == SumAt(ws, i) - ws[k][i] + v[i]
    decreases |ws|
  {
    var n := |ws| - 1;
    if k == n {
      assert ws[k := v][..n] == ws[..n];
    } else {
      assert ws[k := v][..n] == ws[..n][k := v];
      SumUpdate(ws[..n], k, v, i);
    }
  }

  lemma {:induction false} SumZeros(ws: seq<seq<nat>>, n: nat, i: nat)
    requires i < n && Wide(ws, n) && forall j | 0 <= j < |ws| :: ws[j][i] == 0
    ensures SumAt(ws, i) == 0
    decreases |ws|
  {
    if ws != [] {
      SumZeros(ws[..|ws| - 1], n, i);
    }
  }

  /** Number of scans that saw the address. */
  ghost function Count(hist: seq<seq<nat>>, a: nat): nat {
    if |hist| == 0 then 0 else Count(hist[..|hist| - 1], a) + (if Seen(hist[|hist| - 1], a) then 1 else 0)
  }

  /** Number of scans in which the address was young. */
  function Young(hist: seq<seq<nat>>, a: nat): nat {
    if |hist| == 0 then 0 else Young(hist[..|hist| - 1], a) + (if a in hist[|hist| - 1] then 1 else 0)
  }

  /** Every scan in which the address was young saw it. */
  ghost predicate SeenWheneverYoung(hist: seq<seq<nat>>, a: nat) {
    forall s | 0 <= s < |hist| && a in hist[s] :: Seen(hist[s], a)
  }

  /** The count is the number of scans in which the address was young iff it was seen whenever it was young. */
  lemma {:induction false} CountIsYoungIff(hist: seq<seq<nat>>, a: nat)
    ensures Count(hist, a) <= Young(hist, a)
    ensures Count(hist, a) == Young(hist, a) <==> SeenWheneverYoung(hist, a)
    decreases |hist|
  {
    if hist != [] {
      var n := |hist| - 1;
      CountIsYoungIff(hist[..n], a);
      assert forall s | 0 <= s < n :: hist[..n][s] == hist[s];
      assert Seen(hist[n], a) ==> a in hist[n];
    }
  }

  /** In particular when every scan collects addresses in ascending order. */
  lemma CountSorted(hist: seq<seq<nat>>, a: nat)
    requires forall s | 0 <= s < |hist| :: Sorted(hist[s])
    ensures Count(hist, a) == Young(hist, a)
  {
    forall s | 0 <= s < |hist| && a in hist[s]
      ensures Seen(hist[s], a)
    {
      SortedSeesAll(hist[s], a);
    }
    CountIsYoungIff(hist, a);
  }

  lemma {:induction false} YoungBound(hist: seq<seq<nat>>, a: nat)
    ensures Young(hist, a) <= |hist|
    decreases |hist|
  {
    if |hist| > 0 {
      YoungBound(hist[..|hist| - 1], a);
    }
  }

  /** With fewer than 2^16 windows the 16-bit report is the number of young scans iff each of them saw the address. */
  lemma {:induction false} ReportIsYoungIff(hist: seq<seq<nat>>, a: nat)
    requires |hist| < U16
    ensures Count(hist, a) % U16 == Young(hist, a) <==> SeenWheneverYoung(hist, a)
  {
    CountIsYoungIff(hist, a);
    YoungBound(hist, a);
  }

  /** Out of order, a young page can be missed. */
  lemma UnsortedMisses()
    ensures var hist := [[0x40_0000, 0x20_0000]]; Young(hist, 0x20_0000) == 1 && Count(hist, 0x20_0000) == 0
  {
    var hist := [[0x40_0000, 0x20_0000]];
    assert hist[..0] == [];
    assert hist[0][0] == 0x40_0000;
    assert !Seen(hist[0], 0x20_0000);
  }

  lemma {:induction false} CountDropFirst(hist: seq<seq<nat>>, a: nat)
    requires |hist| > 0
    ensures Count(hist, a) == (if Seen(hist[0], a) then 1 else 0) + Count(hist[1..], a)
    decreases |hist|
  {
    var n := |hist| - 1;
    if n > 0 {
      CountDropFirst(hist[..n], a);
      assert hist[..n][1..] == hist[1..][..n - 1];
    }
  }

  /** The last `w` scans, or all if there are fewer. */
  function Last(hist: seq<seq<nat>>, w: nat): seq<seq<nat>> {
    if |hist| <= w then hist else hist[|hist| - w..]
  }

  /** One more scan enters the last `w`, and the one `w` before it leaves. */
  lemma LastSnoc(hist: seq<seq<nat>>, w: nat, young: seq<nat>, a: nat)
    requires w > 0
    ensures Count(Last(hist + [young], w), a) == Count(Last(hist, w), a) + (if Seen(young, a) then 1 else 0)
      - (if |hist| >= w && Seen(hist[|hist| - w], a) then 1 else 0)
  {
    var l := Last(hist, w);
    var more := l + [young];
    assert more[..|l|] == l;
    if |hist| >= w {
      assert Last(hist + [young], w) == more[1..];
      CountDropFirst(more, a);
    } else {
      assert Last(hist + [young], w) == more;
    }
  }

  lemma {:induction false} ModStep(n: nat, w: nat)
    requires w > 0
    ensures (n + 1) % w == (n % w + 1) % w
    ensures n >= w ==> (n - w) % w == n % w
    ensures n < w ==> n % w == n
  {
    RemIs(n, w);
    RemIs(n + 1, w);
    RemNext(n, w);
    RemIs(Rem(n, w) + 1, w);
    if n >= w {
      RemIs(n - w, w);
    }
  }

  lemma {:induction false} RemNext(n: nat, w: nat)
    requires w > 0
    ensures Rem(n + 1, w) == Rem(Rem(n, w) + 1, w)
  {
    if n >= w {
      RemNext(n - w, w);
    }
  }

  // ---------------------------------------------------------------- the ring

  /** The windows hold the marks of the last scans, each in the slot of its number; the rest are zero. */
  ghost predicate Ring(ws: seq<seq<nat>>, scan: nat, addrs: seq<nat>, hist: seq<seq<nat>>) {
    && |ws| > 0 && scan == |hist| % |ws| && Wide(ws, |addrs|)
    && (forall s | 0 <= s < |hist| && |hist| <= s + |ws| :: ws[s % |ws|] == Marks(addrs, hist[s]))
    && (forall j | |hist| <= j < |ws| :: ws[j] == Zeros(|addrs|))
  }

  /** The columns add up to the number of recent scans that saw each address. */
  ghost predicate Adds(ws: seq<seq<nat>>, addrs: seq<nat>, hist: seq<seq<nat>>)
    requires Wide(ws, |addrs|)
  {
    forall i | 0 <= i < |addrs| :: SumAt(ws, i) == Count(Last(hist, |ws|), addrs[i])
  }

  lemma {:induction false} ScanKeepsRing(ws: seq<seq<nat>>, scan: nat, addrs: seq<nat>, hist: seq<seq<nat>>, young: seq<nat>)
    requires Ring(ws, scan, addrs, hist)
    ensures Ring(ws[scan := Marks(addrs, young)], (scan + 1) % |ws|, addrs, hist + [young])
  {
    var n, w, more := |hist|, |ws|, hist + [young];
    var ws' := ws[scan := Marks(addrs, young)];
    ModStep(n, w);
    forall s | 0 <= s < |more| && |more| <= s + w
      ensures ws'[s % w] == Marks(addrs, more[s])
    {
      if s < n {
        ModApart(s, n, w);
        assert more[s] == hist[s];
      }
    }
  }

  lemma {:induction false} ScanKeepsAdds(ws: seq<seq<nat>>, scan: nat, addrs: seq<nat>, hist: seq<seq<nat>>, young: seq<nat>)
    requires Ring(ws, scan, addrs, hist) && Adds(ws, addrs, hist)
    ensures Adds(ws[scan := Marks(addrs, young)], addrs, hist + [young])
  {
    var n, w := |hist|, |ws|;
    var ws' := ws[scan := Marks(addrs, young)];
    ModStep(n, w);
    forall i | 0 <= i < |addrs|
      ensures SumAt(ws', i) == Count(Last(hist + [young], w), addrs[i])
    {
      SumUpdate(ws, scan, Marks(addrs, young), i);
      LastSnoc(hist, w, young, addrs[i]);
      if n >= w {
        assert ws[(n - w) % w] == Marks(addrs, hist[n - w]);
      }
    }
  }

  /** struct statistics_tracking_info of one process. */
  class Tracking {
    const l1: seq<nat>
    const l2: seq<nat>
    var windows: seq<seq<nat>>
    var scanNum: nat
    /** Young addresses of every scan so far. */
    ghost var hist: seq<seq<nat>>

    ghost predicate Valid()
      reads this
    {
      Strict(l1) && Strict(l2) && Ring(windows, scanNum, l1 + l2, hist) && Adds(windows, l1 + l2, hist)
    }

    constructor (local: seq<nat>, remote: seq<nat>, windowNum: nat)
      requires Strict(local) && Strict(remote) && windowNum > 0
      ensures Valid() && l1 == local && l2 == remote && |windows| == windowNum && hist == []
    {
      l1, l2, scanNum, hist := local, remote, 0, [];
      windows := seq(windowNum, _ => Zeros(|local| + |remote|));
      new;
      forall i | 0 <= i < |l1 + l2|
        ensures SumAt(windows, i) == Count(Last(hist, |windows|), (l1 + l2)[i])
      {
        SumZeros(windows, |l1 + l2|, i);
      }
    }

    /** One scan: clear the current window, mark the young addresses of both levels, move to the next window. */
    method Scan(young: seq<nat>)
      requires Valid()
      modifies this
      ensures Valid() && hist == old(hist) + [young] && |windows| == old(|windows|)
    {
      var addrs := l1 + l2;
      ScanKeepsRing(windows, scanNum, addrs, hist, young);
      ScanKeepsAdds(windows, scanNum, addrs, hist, young);
      var w := Zeros(|l1| + |l2|);
      w := MarkLevel(w, 0, l1, young);
      w := MarkLevel(w, |l1|, l2, young);
      assert w == Marks(addrs, young);
      windows := windows[scanNum := w];
      scanNum := (scanNum + 1) % |windows|;
      hist := hist + [young];
    }

    /** Adds every window's reference of page `p`; 16-bit addition. */
    method AddColumn(data: array<nat>, p: nat)
      requires p < data.Length && data[p] < U16 && forall j | 0 <= j < |windows| :: p < |windows[j]|
      modifies data
      ensures data[p] == (old(data[p]) + SumAt(windows, p)) % U16
      ensures forall q | 0 <= q < data.Length && q != p :: data[q] == old(data[q])
    {
      var j := 0;
      while j < |windows|
        invariant 0 <= j <= |windows|
        invariant data[p] == (old(data[p]) + SumAt(windows[..j], p)) % U16
        invariant forall q | 0 <= q < data.Length && q != p :: data[q] == old(data[q])
      {
        assert windows[..j + 1][..j] == windows[..j];
        data[p] := (data[p] + windows[j][p]) % U16;
        j := j + 1;
      }
      assert windows[..j] == windows;
    }

    /** From `base`, pages below `upto` have their sum added, the others are as they were. */
    ghost predicate Added(data: seq<nat>, base: seq<nat>, upto: nat)
      requires Wide(windows, |l1| + |l2|)
      reads this
    {
      && |data| == |base| && upto <= |l1| + |l2| && upto <= |data|
      && (forall p | 0 <= p < |data| :: data[p] < U16)
      && (forall p | 0 <= p < upto :: data[p] == (base[p] + SumAt(windows, p)) % U16)
      && (forall p | upto <= p < |data| :: data[p] == base[p])
    }

    /** The loop over the pages from `lo` to `hi`. */
    method AddRange(data: array<nat>, lo: nat, hi: nat, ghost base: seq<nat>)
      requires Wide(windows, |l1| + |l2|) && lo <= hi <= data.Length && hi <= |l1| + |l2|
      requires Added(data[..], base, lo)
      modifies data
      ensures Added(data[..], base, hi)
    {
      var p := lo;
      while p < hi
        invariant lo <= p <= hi && Added(data[..], base, p)
      {
        AddColumn(data, p);
        p := p + 1;
      }
    }

    /** update_tracking_data: in chunks, then the rest. */
    method UpdateTrackingData(data: array<nat>, length: nat) returns (len: nat)
      requires Wide(windows, |l1| + |l2|) && data.Length == length && forall p | 0 <= p < data.Length :: data[p] < U16
      modifies data
      ensures len == if length > |l1| + |l2| then |l1| + |l2| else length
      ensures Added(data[..], old(data[..]), len)
    {
      len := if length > |l1| + |l2| then |l1| + |l2| else length;
      ghost var base := data[..];
      var idx := 0;
      while idx + SCHEDULE_INTERVAL <= len
        invariant 0 <= idx <= len && Added(data[..], base, idx)
      {
        AddRange(data, idx, idx + SCHEDULE_INTERVAL, base);
        idx := idx + SCHEDULE_INTERVAL;
      }
      AddRange(data, idx, len, base);
    }

    /**
     What user space is shown: for every page the number of the last window_num scans (or of all, if
     fewer) that saw its address, modulo 2^16; CountIsYoungIff says when that is the number in which it was young.
     */
    method GetTracking(length: nat) returns (r: Option<seq<nat>>)
      requires Valid()
      ensures r.None? <==> length == 0
      ensures r.Some? ==> |r.value| == if length > |l1| + |l2| then |l1| + |l2| else length
      ensures r.Some? ==> forall p | 0 <= p < |r.value| ::
        r.value[p] == Count(Last(hist, |windows|), (l1 + l2)[p]) % U16
      ensures r.Some? && |windows| < U16 ==> forall p | 0 <= p < |r.value| ::
        r.value[p] == Young(Last(hist, |windows|), (l1 + l2)[p]) <==> SeenWheneverYoung(Last(hist, |windows|), (l1 + l2)[p])
    {
      if length == 0 {
        return None;
      }
      var data := new nat[length](_ => 0);
      var len := UpdateTrackingData(data, length);
      ghost var last := Last(hist, |windows|);
      if |windows| < U16 {
        forall p | 0 <= p < len
          ensures Count(last, (l1 + l2)[p]) % U16 == Young(last, (l1 + l2)[p]) <==> SeenWheneverYoung(last, (l1 + l2)[p])
        {
          ReportIsYoungIff(last, (l1 + l2)[p]);
        }
      }
      return Some(data[..len]);
    }
  }
}
