/**
 Planning of hardware scan windows (hist_ops.c): sorted remote segments are merged, aligned and cut
 into windows of `w` bytes.  The result is exactly the list of aligned windows that touch a segment.
 */
module HistPlan {
  import opened Arith
  import opened Common

  datatype AddrSeg = AddrSeg(start: nat, size: nat, max: nat, tag: nat) {
    /** Last byte, seg_end. */
    function End(): int {
      start + size - 1
    }
  }

  datatype Range = Range(start: nat, end: nat)

  datatype BaInfo = BaInfo(tag: nat, nc: Range, cc: Range) {
    predicate Covers(pa: nat) {
      cc.start <= pa < cc.end || nc.start <= pa < nc.end
    }
  }

  /** Tag of the first BA that covers the address. */
  function CalcBaTag(bas: seq<BaInfo>, pa: nat): Option<nat> {
    if bas == [] then None
    else if bas[0].Covers(pa) then Some(bas[0].tag)
    else CalcBaTag(bas[1..], pa)
  }

  /** BA `i` is the first one with the address in one of its two ranges. */
  predicate FirstBa(bas: seq<BaInfo>, pa: nat, i: nat) {
    && i < |bas| && (bas[i].nc.start <= pa < bas[i].nc.end || bas[i].cc.start <= pa < bas[i].cc.end)
    && forall j | 0 <= j < i ::
      !(bas[j].nc.start <= pa < bas[j].nc.end) && !(bas[j].cc.start <= pa < bas[j].cc.end)
  }

  /** The tag is that of the first such BA, and there is one exactly if a tag is found. */
  lemma {:induction false} CalcBaTagIs(bas: seq<BaInfo>, pa: nat)
    ensures CalcBaTag(bas, pa).Some? <==> exists i: nat :: FirstBa(bas, pa, i)
    ensures forall i: nat | FirstBa(bas, pa, i) :: CalcBaTag(bas, pa) == Some(bas[i].tag)
    decreases |bas|
  {
    if bas != [] {
      var rest := bas[1..];
      assert forall j | 0 <= j < |rest| :: rest[j] == bas[j + 1];
      CalcBaTagIs(rest, pa);
      if !FirstBa(bas, pa, 0) {
        assert forall i: nat :: FirstBa(rest, pa, i) <==> FirstBa(bas, pa, i + 1) by {
          forall i: nat ensures FirstBa(rest, pa, i) <==> FirstBa(bas, pa, i + 1) {
            FirstBaShift(bas, pa, i);
          }
        }
        if i: nat :| FirstBa(bas, pa, i) {
          assert FirstBa(rest, pa, i - 1);
        }
        forall i: nat | FirstBa(bas, pa, i) ensures CalcBaTag(bas, pa) == Some(bas[i].tag) {
          assert FirstBa(rest, pa, i - 1) && rest[i - 1] == bas[i];
        }
      }
    }
  }

  lemma {:induction false} FirstBaShift(bas: seq<BaInfo>, pa: nat, i: nat)
    requires |bas| > 0 && !FirstBa(bas, pa, 0)
    ensures FirstBa(bas[1..], pa, i) <==> FirstBa(bas, pa, i + 1)
  {
    var rest := bas[1..];
    assert forall j | 0 <= j < |rest| :: rest[j] == bas[j + 1];
    if FirstBa(bas, pa, i + 1) {
      forall j | 0 <= j < i
        ensures !(rest[j].nc.start <= pa < rest[j].nc.end) && !(rest[j].cc.start <= pa < rest[j].cc.end)
      {
        assert rest[j] == bas[j + 1];
      }
    }
    if FirstBa(rest, pa, i) {
      forall j | 0 <= j < i + 1
        ensures !(bas[j].nc.start <= pa < bas[j].nc.end) && !(bas[j].cc.start <= pa < bas[j].cc.end)
      {
        assert j > 0 ==> bas[j] == rest[j - 1];
      }
    }
  }

  // ---------------------------------------------------------------- window sizes

  function Pow2(k: nat): nat {
    if k == 0 then 1 else 2 * Pow2(k - 1)
  }

  lemma {:induction false} Pow2Mono(j: nat, k: nat)
    requires j <= k
    ensures 0 < Pow2(j) <= Pow2(k)
    decreases k
  {
    if j < k {
      Pow2Mono(j, k - 1);
    } else if j > 0 {
      Pow2Mono(j - 1, j - 1);
    }
  }

  /** The shift loop finds the exponent of a power of two. */
  method GetHistAddrShift(winSize: nat, ghost k: nat) returns (shift: nat)
    requires winSize == Pow2(k)
    ensures shift == k
  {
    shift := 0;
    var rest := winSize;
    Pow2Mono(0, k);
    while rest > 1
      invariant shift <= k && rest == Pow2(k - shift)
      decreases k - shift
    {
      rest := rest / 2;
      shift := shift + 1;
    }
    if shift < k {
      Pow2Mono(1, k - shift);
      assert false;
    }
  }

  /** Registers times page size, for both hardware types and both granularities. */
  lemma WindowSizesArePowers()
    ensures 8192 * 4096 == Pow2(25) && 32768 * 4096 == Pow2(27)
    ensures 8192 * 2097152 == Pow2(34) && 32768 * 2097152 == Pow2(36)
  {
    assert Pow2(5) == 32;
    assert Pow2(10) == 1024;
    assert Pow2(15) == 32768;
    assert Pow2(20) == 1048576;
    assert Pow2(25) == 33554432;
    assert Pow2(30) == 1073741824;
  }

  // ---------------------------------------------------------------- what is planned

  /** Segments are non-empty, ascending and disjoint. */
  ghost predicate Sorted(segs: seq<AddrSeg>) {
    && NonEmpty(segs)
    && (forall i, j | 0 <= i < j < |segs| :: segs[i].End() < segs[j].start)
  }

  predicate Touch(s: AddrSeg, a: nat, w: nat) {
    a <= s.End() && s.start < a + w
  }

  /** The window at `a` holds a byte of some segment. */
  predicate Touches(segs: seq<AddrSeg>, a: nat, w: nat) {
    |segs| > 0 && (Touch(segs[|segs| - 1], a, w) || Touches(segs[..|segs| - 1], a, w))
  }

  lemma {:induction false} TouchesIff(segs: seq<AddrSeg>, a: nat, w: nat)
    ensures Touches(segs, a, w) <==> exists i :: 0 <= i < |segs| && Touch(segs[i], a, w)
  {
    if |segs| > 0 {
      var n := |segs| - 1;
      TouchesIff(segs[..n], a, w);
      if i :| 0 <= i < n && Touch(segs[i], a, w) {
        assert segs[..n][i] == segs[i];
      }
    }
  }

  /** The neighbour is at most one window away. */
  predicate Continuous(s1: AddrSeg, s2: AddrSeg, w: nat) {
    s2.start - s1.End() <= w
  }

  /** `s1` extended over `s2`. */
  function Join(s1: AddrSeg, s2: AddrSeg): AddrSeg
    requires s1.size > 0
  {
    var end := if s1.End() >= s2.End() then s1.End() else s2.End();
    s1.(size := end - s1.start + 1)
  }

  /** The next segment joins the last merged one or starts a new one. */
  function MergeNext(m: seq<AddrSeg>, s: AddrSeg, w: nat): (r: seq<AddrSeg>)
    requires |m| > 0 && m[|m| - 1].size > 0
  {
    var l := |m| - 1;
    if Continuous(m[l], s, w) then m[..l] + [Join(m[l], s)] else m + [s]
  }

  /** Every segment has bytes. */
  ghost predicate NonEmpty(segs: seq<AddrSeg>) {
    forall i | 0 <= i < |segs| :: segs[i].size > 0
  }

  /** Left-to-right merging of close neighbours. */
  ghost function Merge(segs: seq<AddrSeg>, w: nat): (m: seq<AddrSeg>)
    requires |segs| > 0 && NonEmpty(segs)
    ensures 0 < |m| <= |segs| && NonEmpty(m)
  {
    if |segs| == 1 then segs
    else MergeNext(Merge(segs[..|segs| - 1], w), segs[|segs| - 1], w)
  }

  /** Neighbours are more than one window apart. */
  ghost predicate Apart(m: seq<AddrSeg>, w: nat) {
    forall i, j | 0 <= i < j < |m| :: m[i].End() + w < m[j].start
  }

  lemma MergeNextApart(m: seq<AddrSeg>, s: AddrSeg, w: nat)
    requires |m| > 0 && NonEmpty(m) && s.size > 0 && Apart(m, w) && m[|m| - 1].End() < s.start
    ensures var r := MergeNext(m, s, w);
      Apart(r, w) && r[|r| - 1].End() == s.End()
  {
    var l, r := |m| - 1, MergeNext(m, s, w);
    assert forall i | 0 <= i < l :: r[i] == m[i];
    assert forall i | 0 <= i < l :: m[i].End() + w < m[l].start;
    if !Continuous(m[l], s, w) {
      assert r[l] == m[l] && r[l + 1] == s;
    }
  }

  /** Merged segments are far apart and end where the input ends. */
  lemma {:induction false} MergeApart(segs: seq<AddrSeg>, w: nat)
    requires |segs| > 0 && Sorted(segs)
    ensures var m := Merge(segs, w);
      Apart(m, w) && m[|m| - 1].End() == segs[|segs| - 1].End()
  {
    var n := |segs| - 1;
    if n > 0 {
      MergeApart(segs[..n], w);
      MergeNextApart(Merge(segs[..n], w), segs[n], w);
    }
  }

  lemma TouchesSnoc(segs: seq<AddrSeg>, s: AddrSeg, a: nat, w: nat)
    ensures Touches(segs + [s], a, w) <==> Touches(segs, a, w) || Touch(s, a, w)
  {
    assert (segs + [s])[..|segs|] == segs;
  }

  /** No whole window fits into a gap that is closed. */
  lemma JoinTouch(s1: AddrSeg, s2: AddrSeg, a: nat, w: nat)
    requires s1.size > 0 && s2.size > 0 && s1.End() < s2.start && Continuous(s1, s2, w)
    ensures Touch(Join(s1, s2), a, w) <==> Touch(s1, a, w) || Touch(s2, a, w)
  {
  }

  lemma {:induction false} MergeStepTouches(m: seq<AddrSeg>, s: AddrSeg, a: nat, w: nat)
    requires |m| > 0 && m[|m| - 1].size > 0 && s.size > 0 && m[|m| - 1].End() < s.start
    ensures Touches(MergeNext(m, s, w), a, w) <==> Touches(m, a, w) || Touch(s, a, w)
  {
    var l := |m| - 1;
    if Continuous(m[l], s, w) {
      JoinTouch(m[l], s, a, w);
      TouchesSnoc(m[..l], Join(m[l], s), a, w);
      TouchesSnoc(m[..l], m[l], a, w);
      assert m == m[..l] + [m[l]];
    } else {
      TouchesSnoc(m, s, a, w);
    }
  }

  /** Merging adds no window and drops none. */
  lemma {:induction false} MergeTouches(segs: seq<AddrSeg>, a: nat, w: nat)
    requires |segs| > 0 && Sorted(segs)
    ensures Touches(Merge(segs, w), a, w) <==> Touches(segs, a, w)
  {
    var n := |segs| - 1;
    var front := segs[..n];
    assert segs == front + [segs[n]];
    if n > 0 {
      var m := Merge(front, w);
      assert m[|m| - 1].End() < segs[n].start by {
        MergeApart(front, w);
      }
      MergeTouches(front, a, w);
      MergeStepTouches(m, segs[n], a, w);
      TouchesSnoc(front, segs[n], a, w);
    }
  }

  // ---------------------------------------------------------------- windows of a segment

  /** Windows from the one that holds the first byte to the one that holds the last. */
  function WinCount(s: AddrSeg, w: nat): int
    requires w > 0
  {
    s.End() / w - s.start / w + 1
  }

  function CountWins(segs: seq<AddrSeg>, w: nat): int
    requires w > 0
  {
    if |segs| == 0 then 0
    else CountWins(segs[..|segs| - 1], w) + WinCount(segs[|segs| - 1], w)
  }

  /** The segment rounded out to whole windows. */
  function Align(s: AddrSeg, w: nat): (r: AddrSeg)
    requires w > 0 && s.size > 0
  {
    WinCountPos(s, w);
    s.(start := AlignDown(s.start, w), size := w * WinCount(s, w))
  }

  lemma WinCountPos(s: AddrSeg, w: nat)
    requires w > 0 && s.size > 0
    ensures WinCount(s, w) > 0
  {
    DivMono(s.start, s.End(), w);
  }

  /** Aligning changes neither the first window nor the number of windows. */
  lemma AlignSameWindows(s: AddrSeg, w: nat)
    requires w > 0 && s.size > 0
    ensures var r := Align(s, w);
      r.start % w == 0 && r.size % w == 0 && r.size > 0
      && r.start / w == s.start / w && WinCount(r, w) == WinCount(s, w)
  {
    var r, q, n := Align(s, w), s.start / w, WinCount(s, w);
    WinCountPos(s, w);
    MulMod(q, w);
    MulMod(n, w);
    MulAdd(q, n, w);
    DivUnique(r.End(), w, q + n - 1);
    MulAdd(q + n, -1, w);
  }

  /** Start addresses of all windows, segment by segment. */
  function Windows(segs: seq<AddrSeg>, w: nat): seq<int>
    requires w > 0
  {
    if |segs| == 0 then []
    else
      var s := segs[|segs| - 1];
      Windows(segs[..|segs| - 1], w) + WindowsOf(s.start / w, WinCount(s, w), w)
  }

  function WindowsOf(first: int, n: int, w: nat): seq<int>
    decreases n
  {
    if n <= 0 then [] else WindowsOf(first, n - 1, w) + [(first + n - 1) * w]
  }

  lemma {:induction false} WindowsOfAt(first: int, n: nat, w: nat, k: nat)
    requires k < n
    ensures |WindowsOf(first, n, w)| == n && WindowsOf(first, n, w)[k] == (first + k) * w
  {
    if n > 1 {
      WindowsOfAt(first, n - 1, w, if k < n - 1 then k else 0);
    }
  }

  lemma {:induction false} WindowsCount(segs: seq<AddrSeg>, w: nat)
    requires w > 0 && NonEmpty(segs)
    ensures |Windows(segs, w)| == CountWins(segs, w)
  {
    if |segs| > 0 {
      var s := segs[|segs| - 1];
      WindowsCount(segs[..|segs| - 1], w);
      WinCountPos(s, w);
      WindowsOfAt(s.start / w, WinCount(s, w), w, 0);
    }
  }

  /** The windows of one segment are the aligned windows that touch it. */
  lemma WindowsOfTouch(s: AddrSeg, w: nat, a: nat)
    requires w > 0 && s.size > 0
    ensures a in WindowsOf(s.start / w, WinCount(s, w), w) <==> a % w == 0 && Touch(s, a, w)
  {
    var q, n := s.start / w, WinCount(s, w);
    WinCountPos(s, w);
    DivBounds(s.start, w);
    DivBounds(s.End(), w);
    if a in WindowsOf(q, n, w) {
      WindowsOfAt(q, n, w, 0);
      var k :| 0 <= k < |WindowsOf(q, n, w)| && WindowsOf(q, n, w)[k] == a;
      WindowsOfAt(q, n, w, k);
      MulMod(q + k, w);
      MulMono(q, q + k, w);
      MulMono(q + k, s.End() / w, w);
    }
    if a % w == 0 && Touch(s, a, w) {
      MultipleIs(a, w);
      DivMono(a, s.End(), w);
      DivMono(s.start, a + w - 1, w);
      DivUnique(a + w - 1, w, a / w);
      WindowsOfAt(q, n, w, a / w - q);
    }
  }

  lemma {:induction false} WindowsTouch(segs: seq<AddrSeg>, w: nat, a: nat)
    requires w > 0 && NonEmpty(segs)
    ensures a in Windows(segs, w) <==> a % w == 0 && Touches(segs, a, w)
  {
    if |segs| > 0 {
      var n := |segs| - 1;
      WindowsTouch(segs[..n], w, a);
      WindowsOfTouch(segs[n], w, a);
      TouchesSnoc(segs[..n], segs[n], a, w);
      assert segs == segs[..n] + [segs[n]];
    }
  }

  /** Windows ascend by at least one window size. */
  ghost predicate Spaced(ws: seq<int>, w: nat) {
    forall i, j | 0 <= i < j < |ws| :: ws[i] + w <= ws[j]
  }

  lemma WindowsOfSpaced(first: int, n: nat, w: nat)
    ensures Spaced(WindowsOf(first, n, w), w)
  {
    var ws := WindowsOf(first, n, w);
    forall i, j | 0 <= i < j < |ws| ensures ws[i] + w <= ws[j] {
      WindowsOfLen(first, n, w);
      WindowsOfAt(first, n, w, i);
      WindowsOfAt(first, n, w, j);
      MulMono(first + i + 1, first + j, w);
      MulAdd(first + i, 1, w);
    }
  }

  lemma WindowsOfLen(first: int, n: nat, w: nat)
    ensures |WindowsOf(first, n, w)| == n
  {
  }

  /** Segments more than one window apart share no window. */
  lemma ApartWindows(e: int, start: nat, w: nat)
    requires w > 0 && 0 <= e && e + w < start
    ensures AlignDown(e, w) + w <= AlignDown(start, w)
  {
    DivGap(e, start, w);
    MulMono(e / w + 1, start / w, w);
    MulAdd(e / w, 1, w);
  }

  /** A window of `s` lies between its first and its last window. */
  lemma WindowMember(s: AddrSeg, w: nat, y: int)
    requires w > 0 && s.size > 0 && y in WindowsOf(s.start / w, WinCount(s, w), w)
    ensures AlignDown(s.start, w) <= y <= AlignDown(s.End(), w)
  {
    var q, n := s.start / w, WinCount(s, w);
    WinCountPos(s, w);
    WindowsOfLen(q, n, w);
    var k :| 0 <= k < n && WindowsOf(q, n, w)[k] == y;
    WindowsOfAt(q, n, w, k);
    MulMono(q, q + k, w);
    MulMono(q + k, s.End() / w, w);
  }

  lemma SpacedConcat(xs: seq<int>, ys: seq<int>, w: nat, b: int)
    requires Spaced(xs, w) && Spaced(ys, w)
    requires forall x | x in xs :: x + w <= b
    requires forall y | y in ys :: b <= y
    ensures Spaced(xs + ys, w)
  {
    var ws := xs + ys;
    forall i, j | 0 <= i < j < |ws| ensures ws[i] + w <= ws[j] {
      assert ws[i] == if i < |xs| then xs[i] else ys[i - |xs|];
      assert ws[j] == if j < |xs| then xs[j] else ys[j - |xs|];
      if i < |xs| <= j {
        assert xs[i] in xs && ys[j - |xs|] in ys;
      }
    }
  }

  lemma {:induction false} WindowsSpaced(m: seq<AddrSeg>, w: nat)
    requires w > 0 && NonEmpty(m) && Apart(m, w)
    ensures Spaced(Windows(m, w), w)
    ensures forall x | x in Windows(m, w) :: |m| > 0 && 0 <= x <= AlignDown(m[|m| - 1].End(), w)
  {
    if |m| > 0 {
      var n := |m| - 1;
      var s := m[n];
      WindowsSpaced(m[..n], w);
      WinCountPos(s, w);
      WindowsOfSpaced(s.start / w, WinCount(s, w), w);
      var xs, ys := Windows(m[..n], w), WindowsOf(s.start / w, WinCount(s, w), w);
      var b := AlignDown(s.start, w);
      forall y | y in ys ensures b <= y <= AlignDown(s.End(), w) {
        WindowMember(s, w, y);
      }
      AlignMono(s.start, s.End(), w);
      if n > 0 {
        ApartWindows(m[n - 1].End(), s.start, w);
      }
      SpacedConcat(xs, ys, w, b);
    }
  }

  lemma AlignMono(a: nat, b: nat, w: nat)
    requires w > 0 && a <= b
    ensures AlignDown(a, w) <= AlignDown(b, w)
  {
    DivMono(a, b, w);
    MulMono(a / w, b / w, w);
  }

  // ---------------------------------------------------------------- the code

  /** One iteration: segment `i` joins the last merged segment or moves behind it. */
  method MergeOne(segs: array<AddrSeg>, last: nat, i: nat, w: nat) returns (last': nat)
    requires last < i < segs.Length && segs[last].size > 0
    modifies segs
    ensures last <= last' <= i
    ensures segs[..last' + 1] == MergeNext(old(segs[..last + 1]), old(segs[i]), w)
    ensures forall k | i < k < segs.Length :: segs[k] == old(segs[k])
  {
    last' := last;
    if segs[i].start - (segs[last].start + segs[last].size - 1) <= w {
      var end := segs[last].start + segs[last].size - 1;
      var other := segs[i].start + segs[i].size - 1;
      segs[last] := segs[last].(size := (if end >= other then end else other) - segs[last].start + 1);
    } else {
      last' := last + 1;
      segs[last'] := segs[i];
    }
  }

  lemma {:induction false} MergeSnoc(was: seq<AddrSeg>, i: nat, w: nat)
    requires 0 < i < |was| && NonEmpty(was)
    ensures NonEmpty(was[..i]) && NonEmpty(was[..i + 1])
    ensures Merge(was[..i + 1], w) == MergeNext(Merge(was[..i], w), was[i], w)
  {
    assert was[..i + 1][..i] == was[..i];
  }

  /** Merges in place; the write position never passes the read position. */
  method MergeSegments(segs: array<AddrSeg>, cnt: nat, w: nat) returns (merged: nat)
    requires 0 < cnt <= segs.Length && Sorted(segs[..cnt])
    modifies segs
    ensures 0 < merged <= cnt
    ensures segs[..merged] == Merge(old(segs[..cnt]), w)
  {
    ghost var was := segs[..cnt];
    var last := 0;
    assert segs[..1] == was[..1];
    for i := 1 to cnt
      invariant last < i && NonEmpty(was[..i])
      invariant segs[..last + 1] == Merge(was[..i], w)
      invariant forall k | i <= k < cnt :: segs[k] == was[k]
    {
      MergeSnoc(was, i, w);
      assert segs[last] == segs[..last + 1][last];
      last := MergeOne(segs, last, i, w);
    }
    assert was[..cnt] == was;
    merged := last + 1;
  }

  lemma CountWinsStep(segs: seq<AddrSeg>, w: nat, i: nat)
    requires w > 0 && i < |segs|
    ensures CountWins(segs[..i + 1], w) == CountWins(segs[..i], w) + WinCount(segs[i], w)
    ensures Windows(segs[..i + 1], w)
         == Windows(segs[..i], w) + WindowsOf(segs[i].start / w, WinCount(segs[i], w), w)
  {
    assert segs[..i + 1][..i] == segs[..i];
  }

  method CountNrWindows(segs: array<AddrSeg>, cnt: nat, w: nat) returns (total: int)
    requires cnt <= segs.Length && w > 0
    ensures total == CountWins(segs[..cnt], w)
  {
    total := 0;
    for i := 0 to cnt
      invariant total == CountWins(segs[..i], w)
    {
      CountWinsStep(segs[..cnt], w, i);
      assert segs[..cnt][..i] == segs[..i] && segs[..cnt][..i + 1] == segs[..i + 1];
      total := total + ((segs[i].start + segs[i].size - 1) / w - segs[i].start / w) + 1;
    }
  }

  method AlignSegments(segs: array<AddrSeg>, cnt: nat, w: nat)
    requires cnt <= segs.Length && w > 0 && NonEmpty(segs[..cnt])
    modifies segs
    ensures forall i | 0 <= i < cnt :: old(segs[i]).size > 0 && segs[i] == Align(old(segs[i]), w)
  {
    ghost var was := segs[..cnt];
    for i := 0 to cnt
      invariant forall k | 0 <= k < i :: segs[k] == Align(was[k], w)
      invariant forall k | i <= k < cnt :: segs[k] == was[k]
    {
      assert was[i].size > 0;
      WinCountPos(segs[i], w);
      var nrWins := (segs[i].start + segs[i].size - 1) / w - segs[i].start / w + 1;
      segs[i] := segs[i].(start := (segs[i].start / w) * w, size := w * nrWins);
    }
  }

  /** Aligned segments have the windows of the segments they came from. */
  lemma {:induction false} AlignedWindows(m: seq<AddrSeg>, r: seq<AddrSeg>, w: nat)
    requires w > 0 && NonEmpty(m) && |r| == |m|
    requires forall i | 0 <= i < |m| :: r[i] == Align(m[i], w)
    ensures Windows(r, w) == Windows(m, w) && CountWins(r, w) == CountWins(m, w)
  {
    if |m| > 0 {
      var n := |m| - 1;
      AlignedWindows(m[..n], r[..n], w);
      AlignSameWindows(m[n], w);
    }
  }

  /** The window at `a`, tagged with its BA; the tag stays 0 where no BA covers it. */
  function Window(a: nat, w: nat, bas: seq<BaInfo>): AddrSeg {
    var t := CalcBaTag(bas, a);
    AddrSeg(a, w, 0, if t.Some? then t.value else 0)
  }

  /** A segment of whole windows. */
  predicate WholeWindows(s: AddrSeg, w: nat)
    requires w > 0
  {
    s.size > 0 && s.start % w == 0 && s.size % w == 0
  }

  lemma WholeCount(s: AddrSeg, w: nat)
    requires w > 0 && WholeWindows(s, w)
    ensures WinCount(s, w) * w == s.size && (s.start / w) * w == s.start
  {
    MultipleIs(s.start, w);
    MultipleIs(s.size, w);
    var q, n := s.start / w, s.size / w;
    MulAdd(q, n, w);
    MulAdd(q + n, -1, w);
    DivUnique(s.End(), w, q + n - 1);
  }

  /** `out` holds the windows `ws` from index `at` on. */
  ghost predicate Written(out: seq<AddrSeg>, at: nat, ws: seq<int>, w: nat, bas: seq<BaInfo>) {
    at + |ws| <= |out| && forall k | 0 <= k < |ws| :: ws[k] >= 0 && out[at + k] == Window(ws[k], w, bas)
  }

  lemma WrittenConcat(before: seq<AddrSeg>, out: seq<AddrSeg>, ws: seq<int>, more: seq<int>, w: nat, bas: seq<BaInfo>)
    requires Written(before, 0, ws, w, bas) && Written(out, |ws|, more, w, bas) && |out| == |before|
    requires forall k | 0 <= k < |ws| :: out[k] == before[k]
    ensures Written(out, 0, ws + more, w, bas)
  {
    forall k | 0 <= k < |ws + more| ensures (ws + more)[k] >= 0 && out[0 + k] == Window((ws + more)[k], w, bas) {
      if k >= |ws| {
        assert out[|ws| + (k - |ws|)] == Window(more[k - |ws|], w, bas);
      }
    }
  }

  lemma CutStep(q: int, d: int, n: int, w: nat)
    requires (q + d) * w < (q + n) * w
    ensures d < n && (q + d) * w + w == (q + d + 1) * w <= (q + n) * w
  {
    if d >= n {
      MulMono(q + n, q + d, w);
    } else {
      MulMono(q + d + 1, q + n, w);
      MulAdd(q + d, 1, w);
    }
  }

  /** Cuts one segment of whole windows; stops when `out` is full. */
  method CutOne(s: AddrSeg, out: array<AddrSeg>, at: nat, w: nat, bas: seq<BaInfo>) returns (ok: bool, next: nat)
    requires w > 0 && WholeWindows(s, w) && at <= out.Length
    modifies out
    ensures var ws := WindowsOf(s.start / w, WinCount(s, w), w);
      && (ok <==> at + |ws| <= out.Length)
      && (ok ==> next == at + |ws|)
      && (ok ==> Written(out[..], at, ws, w, bas))
    ensures forall k | 0 <= k < at :: out[k] == old(out[k])
  {
    var start, size := s.start, s.size;
    next := at;
    ghost var q, n, d := s.start / w, WinCount(s, w), 0;
    WholeCount(s, w);
    MulAdd(q, n, w);
    WindowsOfLen(q, n, w);
    while size > 0
      invariant 0 <= d <= n && next == at + d <= out.Length
      invariant start == (q + d) * w && start + size == (q + n) * w
      invariant |WindowsOf(q, d, w)| == d
      invariant forall k | 0 <= k < d :: WindowsOf(q, d, w)[k] >= 0
      invariant forall k | 0 <= k < d :: out[at + k] == Window(WindowsOf(q, d, w)[k], w, bas)
      invariant forall k | 0 <= k < at :: out[k] == old(out[k])
      decreases size
    {
      CutStep(q, d, n, w);
      if next >= out.Length {
        return false, next;
      }
      out[next] := Window(start, w, bas);
      d := d + 1;
      start := start + w;
      size := size - w;
      next := next + 1;
    }
    if d < n {
      MulMono(q + d + 1, q + n, w);
      MulAdd(q + d, 1, w);
      assert false;
    }
    ok := true;
  }

  /** Cuts all segments; fails when `out` is too small or there is nothing to cut. */
  method CutIntoScanWins(segs: seq<AddrSeg>, out: array<AddrSeg>, w: nat, bas: seq<BaInfo>) returns (ok: bool)
    requires w > 0 && forall i | 0 <= i < |segs| :: WholeWindows(segs[i], w)
    modifies out
    ensures var ws := Windows(segs, w);
      && (ok <==> 0 < |ws| <= out.Length)
      && (ok ==> Written(out[..], 0, ws, w, bas))
  {
    var nrWins := 0;
    for i := 0 to |segs|
      invariant nrWins == |Windows(segs[..i], w)| && Written(out[..], 0, Windows(segs[..i], w), w, bas)
    {
      CountWinsStep(segs, w, i);
      ghost var before := out[..];
      var fits, next := CutOne(segs[i], out, nrWins, w, bas);
      if !fits {
        WindowsGrow(segs, w, i + 1);
        return false;
      }
      WrittenConcat(before, out[..], Windows(segs[..i], w),
                    WindowsOf(segs[i].start / w, WinCount(segs[i], w), w), w, bas);
      nrWins := next;
    }
    assert segs[..|segs|] == segs;
    return nrWins > 0;
  }

  lemma {:induction false} WindowsGrow(segs: seq<AddrSeg>, w: nat, i: nat)
    requires w > 0 && i <= |segs|
    ensures |Windows(segs[..i], w)| <= |Windows(segs, w)|
    decreases |segs| - i
  {
    if i < |segs| {
      CountWinsStep(segs, w, i);
      WindowsGrow(segs, w, i + 1);
    } else {
      assert segs[..i] == segs;
    }
  }

  /** `wins` lists, ascending and without overlap, exactly the aligned windows that touch a segment. */
  ghost predicate Planned(wins: seq<AddrSeg>, segs: seq<AddrSeg>, w: nat, bas: seq<BaInfo>)
    requires w > 0
  {
    && (forall k | 0 <= k < |wins| :: wins[k] == Window(wins[k].start, w, bas))
    && (forall k | 0 <= k < |wins| :: wins[k].size == w && Tagged(wins[k], bas))
    && (forall i, j | 0 <= i < j < |wins| :: wins[i].start + w <= wins[j].start)
    && (forall a: nat :: HasWindow(wins, a) <==> a % w == 0 && Touches(segs, a, w))
  }

  /** The window's tag is that of the first BA with the window's start in one of its ranges, or 0 if there is none. */
  ghost predicate Tagged(win: AddrSeg, bas: seq<BaInfo>) {
    && (forall i: nat | FirstBa(bas, win.start, i) :: win.tag == bas[i].tag)
    && ((forall i: nat :: !FirstBa(bas, win.start, i)) ==> win.tag == 0)
  }

  ghost predicate HasWindow(wins: seq<AddrSeg>, a: nat) {
    exists k :: 0 <= k < |wins| && wins[k].start == a
  }

  /** Every byte of every segment lies in a planned window. */
  lemma PlanCovers(wins: seq<AddrSeg>, segs: seq<AddrSeg>, w: nat, bas: seq<BaInfo>, i: nat, b: nat)
    requires w > 0 && Planned(wins, segs, w, bas) && i < |segs| && segs[i].start <= b <= segs[i].End()
    ensures exists k :: 0 <= k < |wins| && wins[k].start <= b < wins[k].start + wins[k].size
  {
    var a := AlignDown(b, w);
    TouchesIff(segs, a, w);
    assert Touch(segs[i], a, w);
    assert HasWindow(wins, a);
  }

  lemma WrittenStarts(wins: seq<AddrSeg>, ws: seq<int>, w: nat, bas: seq<BaInfo>)
    requires |wins| == |ws| && Written(wins, 0, ws, w, bas)
    ensures forall k | 0 <= k < |wins| :: wins[k].start == ws[k] && wins[k] == Window(wins[k].start, w, bas)
    ensures forall a: nat :: HasWindow(wins, a) <==> a in ws
  {
    forall k | 0 <= k < |wins| ensures wins[k].start == ws[k] && wins[k] == Window(wins[k].start, w, bas) {
      assert wins[0 + k] == Window(ws[k], w, bas);
    }
    forall a: nat ensures HasWindow(wins, a) <==> a in ws {
      if a in ws {
        var k :| 0 <= k < |ws| && ws[k] == a;
        assert wins[k].start == a;
      }
    }
  }

  lemma {:induction false} PlanFrom(segs: seq<AddrSeg>, wins: seq<AddrSeg>, ws: seq<int>, w: nat, bas: seq<BaInfo>)
    requires w > 0 && |segs| > 0 && Sorted(segs)
    requires ws == Windows(Merge(segs, w), w) && |wins| == |ws| && Written(wins, 0, ws, w, bas)
    ensures Planned(wins, segs, w, bas)
  {
    WrittenStarts(wins, ws, w, bas);
    forall k | 0 <= k < |wins| ensures wins[k].size == w && Tagged(wins[k], bas) {
      CalcBaTagIs(bas, wins[k].start);
    }
    assert Spaced(ws, w) by {
      MergeApart(segs, w);
      WindowsSpaced(Merge(segs, w), w);
    }
    forall a: nat ensures a in ws <==> a % w == 0 && Touches(segs, a, w) {
      MergeTouches(segs, a, w);
      WindowsTouch(Merge(segs, w), w, a);
    }
  }

  /** Merge, align, count, cut: the window buffer is never too small and cutting never fails. */
  method GenerateAlignedScanWins(info: seq<AddrSeg>, w: nat, bas: seq<BaInfo>) returns (r: Option<seq<AddrSeg>>)
    requires w > 0 && Sorted(info)
    ensures r.None? <==> info == []
    ensures r.Some? ==> Planned(r.value, info, w, bas)
    ensures r.Some? ==> |r.value| == CountWins(Merge(info, w), w)
  {
    if |info| == 0 {
      return None;
    }
    var segs, cnt := MergeAndAlign(info, w);
    var total := CountNrWindows(segs, cnt, w);
    assert 0 < total == |Windows(segs[..cnt], w)| by {
      WindowsCount(Merge(info, w), w);
      FirstWindow(Merge(info, w), w);
    }
    var wins := new AddrSeg[total](_ => AddrSeg(0, 0, 0, 0));
    var ok := CutIntoScanWins(segs[..cnt], wins, w, bas);
    PlanFrom(info, wins[..], Windows(segs[..cnt], w), w, bas);
    return Some(wins[..]);
  }

  /** The first two stages: merged and aligned segments have the windows of the merged ones. */
  method MergeAndAlign(info: seq<AddrSeg>, w: nat) returns (segs: array<AddrSeg>, cnt: nat)
    requires w > 0 && |info| > 0 && Sorted(info)
    ensures cnt <= segs.Length && (forall i | 0 <= i < |segs[..cnt]| :: WholeWindows(segs[..cnt][i], w))
    ensures Windows(segs[..cnt], w) == Windows(Merge(info, w), w)
    ensures CountWins(segs[..cnt], w) == CountWins(Merge(info, w), w)
  {
    segs := new AddrSeg[|info|](i requires 0 <= i < |info| => info[i]);
    assert segs[..|info|] == info;
    cnt := MergeSegments(segs, |info|, w);
    ghost var m := segs[..cnt];
    AlignSegments(segs, cnt, w);
    AlignedWindows(m, segs[..cnt], w);
    forall i | 0 <= i < cnt ensures WholeWindows(segs[..cnt][i], w) {
      AlignSameWindows(m[i], w);
    }
  }

  /** A segment has at least one window. */
  lemma FirstWindow(m: seq<AddrSeg>, w: nat)
    requires w > 0 && |m| > 0 && NonEmpty(m)
    ensures |Windows(m, w)| > 0
  {
    var s := m[|m| - 1];
    WinCountPos(s, w);
    WindowsOfLen(s.start / w, WinCount(s, w), w);
  }
}
