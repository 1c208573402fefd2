/** In-place selection of the hottest 4K windows per BA (filter_4k_scan_hot_wins in hist_ops.c). */
module HotFilter {
  import opened Common
  import opened HistPlan

  /** addr_seg_cmp_max: by tag ascending, then by heat descending. */
  function CmpMax(a: AddrSeg, b: AddrSeg): int {
    if a.tag == b.tag then (if a.max == b.max then 0 else if a.max < b.max then 1 else -1)
    else if a.tag < b.tag then -1 else 1
  }

  ghost predicate SortedByHeat(s: seq<AddrSeg>) {
    forall i, j | 0 <= i < j < |s| :: CmpMax(s[i], s[j]) <= 0
  }

  /** Windows with this tag. */
  function TagCount(s: seq<AddrSeg>, tag: nat): nat {
    if |s| == 0 then 0
    else TagCount(s[..|s| - 1], tag) + (if s[|s| - 1].tag == tag then 1 else 0)
  }

  /** Fewer than `k` windows of its tag come before window `i`. */
  predicate Kept(s: seq<AddrSeg>, k: nat, i: nat)
    requires i < |s|
  {
    TagCount(s[..i], s[i].tag) < k
  }

  /** The windows that are kept, in order. */
  function KeepHot(s: seq<AddrSeg>, k: nat): (r: seq<AddrSeg>)
    ensures |r| <= |s|
  {
    if |s| == 0 then []
    else
      var n := |s| - 1;
      KeepHot(s[..n], k) + (if Kept(s, k, n) then [s[n]] else [])
  }

  lemma CountStep(s: seq<AddrSeg>, tag: nat, i: nat)
    requires i < |s|
    ensures TagCount(s[..i + 1], tag) == TagCount(s[..i], tag) + (if s[i].tag == tag then 1 else 0)
  {
    assert s[..i + 1][..i] == s[..i];
  }

  lemma KeepStep(s: seq<AddrSeg>, k: nat, i: nat)
    requires i < |s|
    ensures KeepHot(s[..i + 1], k) == KeepHot(s[..i], k) + (if Kept(s, k, i) then [s[i]] else [])
  {
    assert s[..i + 1][..i] == s[..i];
  }

  lemma {:induction false} CountMono(s: seq<AddrSeg>, tag: nat, i: nat, j: nat)
    requires i <= j <= |s|
    ensures TagCount(s[..i], tag) <= TagCount(s[..j], tag)
    decreases j
  {
    if i < j {
      CountMono(s, tag, i, j - 1);
      CountStep(s, tag, j - 1);
    }
  }

  lemma {:induction false} CountNone(s: seq<AddrSeg>, tag: nat, i: nat)
    requires i <= |s| && forall j | 0 <= j < i :: s[j].tag != tag
    ensures TagCount(s[..i], tag) == 0
  {
    if i > 0 {
      CountNone(s, tag, i - 1);
      CountStep(s, tag, i - 1);
    }
  }

  /** For every tag exactly the first min(k, group size) windows survive. */
  lemma {:induction false} KeptPerTag(s: seq<AddrSeg>, k: nat, tag: nat)
    ensures TagCount(KeepHot(s, k), tag) == if TagCount(s, tag) < k then TagCount(s, tag) else k
    decreases |s|
  {
    if |s| > 0 {
      var n := |s| - 1;
      KeptPerTag(s[..n], k, tag);
      var r := KeepHot(s[..n], k);
      assert (r + [s[n]])[..|r|] == r && r + [] == r;
    }
  }

  /** A window that is dropped is no hotter than any kept window of its tag. */
  lemma DroppedIsColder(s: seq<AddrSeg>, k: nat, kept: nat, dropped: nat)
    requires SortedByHeat(s) && kept < |s| && dropped < |s| && s[kept].tag == s[dropped].tag
    requires Kept(s, k, kept) && !Kept(s, k, dropped)
    ensures kept < dropped && s[dropped].max <= s[kept].max
  {
    if dropped < kept {
      CountMono(s, s[kept].tag, dropped, kept);
      assert false;
    }
    assert CmpMax(s[kept], s[dropped]) <= 0;
  }

  /** Every kept window is in the result. */
  lemma {:induction false} KeptIsThere(s: seq<AddrSeg>, k: nat, i: nat)
    requires i < |s| && Kept(s, k, i)
    ensures s[i] in KeepHot(s, k)
    decreases |s|
  {
    var n := |s| - 1;
    if i < n {
      assert s[..n][..i] == s[..i];
      KeptIsThere(s[..n], k, i);
    }
  }

  /** Windows of a tag that has its `k` windows already are all dropped. */
  lemma {:induction false} SkipKeeps(s: seq<AddrSeg>, k: nat, tag: nat, i: nat, j: nat)
    requires i <= j <= |s| && forall x | i <= x < j :: s[x].tag == tag
    requires i < j ==> TagCount(s[..i], tag) >= k
    ensures KeepHot(s[..j], k) == KeepHot(s[..i], k)
    decreases j
  {
    if i < j {
      SkipKeeps(s, k, tag, i, j - 1);
      KeepStep(s, k, j - 1);
      CountMono(s, tag, i, j - 1);
    }
  }

  /** A tag that turns up first at `i`, in a sorted list. */
  lemma FreshTag(s: seq<AddrSeg>, i: nat)
    requires SortedByHeat(s) && 0 < i < |s| && s[i - 1].tag != s[i].tag
    ensures TagCount(s[..i], s[i].tag) == 0
    ensures forall j | 0 <= j < i :: s[j].tag < s[i].tag
  {
    forall j | 0 <= j < i ensures s[j].tag < s[i].tag {
      assert CmpMax(s[i - 1], s[i]) <= 0;
      assert j < i - 1 ==> CmpMax(s[j], s[i - 1]) <= 0;
    }
    CountNone(s, s[i].tag, i);
  }

  /** `sel` windows of `tag`, at most `k`, have been kept before `index`. */
  ghost predicate Selected(s: seq<AddrSeg>, index: nat, tag: nat, sel: nat, k: nat) {
    && 0 < index <= |s|
    && (s[index - 1].tag == tag || (index < |s| && s[index].tag == tag && sel == 0))
    && sel <= k && sel <= TagCount(s[..index], tag)
    && (sel < k ==> sel == TagCount(s[..index], tag))
  }

  lemma TakeStep(s: seq<AddrSeg>, index: nat, tag: nat, sel: nat, k: nat)
    requires Selected(s, index, tag, sel, k) && index < |s| && s[index].tag == tag && sel < k
    ensures KeepHot(s[..index + 1], k) == KeepHot(s[..index], k) + [s[index]]
    ensures Selected(s, index + 1, tag, sel + 1, k)
  {
    KeepStep(s, k, index);
    CountStep(s, tag, index);
  }

  lemma SkipStep(s: seq<AddrSeg>, from: nat, index: nat, tag: nat, sel: nat, k: nat)
    requires SortedByHeat(s) && Selected(s, from, tag, sel, k) && from < |s|
    requires s[from].tag != tag || sel >= k
    requires from <= index <= |s| && (forall j | from <= j < index :: s[j].tag == tag)
    requires index < |s| ==> s[index].tag != tag
    ensures KeepHot(s[..index], k) == KeepHot(s[..from], k)
    ensures index < |s| ==> Selected(s, index, s[index].tag, 0, k)
    ensures index == |s| ==> Selected(s, index, tag, sel, k)
  {
    SkipKeeps(s, k, tag, from, index);
    assert s[index - 1].tag == tag;
    if index < |s| {
      FreshTag(s, index);
    } else {
      CountMono(s, tag, from, index);
    }
  }

  method SkipTag(segs: array<AddrSeg>, cnt: nat, from: nat, tag: nat) returns (index: nat)
    requires from <= cnt <= segs.Length
    ensures from <= index <= cnt
    ensures forall j | from <= j < index :: segs[j].tag == tag
    ensures index < cnt ==> segs[index].tag != tag
  {
    index := from;
    while index < cnt && tag == segs[index].tag
      invariant from <= index <= cnt
      invariant forall j | from <= j < index :: segs[j].tag == tag
    {
      index := index + 1;
    }
  }

  /** The state of the filter: `total` windows kept out of the first `index`, the rest still in place. */
  ghost predicate Filtering(
      now: seq<AddrSeg>, was: seq<AddrSeg>, total: nat, index: nat, tag: nat, sel: nat, k: nat)
  {
    && 0 < total <= index <= |was| <= |now|
    && now[..total] == KeepHot(was[..index], k)
    && now[index..|was|] == was[index..]
    && Selected(was, index, tag, sel, k)
  }

  /** Copies the window at `index` down behind the windows selected so far. */
  method TakeWindow(segs: array<AddrSeg>, ghost was: seq<AddrSeg>, total: nat, index: nat, tag: nat, sel: nat, k: nat)
    requires Filtering(segs[..], was, total, index, tag, sel, k)
    requires index < |was| && segs[index].tag == tag && sel < k
    modifies segs
    ensures Filtering(segs[..], was, total + 1, index + 1, tag, sel + 1, k)
  {
    assert segs[index] == segs[..][index..|was|][0] == was[index];
    TakeStep(was, index, tag, sel, k);
    ghost var before := segs[..];
    segs[total] := segs[index];
    assert segs[..][..total + 1] == before[..total] + [was[index]];
    assert segs[..][index + 1..|was|] == before[index..|was|][1..];
    assert was[index..][1..] == was[index + 1..];
  }

  /** Passes over the rest of the current tag's windows and turns to the next tag, if there is one. */
  method NextTag(segs: array<AddrSeg>, cnt: nat, ghost was: seq<AddrSeg>, total: nat, index: nat, tag: nat, sel: nat, k: nat)
    returns (index': nat, tag': nat, sel': nat)
    requires SortedByHeat(was) && cnt == |was| && Filtering(segs[..], was, total, index, tag, sel, k)
    requires index < |was| && (segs[index].tag != tag || sel >= k)
    ensures Filtering(segs[..], was, total, index', tag', sel', k)
    ensures index <= index' && (index' < |was| ==> segs[index'].tag == tag' && sel' == 0)
  {
    ghost var now := segs[..];
    assert forall j | index <= j < |was| :: segs[j] == was[j] by {
      forall j | index <= j < |was| ensures segs[j] == was[j] {
        assert now[index..|was|][j - index] == was[index..][j - index];
      }
    }
    index' := SkipTag(segs, cnt, index, tag);
    SkipStep(was, index, index', tag, sel, k);
    assert now[index'..|was|] == was[index'..];
    if index' < cnt {
      tag', sel' := segs[index'].tag, 0;
    } else {
      tag', sel' := tag, sel;
    }
  }

  /** The first window is always kept. */
  lemma FilterStart(s: seq<AddrSeg>, k: nat)
    requires |s| > 0 && k > 0
    ensures KeepHot(s[..1], k) == s[..1] && Selected(s, 1, s[0].tag, 1, k)
  {
    KeepStep(s, k, 0);
    CountStep(s, s[0].tag, 0);
    assert s[..0] == [];
  }

  /** One iteration: it advances, or turns to a tag from which the next one advances. */
  method FilterStep(segs: array<AddrSeg>, cnt: nat, ghost was: seq<AddrSeg>, total: nat, index: nat, tag: nat, sel: nat, k: nat)
    returns (total': nat, index': nat, tag': nat, sel': nat)
    requires SortedByHeat(was) && cnt == |was| && Filtering(segs[..], was, total, index, tag, sel, k) && index < cnt && k > 0
    modifies segs
    ensures Filtering(segs[..], was, total', index', tag', sel', k)
    ensures index < index' || (index' == index && !Ready(old(segs[..]), index, tag, sel, k) && Ready(segs[..], index, tag', sel', k))
  {
    if tag == segs[index].tag && sel < k {
      TakeWindow(segs, was, total, index, tag, sel, k);
      return total + 1, index + 1, tag, sel + 1;
    } else {
      index', tag', sel' := NextTag(segs, cnt, was, total, index, tag, sel, k);
      total' := total;
    }
  }

  /** The window at `index` will be taken. */
  predicate Ready(segs: seq<AddrSeg>, index: nat, tag: nat, sel: nat, k: nat) {
    index < |segs| && tag == segs[index].tag && sel < k
  }

  /** The loop: some iterations only move on to the next tag, yet it ends. */
  method FilterLoop(segs: array<AddrSeg>, cnt: nat, k: nat, ghost was: seq<AddrSeg>) returns (total: nat)
    requires 0 < cnt == |was| && SortedByHeat(was) && k > 0
    requires segs.Length > 0 && Filtering(segs[..], was, 1, 1, segs[0].tag, 1, k)
    modifies segs
    ensures total <= cnt <= segs.Length && segs[..][..total] == KeepHot(was[..cnt], k)
  {
    total := 1;
    var tag, sel: nat, index: nat := segs[0].tag, 1, 1;
    while index < cnt
      invariant Filtering(segs[..], was, total, index, tag, sel, k)
      decreases cnt - index, if Ready(segs[..], index, tag, sel, k) then 0 else 1
    {
      total, index, tag, sel := FilterStep(segs, cnt, was, total, index, tag, sel, k);
    }
  }

  /**
   Filters in place; the write position never passes the read position, so no window is overwritten
   before it is read.
   */
  method FilterHotWins(segs: array<AddrSeg>, cnt: nat, k: nat) returns (r: Option<nat>)
    requires cnt <= segs.Length && SortedByHeat(segs[..cnt])
    modifies segs
    ensures r.None? <==> cnt == 0 || k == 0
    ensures r.Some? ==> r.value <= cnt && segs[..r.value] == KeepHot(old(segs[..cnt]), k)
  {
    if cnt == 0 || k == 0 {
      return None;
    }
    ghost var was := segs[..cnt];
    FilterStart(was, k);
    assert segs[..][..1] == was[..1] && segs[..][1..cnt] == was[1..];
    var total := FilterLoop(segs, cnt, k, was);
    assert was[..cnt] == was && segs[..][..total] == segs[..total];
    return Some(total);
  }
}
