/**
 Round-by-round scheduling of windows on the BAs (pick_one_seg and smap_hist_read_paral in
 hist_ops.c).  A window belongs to the BA whose tag it carries; the windows of a BA are the set bits
 of a mask over all windows.
 */
module HistSchedule {
  import opened Arith
  import opened Bitmap

  /** Which windows carry the tag. */
  function Mask(tags: seq<nat>, tag: nat): (m: seq<bool>)
    ensures |m| == |tags|
    ensures forall i | 0 <= i < |tags| :: m[i] <==> tags[i] == tag
  {
    seq(|tags|, i requires 0 <= i < |tags| => tags[i] == tag)
  }

  /** The windows of a tag in index order. */
  function Own(tags: seq<nat>, tag: nat): seq<nat> {
    SetBits(Mask(tags, tag))
  }

  /**
   The next window of the tag after `offset`, or |tags|.  In loop mode a search that had reached the
   end starts over.
   */
  method PickOneSeg(tag: nat, tags: seq<nat>, offset: int, loop: bool) returns (found: bool, offset': int)
    requires -1 <= offset <= |tags|
    ensures var from := if loop && offset == |tags| then 0 else offset + 1;
      offset' == FindNextBit(Mask(tags, tag), from)
    ensures found <==> offset' < |tags|
  {
    var off := offset;
    if loop && off == |tags| {
      off := -1;
    }
    ghost var mask := Mask(tags, tag);
    var i := off + 1;
    while i < |tags|
      invariant off + 1 <= i && (i <= |tags| || i == off + 1)
      invariant FindNextBit(mask, off + 1) == FindNextBit(mask, i)
    {
      if tag == tags[i] {
        return true, i;
      }
      i := i + 1;
    }
    return false, |tags|;
  }

  // ---------------------------------------------------------------- one pass

  /** Offset of a BA after `r` rounds of a pass: its r-th window, or past the end. */
  function OffsetAfter(tags: seq<nat>, tag: nat, r: nat): int {
    if r == 0 then -1
    else if r <= |Own(tags, tag)| then Own(tags, tag)[r - 1]
    else |tags|
  }

  /** One more round moves a BA to its next window. */
  lemma NextRound(tags: seq<nat>, tag: nat, r: nat)
    ensures -1 <= OffsetAfter(tags, tag, r) <= |tags|
    ensures FindNextBit(Mask(tags, tag), OffsetAfter(tags, tag, r) + 1) == OffsetAfter(tags, tag, r + 1)
    ensures OffsetAfter(tags, tag, r + 1) < |tags| <==> r < |Own(tags, tag)|
  {
    var mask := Mask(tags, tag);
    assert mask[..0] == [];
    if 0 < r <= |Own(tags, tag)| {
      RankSelect(mask, r - 1);
      RankStep(mask, Own(tags, tag)[r - 1]);
    }
    if r <= |Own(tags, tag)| {
      NextBitByRank(mask, OffsetAfter(tags, tag, r) + 1);
    }
    if r < |Own(tags, tag)| {
      RankSelect(mask, r);
    }
  }

  /** The first set bit from `from` on is the one whose number is the rank of `from`. */
  lemma NextBitByRank(bm: seq<bool>, from: nat)
    requires from <= |bm|
    ensures Rank(bm, from) <= |SetBits(bm)|
    ensures FindNextBit(bm, from) == if Rank(bm, from) < |SetBits(bm)| then SetBits(bm)[Rank(bm, from)] else |bm|
  {
    RankWhole(bm);
    RankPrefix(bm, from, |bm|);
    var next := FindNextBit(bm, from);
    if next < |bm| {
      RankSkip(bm, from, next);
      SelectRank(bm, next);
    } else if from < |bm| {
      RankSkip(bm, from, |bm|);
    }
  }

  /** What every BA submits in round `r`, counted from 0: its r-th window, if it has that many. */
  ghost predicate RoundIs(round: map<nat, nat>, bas: seq<nat>, tags: seq<nat>, r: nat) {
    && (forall b | b in round :: b < |bas|)
    && (forall b: nat | b < |bas| :: b in round <==> r < |Own(tags, bas[b])|)
    && (forall b: nat | b < |bas| && b in round :: r < |Own(tags, bas[b])| && round[b] == Own(tags, bas[b])[r])
  }

  ghost predicate AtRound(offset: seq<int>, bas: seq<nat>, tags: seq<nat>, r: nat) {
    |offset| == |bas| && forall b | 0 <= b < |bas| :: offset[b] == OffsetAfter(tags, bas[b], r)
  }

  /** One round of picks, last BA first; the map holds at most one window per BA. */
  method PickRound(bas: seq<nat>, tags: seq<nat>, offset: seq<int>, ghost r: nat)
    returns (offset': seq<int>, round: map<nat, nat>)
    requires AtRound(offset, bas, tags, r)
    ensures AtRound(offset', bas, tags, r + 1)
    ensures RoundIs(round, bas, tags, r)
  {
    offset', round := offset, map[];
    var b := |bas|;
    while b > 0
      invariant 0 <= b <= |bas| && |offset'| == |bas|
      invariant forall c | 0 <= c < b :: offset'[c] == offset[c]
      invariant forall c | b <= c < |bas| :: offset'[c] == OffsetAfter(tags, bas[c], r + 1)
      invariant forall c | c in round :: b <= c < |bas|
      invariant forall c: nat | b <= c < |bas| :: c in round <==> r < |Own(tags, bas[c])|
      invariant forall c: nat | b <= c < |bas| && c in round ::
        r < |Own(tags, bas[c])| && round[c] == Own(tags, bas[c])[r]
    {
      b := b - 1;
      NextRound(tags, bas[b], r);
      var found, off := PickOneSeg(bas[b], tags, offset'[b], false);
      offset' := offset'[b := off];
      if found {
        round := round[b := off];
      }
    }
  }

  /** All BAs have run out of windows. */
  predicate PickComplete(offset: seq<int>, end: nat) {
    forall i | 0 <= i < |offset| :: offset[i] == end
  }

  /** The pass is over when no BA has a window for round `r`; until then rounds are fewer than windows. */
  lemma WhenComplete(offset: seq<int>, bas: seq<nat>, tags: seq<nat>, r: nat)
    requires AtRound(offset, bas, tags, r + 1)
    ensures PickComplete(offset, |tags|) <==> forall b | 0 <= b < |bas| :: |Own(tags, bas[b])| <= r
    ensures !PickComplete(offset, |tags|) ==> r < |tags|
  {
    forall b | 0 <= b < |bas|
      ensures offset[b] == |tags| <==> |Own(tags, bas[b])| <= r
      ensures |Own(tags, bas[b])| <= |tags|
    {
      NextRound(tags, bas[b], r);
      RankBound(Mask(tags, bas[b]));
    }
  }

  ghost predicate AllRounds(rounds: seq<map<nat, nat>>, bas: seq<nat>, tags: seq<nat>) {
    forall r: nat | r < |rounds| :: RoundIs(rounds[r], bas, tags, r)
  }

  lemma AllRoundsSnoc(rounds: seq<map<nat, nat>>, round: map<nat, nat>, bas: seq<nat>, tags: seq<nat>)
    requires AllRounds(rounds, bas, tags) && RoundIs(round, bas, tags, |rounds|)
    ensures AllRounds(rounds + [round], bas, tags)
  {
    var all := rounds + [round];
    forall r: nat | r < |all| ensures RoundIs(all[r], bas, tags, r) {
      assert all[r] == if r < |rounds| then rounds[r] else round;
    }
  }

  /**
   A whole pass outside loop mode: it ends, and round `r` submits the r-th window of every BA that
   has one.
   */
  method ReadParal(bas: seq<nat>, tags: seq<nat>) returns (rounds: seq<map<nat, nat>>)
    ensures AllRounds(rounds, bas, tags)
    ensures forall b | 0 <= b < |bas| :: |Own(tags, bas[b])| <= |rounds|
  {
    var offset := seq(|bas|, _ => -1);
    rounds := [];
    while true
      invariant AtRound(offset, bas, tags, |rounds|)
      invariant AllRounds(rounds, bas, tags)
      decreases |tags| - |rounds|
    {
      var round: map<nat, nat>;
      offset, round := PickRound(bas, tags, offset, |rounds|);
      WhenComplete(offset, bas, tags, |rounds|);
      if PickComplete(offset, |tags|) {
        return;
      }
      AllRoundsSnoc(rounds, round, bas, tags);
      rounds := rounds + [round];
    }
  }

  /** Window `i` is submitted by BA `b` in round `r`. */
  ghost predicate Submits(rounds: seq<map<nat, nat>>, r: nat, b: nat, i: nat) {
    r < |rounds| && b in rounds[r] && rounds[r][b] == i
  }

  /** A pass submits every window of a known tag exactly once. */
  lemma {:induction false} ExactlyOnce(bas: seq<nat>, tags: seq<nat>, rounds: seq<map<nat, nat>>, i: nat, b: nat)
    requires AllRounds(rounds, bas, tags)
    requires forall c | 0 <= c < |bas| :: |Own(tags, bas[c])| <= |rounds|
    requires DistinctTags(bas)
    requires i < |tags| && b < |bas| && bas[b] == tags[i]
    ensures Submits(rounds, Rank(Mask(tags, tags[i]), i), b, i)
    ensures forall r: nat, c: nat :: Submits(rounds, r, c, i) ==> r == Rank(Mask(tags, tags[i]), i) && c == b
  {
    var mask := Mask(tags, tags[i]);
    SelectRank(mask, i);
    forall r: nat, c: nat | Submits(rounds, r, c, i) ensures r == Rank(mask, i) && c == b {
      RankSelect(Mask(tags, bas[c]), r);
    }
  }

  /** Every submission of the rounds stands in `order` once, at the place `pos` names. */
  ghost predicate Listed(rounds: seq<map<nat, nat>>, order: seq<nat>, pos: seq<(nat, nat)>) {
    && |pos| == |order|
    && (forall x | 0 <= x < |order| :: Submits(rounds, pos[x].0, pos[x].1, order[x]))
    && (forall x, y | 0 <= x < y < |pos| :: pos[x] != pos[y])
  }

  /** The results of one round, last BA first. */
  method FlattenRound(rounds: seq<map<nat, nat>>, r: nat, nBas: nat, order: seq<nat>, ghost pos: seq<(nat, nat)>)
    returns (order': seq<nat>, ghost pos': seq<(nat, nat)>)
    requires r < |rounds| && (forall b | b in rounds[r] :: b < nBas) && Listed(rounds, order, pos)
    requires forall x | 0 <= x < |pos| :: pos[x].0 < r
    ensures Listed(rounds, order', pos') && pos <= pos'
    ensures forall x | 0 <= x < |pos'| :: pos'[x].0 <= r
    ensures forall b | b in rounds[r] :: (r, b) in pos'
  {
    order', pos' := order, pos;
    var b := nBas;
    while b > 0
      invariant 0 <= b <= nBas
      invariant Listed(rounds, order', pos') && pos <= pos'
      invariant forall x | 0 <= x < |pos'| :: pos'[x].0 < r || (pos'[x].0 == r && pos'[x].1 >= b)
      invariant forall c | c in rounds[r] && c >= b :: (r, c) in pos'
    {
      b := b - 1;
      if b in rounds[r] {
        order', pos' := order' + [rounds[r][b]], pos' + [(r, b)];
      }
    }
  }

  /** All windows of a pass in the order in which their results are read. */
  method FlattenRounds(rounds: seq<map<nat, nat>>, nBas: nat) returns (order: seq<nat>, ghost pos: seq<(nat, nat)>)
    requires forall r, b | 0 <= r < |rounds| && b in rounds[r] :: b < nBas
    ensures Listed(rounds, order, pos)
    ensures forall r: nat, b | r < |rounds| && b in rounds[r] :: (r, b) in pos
  {
    order, pos := [], [];
    for r := 0 to |rounds|
      invariant Listed(rounds, order, pos)
      invariant forall x | 0 <= x < |pos| :: pos[x].0 < r
      invariant forall q: nat, b | q < r && b in rounds[q] :: (q, b) in pos
    {
      order, pos := FlattenRound(rounds, r, nBas, order, pos);
    }
  }

  /** `order` names every window exactly once. */
  ghost predicate EachOnce(order: seq<nat>, n: nat) {
    && (forall x | 0 <= x < |order| :: order[x] < n)
    && (forall x, y | 0 <= x < y < |order| :: order[x] != order[y])
    && (forall i: nat | i < n :: i in order)
  }

  /** Tags of the BAs are distinct. */
  ghost predicate DistinctTags(bas: seq<nat>) {
    forall c, d | 0 <= c < d < |bas| :: bas[c] != bas[d]
  }

  lemma RoundsInRange(bas: seq<nat>, tags: seq<nat>, rounds: seq<map<nat, nat>>)
    requires AllRounds(rounds, bas, tags)
    ensures forall r, b | 0 <= r < |rounds| && b in rounds[r] :: b < |bas|
  {
    forall r, b | 0 <= r < |rounds| && b in rounds[r] ensures b < |bas| {
      assert RoundIs(rounds[r], bas, tags, r);
    }
  }

  lemma PassOrder(bas: seq<nat>, tags: seq<nat>, rounds: seq<map<nat, nat>>, order: seq<nat>, pos: seq<(nat, nat)>)
    requires AllRounds(rounds, bas, tags) && Listed(rounds, order, pos) && DistinctTags(bas)
    requires forall c | 0 <= c < |bas| :: |Own(tags, bas[c])| <= |rounds|
    requires forall r: nat, b | r < |rounds| && b in rounds[r] :: (r, b) in pos
    requires forall i | 0 <= i < |tags| :: tags[i] in bas
    ensures EachOnce(order, |tags|)
  {
    forall x | 0 <= x < |order| ensures order[x] < |tags| {
      SubmittedIsWindow(bas, tags, rounds, pos[x].0, pos[x].1, order[x]);
    }
    forall x, y | 0 <= x < y < |order| ensures order[x] != order[y] {
      SubmittedOnce(bas, tags, rounds, order, pos, x, y);
    }
    forall i: nat | i < |tags| ensures i in order {
      SubmittedAtAll(bas, tags, rounds, order, pos, i);
    }
  }

  /** A pass, outside loop mode, as one list: every window of a known tag exactly once. */
  method ScanOrder(bas: seq<nat>, tags: seq<nat>) returns (order: seq<nat>)
    requires DistinctTags(bas) && forall i | 0 <= i < |tags| :: tags[i] in bas
    ensures EachOnce(order, |tags|)
  {
    var rounds := ReadParal(bas, tags);
    RoundsInRange(bas, tags, rounds);
    ghost var pos;
    order, pos := FlattenRounds(rounds, |bas|);
    PassOrder(bas, tags, rounds, order, pos);
  }

  lemma SubmittedIsWindow(bas: seq<nat>, tags: seq<nat>, rounds: seq<map<nat, nat>>, r: nat, b: nat, i: nat)
    requires AllRounds(rounds, bas, tags) && Submits(rounds, r, b, i)
    ensures i < |tags| && b < |bas| && tags[i] == bas[b]
  {
    assert RoundIs(rounds[r], bas, tags, r);
    RankSelect(Mask(tags, bas[b]), r);
  }

  lemma SubmittedOnce(
      bas: seq<nat>, tags: seq<nat>, rounds: seq<map<nat, nat>>, order: seq<nat>, pos: seq<(nat, nat)>, x: nat, y: nat)
    requires AllRounds(rounds, bas, tags) && Listed(rounds, order, pos) && x < y < |order|
    requires forall c | 0 <= c < |bas| :: |Own(tags, bas[c])| <= |rounds|
    requires DistinctTags(bas)
    ensures order[x] != order[y]
  {
    if order[x] == order[y] {
      SubmittedIsWindow(bas, tags, rounds, pos[x].0, pos[x].1, order[x]);
      ExactlyOnce(bas, tags, rounds, order[x], pos[x].1);
      assert false;
    }
  }

  lemma SubmittedAtAll(
      bas: seq<nat>, tags: seq<nat>, rounds: seq<map<nat, nat>>, order: seq<nat>, pos: seq<(nat, nat)>, i: nat)
    requires AllRounds(rounds, bas, tags) && Listed(rounds, order, pos) && i < |tags| && tags[i] in bas
    requires forall c | 0 <= c < |bas| :: |Own(tags, bas[c])| <= |rounds|
    requires DistinctTags(bas)
    requires forall r: nat, b | r < |rounds| && b in rounds[r] :: (r, b) in pos
    ensures i in order
  {
    var b :| 0 <= b < |bas| && bas[b] == tags[i];
    ExactlyOnce(bas, tags, rounds, i, b);
    var r := Rank(Mask(tags, tags[i]), i);
    var x :| 0 <= x < |pos| && pos[x] == (r, b);
    assert order[x] == i;
  }

  // ---------------------------------------------------------------- loop mode

  /** Where a search in loop mode starts. */
  function LoopFrom(mask: seq<bool>, off: int): int {
    if off == |mask| then 0 else off + 1
  }

  /** Windows one BA scans in `n` rounds of loop mode, starting from offset `off`. */
  function LoopScans(mask: seq<bool>, off: int, n: nat): seq<nat>
    requires -1 <= off <= |mask|
    decreases n
  {
    if n == 0 then []
    else
      var next := FindNextBit(mask, LoopFrom(mask, off));
      (if next < |mask| then [next] else []) + LoopScans(mask, next, n - 1)
  }

  /** Loop mode cycles through the BA's windows in index order, from wherever it resumes. */
  lemma {:induction false} LoopIsCyclic(mask: seq<bool>, off: int, n: nat, j: nat)
    requires -1 <= off <= |mask| && j < |LoopScans(mask, off, n)|
    ensures 0 < |SetBits(mask)|
    ensures LoopScans(mask, off, n)[j] == SetBits(mask)[Rem(Rank(mask, LoopFrom(mask, off)) + j, |SetBits(mask)|)]
    decreases n
  {
    var from := LoopFrom(mask, off);
    var next := FindNextBit(mask, from);
    LoopStep(mask, off);
    if next < |mask| {
      assert LoopScans(mask, off, n) == [next] + LoopScans(mask, next, n - 1);
      if j > 0 {
        LoopIsCyclic(mask, next, n - 1, j - 1);
      }
    } else {
      assert LoopScans(mask, off, n) == LoopScans(mask, next, n - 1);
      LoopIsCyclic(mask, next, n - 1, j);
    }
  }

  /** One round: the next window of the cycle, or the end of the list, from which the search starts over. */
  lemma {:induction false} LoopStep(mask: seq<bool>, off: int)
    requires -1 <= off <= |mask|
    ensures var own, p, next := SetBits(mask), Rank(mask, LoopFrom(mask, off)), FindNextBit(mask, LoopFrom(mask, off));
      if next < |mask| then p < |own| && next == own[p] && Rank(mask, LoopFrom(mask, next)) == p + 1
      else next == |mask| && p == |own| && Rank(mask, LoopFrom(mask, next)) == 0
  {
    var own, from := SetBits(mask), LoopFrom(mask, off);
    var p, next := Rank(mask, from), FindNextBit(mask, from);
    NextBitByRank(mask, from);
    if next < |mask| {
      if p >= |own| {
        assert false;
      }
      RankSelect(mask, p);
      RankStep(mask, next);
    } else {
      assert mask[..0] == [];
      if p < |own| {
        RankSelect(mask, p);
        assert false;
      }
    }
  }

  /** In loop mode, any as many successive scans as the BA has windows include every window of the BA. */
  lemma {:induction false} LoopVisitsEach(mask: seq<bool>, off: int, n: nat, j: nat, q: nat) returns (t: nat)
    requires -1 <= off <= |mask| && j + |SetBits(mask)| <= |LoopScans(mask, off, n)| && q < |SetBits(mask)|
    ensures j <= t < j + |SetBits(mask)| && LoopScans(mask, off, n)[t] == SetBits(mask)[q]
  {
    var m, p := |SetBits(mask)|, Rank(mask, LoopFrom(mask, off));
    var x := Rem(p + j, m);
    var d := if q >= x then q - x else q - x + m;
    t := j + d;
    RemAdd(p + j, d, m);
    LoopIsCyclic(mask, off, n, t);
  }

  /** And none of them twice. */
  lemma {:induction false} LoopVisitsOnce(mask: seq<bool>, off: int, n: nat, t: nat, u: nat)
    requires -1 <= off <= |mask| && t < u < |LoopScans(mask, off, n)| && u < t + |SetBits(mask)|
    ensures LoopScans(mask, off, n)[t] != LoopScans(mask, off, n)[u]
  {
    var m, p := |SetBits(mask)|, Rank(mask, LoopFrom(mask, off));
    LoopIsCyclic(mask, off, n, t);
    LoopIsCyclic(mask, off, n, u);
    RemDistinct(p + t, p + u, m);
    RankSelect(mask, Rem(p + t, m));
    RankSelect(mask, Rem(p + u, m));
  }
}
