/** Page bitmaps: the ascending list of set bits, rank, and the kernel's next-bit search. */
module Bitmap {

  /** Positions of the set bits, ascending. */
  function SetBits(bm: seq<bool>): seq<nat> {
    if |bm| == 0 then []
    else
      var n := |bm| - 1;
      SetBits(bm[..n]) + (if bm[n] then [n] else [])
  }

  /** Number of set bits below `i`. */
  function Rank(bm: seq<bool>, i: nat): nat
    requires i <= |bm|
  {
    |SetBits(bm[..i])|
  }

  /** find_next_bit: the first set bit at or after `from`, or the size. */
  function FindNextBit(bm: seq<bool>, from: nat): (r: nat)
    ensures r <= |bm|
    ensures r < |bm| ==> from <= r && bm[r]
    ensures forall i | from <= i < r :: !bm[i]
    decreases |bm| - from
  {
    if from >= |bm| then |bm|
    else if bm[from] then from
    else FindNextBit(bm, from + 1)
  }

  lemma RankStep(bm: seq<bool>, i: nat)
    requires i < |bm|
    ensures SetBits(bm[..i + 1]) == SetBits(bm[..i]) + (if bm[i] then [i] else [])
  {
    assert bm[..i + 1][..i] == bm[..i];
  }

  /** The set bits below `i` are the first `Rank(bm, i)` set bits. */
  lemma {:induction false} RankPrefix(bm: seq<bool>, i: nat, j: nat)
    requires i <= j <= |bm|
    ensures SetBits(bm[..i]) <= SetBits(bm[..j])
    decreases j
  {
    if i < j {
      RankPrefix(bm, i, j - 1);
      RankStep(bm, j - 1);
    }
  }

  lemma RankWhole(bm: seq<bool>)
    ensures Rank(bm, |bm|) == |SetBits(bm)|
  {
    assert bm[..|bm|] == bm;
  }

  /** A run of clear bits does not change the rank. */
  lemma {:induction false} RankSkip(bm: seq<bool>, i: nat, j: nat)
    requires i <= j <= |bm| && forall k | i <= k < j :: !bm[k]
    ensures SetBits(bm[..i]) == SetBits(bm[..j])
    decreases j
  {
    if i < j {
      RankSkip(bm, i, j - 1);
      RankStep(bm, j - 1);
    }
  }

  /** The set bit `i` stands at position `Rank(bm, i)`. */
  lemma SelectRank(bm: seq<bool>, i: nat)
    requires i < |bm| && bm[i]
    ensures Rank(bm, i) < |SetBits(bm)| && SetBits(bm)[Rank(bm, i)] == i
  {
    RankStep(bm, i);
    RankPrefix(bm, i + 1, |bm|);
    assert bm[..|bm|] == bm;
  }

  /** Every entry of the list is a set bit, and its rank is its position. */
  lemma {:induction false} RankSelect(bm: seq<bool>, k: nat)
    requires k < |SetBits(bm)|
    ensures SetBits(bm)[k] < |bm| && bm[SetBits(bm)[k]] && Rank(bm, SetBits(bm)[k]) == k
    decreases |bm|
  {
    var n := |bm| - 1;
    var front := bm[..n];
    if k < |SetBits(front)| {
      RankSelect(front, k);
      var i := SetBits(front)[k];
      assert front[..i] == bm[..i];
    }
  }

  lemma {:induction false} SetBitsAscending(bm: seq<bool>, j: nat, k: nat)
    requires j < k < |SetBits(bm)|
    ensures SetBits(bm)[j] < SetBits(bm)[k]
  {
    RankSelect(bm, j);
    RankSelect(bm, k);
    var a, b := SetBits(bm)[j], SetBits(bm)[k];
    if b <= a {
      RankPrefix(bm, b, a);
      assert false;
    }
  }

  /** No more set bits than bits. */
  lemma RankBound(bm: seq<bool>)
    ensures |SetBits(bm)| <= |bm|
  {
  }

  lemma {:induction false} NoBits(bm: seq<bool>)
    requires forall i | 0 <= i < |bm| :: !bm[i]
    ensures SetBits(bm) == []
  {
    if |bm| > 0 {
      NoBits(bm[..|bm| - 1]);
    }
  }

  /** Setting a clear bit adds one set bit. */
  lemma {:induction false} SetOne(bm: seq<bool>, i: nat)
    requires i < |bm| && !bm[i]
    ensures |SetBits(bm[i := true])| == |SetBits(bm)| + 1
    decreases |bm|
  {
    var n := |bm| - 1;
    if i < n {
      SetOne(bm[..n], i);
      assert bm[i := true][..n] == bm[..n][i := true];
    } else {
      assert bm[i := true][..n] == bm[..n];
    }
  }
}
