/**
 * Rank and select over an immutable bit vector, with the conventions of the
 * rank/select support structure the source builds over its bit vectors:
 * rank1(i) counts the set bits strictly before position i, and select1(k)
 * gives the 0-based position of the k-th set bit, counting k from 1.
 */
module RankSelect {
  import opened Errors

  function Bit(x: bool): nat { if x then 1 else 0 }

  /** rank1(i): the number of set bits among b[0], ..., b[i-1]. */
  function Rank1(b: seq<bool>, i: nat): (r: nat)
    requires i <= |b|
    ensures r <= i
  {
    if i == 0 then 0 else Bit(b[0]) + Rank1(b[1..], i - 1)
  }

  /** The number of set bits in b. */
  function PopCount(b: seq<bool>): (r: nat)
    ensures r <= |b|
    ensures forall i :: 0 <= i <= |b| ==> Rank1(b, i) <= r
  {
    forall i | 0 <= i <= |b| ensures Rank1(b, i) <= Rank1(b, |b|) {
      Rank1Monotone(b, i, |b|);
    }
    Rank1(b, |b|)
  }

  /**
   * select1(k): the position of the k-th set bit (k counted from 1); it fails
   * when k is 0 or larger than the number of set bits.
   */
  function Select1(b: seq<bool>, k: nat): (r: Result<nat>)
    ensures r.Ok? <==> 1 <= k <= PopCount(b)
    ensures r.Err? ==> r.error == SelectOutOfRange
    ensures r.Ok? ==> r.value < |b| && b[r.value] && Rank1(b, r.value) == k - 1
  {
    if k == 0 || |b| == 0 then Err(SelectOutOfRange)
    else if b[0] && k == 1 then Ok(0)
    else
      var rest := b[1..];
      var r := Select1(rest, k - Bit(b[0]));
      assert PopCount(b) == Bit(b[0]) + PopCount(rest) by { assert |rest| == |b| - 1; }
      if r.Ok? then
        assert Rank1(b, r.value + 1) == Bit(b[0]) + Rank1(rest, r.value);
        Ok(r.value + 1)
      else Err(r.error)
  }

  lemma {:induction false} Rank1Monotone(b: seq<bool>, i: nat, j: nat)
    requires i <= j <= |b|
    ensures Rank1(b, i) <= Rank1(b, j)
  {
    if i > 0 {
      Rank1Monotone(b[1..], i - 1, j - 1);
    }
  }

  /** Nothing is set before the first set bit: rank1 is 0 up to select1(1). */
  lemma RankBeforeFirstSetBit(b: seq<bool>, i: nat, j: nat)
    requires Select1(b, 1) == Ok(i)
    requires j <= i
    ensures Rank1(b, j) == 0
  {
    Rank1Monotone(b, j, i);
  }

  /** select1 inverts rank1 on the set positions: the partner of the contract of Select1. */
  lemma {:induction false} SelectInvertsRank(b: seq<bool>, p: nat)
    requires p < |b| && b[p]
    ensures Select1(b, Rank1(b, p) + 1) == Ok(p)
  {
    if p > 0 {
      var rest := b[1..];
      assert rest[p - 1] == b[p];
      SelectInvertsRank(rest, p - 1);
      assert Rank1(b, p) == Bit(b[0]) + Rank1(rest, p - 1);
      if b[0] {
        assert Rank1(b, p) >= 1;
      }
    }
  }

  /** The set bits are counted by position: rank1 after a set bit exceeds rank1 at it. */
  lemma {:induction false} Rank1Step(b: seq<bool>, p: nat)
    requires p < |b|
    ensures Rank1(b, p + 1) == Rank1(b, p) + Bit(b[p])
  {
    if p > 0 {
      Rank1Step(b[1..], p - 1);
    }
  }
}
