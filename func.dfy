/**
 * The support functions of the classification-tree construction: the example
 * lists, positional lookup in a list, and the computation of the insertion
 * target of a suffix z = xy into the g-list of its ancestor x.
 */
module Func {
  import opened Errors
  import opened Strings
  import opened RankSelect

  /** The example factor list, the text it spells and the g-lists of x = "a" and z = "abca" in it. */
  const ExampleIcfl: seq<string> := ["aaa", "baa", "caabca", "dcaabca"]
  const ExampleXgList: seq<int> := [19, 3, 6, 12]
  const ExampleZgList: seq<int> := [16, 9]

  method BuildIcfl() returns (icfl: seq<string>)
    ensures icfl == ExampleIcfl
  {
    icfl := [];
    icfl := icfl + ["aaa"];
    icfl := icfl + ["baa"];
    icfl := icfl + ["caabca"];
    icfl := icfl + ["dcaabca"];
  }

  method BuildXgList() returns (xgList: seq<int>)
    ensures xgList == ExampleXgList
  {
    xgList := [];
    xgList := xgList + [19];
    xgList := xgList + [3];
    xgList := xgList + [6];
    xgList := xgList + [12];
  }

  method BuildZgList() returns (zgList: seq<int>)
    ensures zgList == ExampleZgList
  {
    zgList := [];
    zgList := zgList + [16];
    zgList := zgList + [9];
  }

  /** The text whose factorization is fs. */
  function Concat(fs: seq<string>): string
  {
    if fs == [] then "" else Concat(fs[..|fs| - 1]) + fs[|fs| - 1]
  }

  /** The 1-based position of the last character of factor m (counted from 1) in the text fs spells. */
  function FactorEnd(fs: seq<string>, m: nat): nat
    requires m <= |fs|
  {
    |Concat(fs[..m])|
  }

  /**
   * What the example lists stand for: each g-list entry is the 1-based start of
   * an occurrence of x = "a" (resp. z = "abca") that ends a factor of the
   * example text, and the occurrence that ends the last factor comes first.
   */
  lemma ExampleListsAgree()
    ensures Concat(ExampleIcfl) == "aaabaacaabcadcaabca"
    ensures forall j :: 0 <= j < |ExampleXgList| ==>
      var e := ExampleXgList[j];
      && 1 <= e <= |Concat(ExampleIcfl)| && Concat(ExampleIcfl)[e - 1] == 'a'
      && exists m :: 1 <= m <= |ExampleIcfl| && e == FactorEnd(ExampleIcfl, m)
    ensures ExampleXgList[0] == FactorEnd(ExampleIcfl, |ExampleIcfl|)
    ensures forall j :: 0 <= j < |ExampleZgList| ==>
      var e := ExampleZgList[j];
      && 1 <= e && e + 3 <= |Concat(ExampleIcfl)| && Concat(ExampleIcfl)[e - 1..e + 3] == "abca"
      && exists m :: 1 <= m <= |ExampleIcfl| && e + 3 == FactorEnd(ExampleIcfl, m)
    ensures ExampleZgList[0] + 3 == FactorEnd(ExampleIcfl, |ExampleIcfl|)
  {
    assert ExampleIcfl[..1][..0] == [];
    assert FactorEnd(ExampleIcfl, 1) == 3 by {
      assert Concat(ExampleIcfl[..1]) == "aaa";
    }
    assert ExampleIcfl[..2][..1] == ExampleIcfl[..1];
    assert FactorEnd(ExampleIcfl, 2) == 6 by {
      assert Concat(ExampleIcfl[..2]) == "aaabaa";
    }
    assert ExampleIcfl[..3][..2] == ExampleIcfl[..2];
    assert FactorEnd(ExampleIcfl, 3) == 12 by {
      assert Concat(ExampleIcfl[..3]) == "aaabaacaabca";
    }
    assert ExampleIcfl[..4][..3] == ExampleIcfl[..3];
    assert ExampleIcfl[..4] == ExampleIcfl;
    assert Concat(ExampleIcfl) == "aaabaacaabcadcaabca";
    assert FactorEnd(ExampleIcfl, 4) == 19;
    // the witnesses: 19, 3, 6, 12 end factors 4, 1, 2, 3, and 16 + 3, 9 + 3 end factors 4, 3
    forall j | 0 <= j < |ExampleXgList|
      ensures exists m :: 1 <= m <= |ExampleIcfl| && ExampleXgList[j] == FactorEnd(ExampleIcfl, m)
    {
      var m := if j == 0 then 4 else j;
      assert ExampleXgList[j] == FactorEnd(ExampleIcfl, m);
    }
    forall j | 0 <= j < |ExampleZgList|
      ensures Concat(ExampleIcfl)[ExampleZgList[j] - 1..ExampleZgList[j] + 3] == "abca"
      ensures exists m :: 1 <= m <= |ExampleIcfl| && ExampleZgList[j] + 3 == FactorEnd(ExampleIcfl, m)
    {
      var m := if j == 0 then 4 else 3;
      assert ExampleZgList[j] + 3 == FactorEnd(ExampleIcfl, m);
      assert "aaabaacaabcadcaabca"[ExampleZgList[j] - 1..ExampleZgList[j] + 3] == "abca";
    }
  }

  /**
   * find_node: the element at position i of the list, found by walking the list
   * while counting; std::out_of_range when the list has no position i.
   */
  method FindNode<T>(list: seq<T>, i: nat) returns (r: Result<T>)
    ensures i < |list| ==> r == Ok(list[i])
    ensures i >= |list| ==> r == Err(OutOfRange)
  {
    var count := 0;
    while count < |list|
      invariant count <= |list| && count <= i
    {
      if count == i {
        return Ok(list[count]);
      }
      count := count + 1;
    }
    return Err(OutOfRange);
  }

  /**
   * The lookups of one step of the downward scan at position p, where sv is the
   * sentinel bit: q = select1 over b_x of p - sv, alpha = the first |y|
   * characters of factor q + 1, and whether alpha <= y.
   */
  function Probe(bx: seq<bool>, sv: nat, icfl: seq<string>, y: string, p: nat): (r: Result<bool>)
    ensures r.Ok? <==> sv < p <= PopCount(bx) + sv && Select1(bx, p - sv).value + 1 < |icfl|
    ensures r.Ok? ==>
      var alpha := Prefix(icfl[Select1(bx, p - sv).value + 1], |y|);
      (r.value <==> LexLess(alpha, y) || alpha == y)
    ensures r.Err? ==> r.error == (if sv < p <= PopCount(bx) + sv then OutOfRange else SelectOutOfRange)
  {
    match Select1(bx, if p >= sv then p - sv else 0)
    case Err(e) => Err(e)
    case Ok(q) =>
      if q + 1 < |icfl| then Ok(LexLessEq(Prefix(icfl[q + 1], |y|), y)) else Err(OutOfRange)
  }

  /** The scan, started at u - 1, reaches position p: every position above p compared greater than y. */
  ghost predicate ScanReaches(bx: seq<bool>, sv: nat, icfl: seq<string>, y: string, p: nat, u: nat)
  {
    forall p' :: p < p' < u ==> Probe(bx, sv, icfl, y, p') == Ok(false)
  }

  /** No lookup fails at any position in [s, u) that the scan reaches. */
  ghost predicate ScanSafe(bx: seq<bool>, sv: nat, icfl: seq<string>, y: string, s: nat, u: nat)
  {
    forall p :: s <= p < u && ScanReaches(bx, sv, icfl, y, p, u) ==> Probe(bx, sv, icfl, y, p).Ok?
  }

  /** A scan that stops at stopAt, or (stopAt == s - 1) runs down to s, meets no failing lookup. */
  lemma ScanSafeWhenStopped(bx: seq<bool>, sv: nat, icfl: seq<string>, y: string, s: nat, u: nat, stopAt: int)
    requires s - 1 <= stopAt < u
    requires stopAt >= s ==> Probe(bx, sv, icfl, y, stopAt) == Ok(true)
    requires stopAt >= 0 && ScanReaches(bx, sv, icfl, y, stopAt, u)
    ensures ScanSafe(bx, sv, icfl, y, s, u)
  {
    forall p | s <= p < u && ScanReaches(bx, sv, icfl, y, p, u)
      ensures Probe(bx, sv, icfl, y, p).Ok?
    {
      if p < stopAt {
        assert false;
      }
    }
  }

  /** A scan that reaches a position whose lookup fails is not safe. */
  lemma ScanUnsafeWhenFailing(bx: seq<bool>, sv: nat, icfl: seq<string>, y: string, s: nat, u: nat, p: nat)
    requires s <= p < u
    requires ScanReaches(bx, sv, icfl, y, p, u)
    requires Probe(bx, sv, icfl, y, p).Err?
    ensures !ScanSafe(bx, sv, icfl, y, s, u)
  {
  }

  /**
   * The start u of the scan (func.hpp:134-143), where i = select1 over b_z of 1
   * and k = |b_x|. select1 fails when b_z has no set bit, and i - 1 wraps
   * around when i == 0 < k, so that rank1 is asked about a position past the end.
   * Whenever u exists it is at least the lower bound s = sentinel + 1; in the
   * i < k branch it equals s, since rank1 over b_z before its first set bit is 0.
   */
  function UpperBound(bx: seq<bool>, sentinel: bool, bz: seq<bool>): (r: Result<nat>)
    ensures r.Err? <==> PopCount(bz) == 0 || (Select1(bz, 1) == Ok(0) && 0 < |bx|)
    ensures PopCount(bz) == 0 ==> r == Err(SelectOutOfRange)
    ensures PopCount(bz) > 0 && Select1(bz, 1) == Ok(0) && 0 < |bx| ==> r == Err(RankOutOfRange)
    ensures r.Ok? ==> r.value >= Bit(sentinel) + 1
    ensures r.Ok? && Select1(bz, 1).value < |bx| ==> r.value == Bit(sentinel) + 1
    ensures r.Ok? && Select1(bz, 1).value >= |bx| ==> r.value == PopCount(bz) + 1
  {
    match Select1(bz, 1)
    case Err(e) => Err(e)
    case Ok(i) =>
      if i < |bx| then
        if i == 0 then Err(RankOutOfRange)
        else
          RankBeforeFirstSetBit(bz, i, i - 1);
          Ok(Rank1(bz, i - 1) + Bit(sentinel) + 1)
      else Ok(Rank1(bz, |bz|) + 1)
  }

  /**
   * getInsertionTarget(b_x, b_z, icfl, y). The read of b_x one past its end is
   * the parameter sentinel. As written, both branches of the scan end with
   * p = s - 1, so the function either fails or returns s = sentinel + 1, whatever
   * y and the factors are.
   */
  method GetInsertionTarget(bx: seq<bool>, sentinel: bool, bz: seq<bool>, icfl: seq<string>, y: string)
    returns (r: Result<nat>)
    ensures UpperBound(bx, sentinel, bz).Err? ==> r == Err(UpperBound(bx, sentinel, bz).error)
    ensures UpperBound(bx, sentinel, bz).Ok? ==>
      (r.Ok? <==> ScanSafe(bx, Bit(sentinel), icfl, y, Bit(sentinel) + 1, UpperBound(bx, sentinel, bz).value))
    ensures r.Ok? ==> r.value == Bit(sentinel) + 1
    ensures r.Err? && UpperBound(bx, sentinel, bz).Ok? ==>
      exists p :: Bit(sentinel) + 1 <= p < UpperBound(bx, sentinel, bz).value && ScanReaches(bx, Bit(sentinel), icfl, y, p, UpperBound(bx, sentinel, bz).value) &&
        Probe(bx, Bit(sentinel), icfl, y, p) == Err(r.error)
  {
    var sv := Bit(sentinel);
    var s := sv + 1;
    var ub := UpperBound(bx, sentinel, bz);
    if ub.Err? {
      return Err(ub.error);
    }
    var u := ub.value;
    var p := u - 1;
    ghost var stopped := false;
    ghost var stopAt := 0;
    while p >= s
      invariant s - 1 <= p < u
      invariant !stopped ==> ScanReaches(bx, sv, icfl, y, p, u)
      invariant stopped ==> p == s - 1 && s <= stopAt < u && Probe(bx, sv, icfl, y, stopAt) == Ok(true)
      invariant stopped ==> ScanReaches(bx, sv, icfl, y, stopAt, u)
      decreases p
    {
      var q := Select1(bx, p - sv);
      if q.Err? {
        ScanUnsafeWhenFailing(bx, sv, icfl, y, s, u, p);
        return Err(q.error);
      }
      var f := FindNode(icfl, q.value + 1);
      if f.Err? {
        ScanUnsafeWhenFailing(bx, sv, icfl, y, s, u, p);
        return Err(f.error);
      }
      assert Probe(bx, sv, icfl, y, p) == Ok(LexLessEq(Prefix(f.value, |y|), y));
      var alpha := Prefix(f.value, |y|);
      if LexLessEq(alpha, y) {
        stopped, stopAt := true, p;
        p := s - 1;
      } else {
        p := p - 1;
      }
    }
    ScanSafeWhenStopped(bx, sv, icfl, y, s, u, if stopped then stopAt else s - 1);
    r := Ok(p + 1);
  }

  /**
   * Every lookup of the scan succeeds when b_x has enough set bits for the
   * highest position probed and the factor list is longer than b_x.
   */
  lemma ScanSafeWhenEnoughOccurrences(bx: seq<bool>, sv: nat, icfl: seq<string>, y: string, u: nat)
    requires u <= PopCount(bx) + sv + 1
    requires |bx| < |icfl|
    ensures ScanSafe(bx, sv, icfl, y, sv + 1, u)
  {
    forall p | sv + 1 <= p < u
      ensures Probe(bx, sv, icfl, y, p).Ok?
    {
      var q := Select1(bx, p - sv);
      assert q.Ok?;
    }
  }

  /**
   * The insertion target with the scan stopping where it finds alpha <= y:
   * the result h is the position just above the highest probed position whose
   * alpha does not exceed y (or s when there is none), so alpha exceeds y at
   * every position in [h, u).
   */
  method GetInsertionTargetIntended(bx: seq<bool>, sentinel: bool, bz: seq<bool>, icfl: seq<string>, y: string)
    returns (r: Result<nat>)
    ensures UpperBound(bx, sentinel, bz).Err? ==> r == Err(UpperBound(bx, sentinel, bz).error)
    ensures UpperBound(bx, sentinel, bz).Ok? ==>
      (r.Ok? <==> ScanSafe(bx, Bit(sentinel), icfl, y, Bit(sentinel) + 1, UpperBound(bx, sentinel, bz).value))
    ensures r.Ok? ==> Bit(sentinel) + 1 <= r.value <= UpperBound(bx, sentinel, bz).value
    ensures r.Ok? ==> ScanReaches(bx, Bit(sentinel), icfl, y, r.value - 1, UpperBound(bx, sentinel, bz).value)
    ensures r.Ok? && r.value > Bit(sentinel) + 1 ==> Probe(bx, Bit(sentinel), icfl, y, r.value - 1) == Ok(true)
    ensures r.Err? && UpperBound(bx, sentinel, bz).Ok? ==>
      exists p :: Bit(sentinel) + 1 <= p < UpperBound(bx, sentinel, bz).value && ScanReaches(bx, Bit(sentinel), icfl, y, p, UpperBound(bx, sentinel, bz).value) &&
        Probe(bx, Bit(sentinel), icfl, y, p) == Err(r.error)
  {
    var ub := UpperBound(bx, sentinel, bz);
    if ub.Err? {
      return Err(ub.error);
    }
    r := ScanIntended(bx, Bit(sentinel), icfl, y, ub.value);
  }

  /**
   * The intended downward scan from u - 1: it stops at the first position whose
   * factor prefix is not greater than y and yields the position just above it.
   */
  method ScanIntended(bx: seq<bool>, sv: nat, icfl: seq<string>, y: string, u: nat) returns (r: Result<nat>)
    requires sv + 1 <= u
    ensures r.Ok? <==> ScanSafe(bx, sv, icfl, y, sv + 1, u)
    ensures r.Ok? ==> sv + 1 <= r.value <= u
    ensures r.Ok? ==> ScanReaches(bx, sv, icfl, y, r.value - 1, u)
    ensures r.Ok? && r.value > sv + 1 ==> Probe(bx, sv, icfl, y, r.value - 1) == Ok(true)
    ensures r.Err? ==>
      exists p :: sv + 1 <= p < u && ScanReaches(bx, sv, icfl, y, p, u) &&
        Probe(bx, sv, icfl, y, p) == Err(r.error)
  {
    var s := sv + 1;
    var p := u - 1;
    while p >= s
      invariant s - 1 <= p < u
      invariant ScanReaches(bx, sv, icfl, y, p, u)
      decreases p
    {
      var q := Select1(bx, p - sv);
      if q.Err? {
        ScanUnsafeWhenFailing(bx, sv, icfl, y, s, u, p);
        return Err(q.error);
      }
      var f := FindNode(icfl, q.value + 1);
      if f.Err? {
        ScanUnsafeWhenFailing(bx, sv, icfl, y, s, u, p);
        return Err(f.error);
      }
      assert Probe(bx, sv, icfl, y, p) == Ok(LexLessEq(Prefix(f.value, |y|), y));
      var alpha := Prefix(f.value, |y|);
      if LexLessEq(alpha, y) {
        ScanSafeWhenStopped(bx, sv, icfl, y, s, u, p);
        return Ok(p + 1);
      }
      p := p - 1;
    }
    ScanSafeWhenStopped(bx, sv, icfl, y, s, u, s - 1);
    r := Ok(p + 1);
  }

  /**
   * An input on which the scan as written and the intended scan disagree:
   * b_x = 11, b_z = 0011, factors "a", "b", "c", y = "b" and no sentinel bit.
   * The scan probes "c" (greater than y) and then "b" (not greater), so the
   * intended target is 2, while the code as written returns 1.
   */
  method InsertionTargetDiscrepancy() returns (asWritten: Result<nat>, intended: Result<nat>)
    ensures asWritten == Ok(1)
    ensures intended == Ok(2)
  {
    var bx, bz := [true, true], [false, false, true, true];
    var icfl, y := ["a", "b", "c"], "b";
    assert Select1(bz, 1) == Ok(2);
    assert PopCount(bz) == 2;
    assert UpperBound(bx, false, bz) == Ok(3);
    assert Select1(bx, 1) == Ok(0);
    assert Select1(bx, 2) == Ok(1);
    assert Probe(bx, 0, icfl, y, 2) == Ok(false) by {
      assert Prefix("c", 1) == "c";
      assert LexLess("b", "c");
    }
    assert Probe(bx, 0, icfl, y, 1) == Ok(true) by {
      assert Prefix("b", 1) == "b";
      LexLessIrreflexive("b");
    }
    ScanSafeWhenEnoughOccurrences(bx, 0, icfl, y, 3);
    asWritten := GetInsertionTarget(bx, false, bz, icfl, y);
    intended := GetInsertionTargetIntended(bx, false, bz, icfl, y);
  }
}
