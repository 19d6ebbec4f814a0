/**
 * std::sort over a vector of nodes with a comparator that orders them by a
 * string key: the result is a permutation of the input in which no element
 * compares less than an element before it. The library's algorithm is not
 * part of this model; an insertion sort stands in for it.
 */
module Sorting {
  import opened Strings

  ghost predicate KeyedBy<T>(xs: seq<T>, key: map<T, string>)
  {
    forall x :: x in xs ==> x in key
  }

  /** No element's key is smaller than the key of an element before it. */
  ghost predicate SortedByKey<T>(xs: seq<T>, key: map<T, string>)
  {
    forall i, j {:trigger LexLessEq(key[xs[i]], key[xs[j]])} ::
      0 <= i < j < |xs| && xs[i] in key && xs[j] in key ==> LexLessEq(key[xs[i]], key[xs[j]])
  }

  /** Insert x into ys, after the leading elements whose keys are not greater than x's. */
  function Insert<T>(ys: seq<T>, x: T, key: map<T, string>): (zs: seq<T>)
    requires KeyedBy(ys, key) && x in key
    ensures multiset(zs) == multiset(ys) + multiset{x}
    ensures |zs| == |ys| + 1
    ensures KeyedBy(zs, key)
  {
    if ys == [] then [x]
    else if LexLess(key[x], key[ys[0]]) then [x] + ys
    else
      assert ys == [ys[0]] + ys[1..];
      [ys[0]] + Insert(ys[1..], x, key)
  }

  /** Elements of a permutation of a keyed sequence are keyed. */
  lemma KeyedByPermutation<T>(xs: seq<T>, ys: seq<T>, key: map<T, string>)
    requires KeyedBy(xs, key)
    requires multiset(ys) <= multiset(xs)
    ensures KeyedBy(ys, key)
  {
    forall y | y in ys ensures y in key {
      assert y in multiset(ys);
    }
  }

  /** Inserting into a sorted sequence keeps it sorted. */
  lemma {:induction false} InsertKeepsSorted<T>(ys: seq<T>, x: T, key: map<T, string>)
    requires KeyedBy(ys, key) && x in key
    requires SortedByKey(ys, key)
    ensures SortedByKey(Insert(ys, x, key), key)
  {
    var zs := Insert(ys, x, key);
    if ys == [] {
    } else if LexLess(key[x], key[ys[0]]) {
      forall j | 0 < j < |zs| ensures LexLessEq(key[x], key[zs[j]]) {
        assert zs[j] == ys[j - 1];
        LexLessEqTotalOrder(key[x], key[ys[0]], key[ys[j - 1]]);
        LexLessAsymmetric(key[x], key[ys[0]]);
      }
    } else {
      var rest := ys[1..];
      InsertKeepsSorted(rest, x, key);
      var tail := Insert(rest, x, key);
      assert zs == [ys[0]] + tail;
      forall k | 0 <= k < |tail| ensures LexLessEq(key[ys[0]], key[tail[k]]) {
        assert tail[k] in multiset(tail);
        if tail[k] != x {
          assert tail[k] in multiset(rest);
          var m :| 0 <= m < |rest| && rest[m] == tail[k];
          assert ys[m + 1] == tail[k];
        }
      }
      forall i, j | 0 <= i < j < |zs| ensures LexLessEq(key[zs[i]], key[zs[j]]) {
        if i > 0 {
          assert zs[i] == tail[i - 1] && zs[j] == tail[j - 1];
        } else {
          assert zs[j] == tail[j - 1];
        }
      }
    }
  }

  /** Insertion sort by key: a sorted permutation of xs. */
  function SortByKey<T>(xs: seq<T>, key: map<T, string>): (ys: seq<T>)
    requires KeyedBy(xs, key)
    ensures multiset(ys) == multiset(xs)
    ensures SortedByKey(ys, key)
  {
    if xs == [] then []
    else
      var init := xs[..|xs| - 1];
      var last := xs[|xs| - 1];
      assert xs == init + [last];
      var sortedInit := SortByKey(init, key);
      KeyedByPermutation(xs, sortedInit, key);
      InsertKeepsSorted(sortedInit, last, key);
      Insert(sortedInit, last, key)
  }
}
