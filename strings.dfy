/**
 * The parts of std::string and unsigned arithmetic that the core relies on:
 * 32-bit unsigned subtraction, substr, and the lexicographic operators < and <=.
 */
module Strings {
  import opened Errors

  const TWO32: nat := 0x1_0000_0000

  /** An `unsigned int` of the source. */
  type U32 = x: nat | x < TWO32

  /** Unsigned 32-bit subtraction, wrapping around below zero. */
  function Sub32(a: U32, b: U32): (r: U32)
    ensures a >= b ==> r == a - b
    ensures a < b ==> r == TWO32 - (b - a)
  {
    (a - b) % TWO32
  }

  function Min(a: nat, b: nat): nat { if a <= b then a else b }

  /**
   * std::string::substr(pos, count): throws std::out_of_range when pos is past
   * the end, otherwise takes at most count characters starting at pos.
   */
  function Substr(s: string, pos: nat, count: nat): (r: Result<string>)
    ensures r.Err? <==> pos > |s|
    ensures r.Err? ==> r.error == OutOfRange
    ensures r.Ok? ==> |r.value| == Min(count, |s| - pos)
    ensures r.Ok? ==> s[pos..pos + |r.value|] == r.value
  {
    if pos > |s| then Err(OutOfRange) else Ok(s[pos..pos + Min(count, |s| - pos)])
  }

  /** s.substr(0, n): the first min(n, |s|) characters of s. */
  function Prefix(s: string, n: nat): (r: string)
    ensures |r| == Min(n, |s|)
    ensures r <= s
  {
    Substr(s, 0, n).value
  }

  /** std::string operator<: lexicographic order, a proper prefix sorting first. */
  predicate LexLess(a: string, b: string)
    ensures LexLess(a, b) ==> a != b
    ensures |a| < |b| && a == b[..|a|] ==> LexLess(a, b)
  {
    if |a| == 0 then |b| > 0
    else if |b| == 0 then false
    else if a[0] != b[0] then a[0] < b[0]
    else LexLess(a[1..], b[1..])
  }

  /** std::string operator<=, which the standard defines as !(b < a). */
  predicate LexLessEq(a: string, b: string)
    ensures LexLessEq(a, b) <==> LexLess(a, b) || a == b
  {
    LexLessTotal(a, b);
    if LexLess(a, b) then LexLessAsymmetric(a, b); !LexLess(b, a) else !LexLess(b, a)
  }

  /** The usual textbook definition: a is a proper prefix of b, or they first differ at k with a[k] < b[k]. */
  ghost predicate LexLessByIndex(a: string, b: string)
  {
    (|a| < |b| && a == b[..|a|]) ||
    exists k :: 0 <= k < |a| && k < |b| && a[..k] == b[..k] && a[k] < b[k]
  }

  lemma {:induction false} LexLessMatchesIndex(a: string, b: string)
    ensures LexLess(a, b) <==> LexLessByIndex(a, b)
  {
    if |a| == 0 || |b| == 0 {
    } else if a[0] != b[0] {
      if a[0] < b[0] {
        assert a[..0] == b[..0];
      }
    } else {
      LexLessMatchesIndex(a[1..], b[1..]);
      if LexLessByIndex(a[1..], b[1..]) {
        if |a[1..]| < |b[1..]| && a[1..] == b[1..][..|a[1..]|] {
          assert a == [a[0]] + a[1..] && b[..|a|] == [b[0]] + b[1..][..|a[1..]|];
        } else {
          var k :| 0 <= k < |a[1..]| && k < |b[1..]| && a[1..][..k] == b[1..][..k] && a[1..][k] < b[1..][k];
          assert a[..k+1] == [a[0]] + a[1..][..k];
          assert b[..k+1] == [b[0]] + b[1..][..k];
        }
      }
      if LexLessByIndex(a, b) {
        if |a| < |b| && a == b[..|a|] {
          assert a[1..] == b[1..][..|a[1..]|];
        } else {
          var k :| 0 <= k < |a| && k < |b| && a[..k] == b[..k] && a[k] < b[k];
          assert k != 0;
          assert a[1..][..k-1] == a[..k][1..] == b[..k][1..] == b[1..][..k-1];
          assert a[1..][k-1] < b[1..][k-1];
        }
      }
    }
  }

  lemma {:induction false} LexLessIrreflexive(a: string)
    ensures !LexLess(a, a)
  {
    if |a| > 0 { LexLessIrreflexive(a[1..]); }
  }

  lemma {:induction false} LexLessTransitive(a: string, b: string, c: string)
    requires LexLess(a, b) && LexLess(b, c)
    ensures LexLess(a, c)
  {
    if |a| > 0 && a[0] == b[0] && b[0] == c[0] {
      LexLessTransitive(a[1..], b[1..], c[1..]);
    }
  }

  /** Any two distinct strings are ordered one way or the other (trichotomy). */
  lemma {:induction false} LexLessTotal(a: string, b: string)
    ensures a == b || LexLess(a, b) || LexLess(b, a)
  {
    if |a| > 0 && |b| > 0 && a[0] == b[0] {
      LexLessTotal(a[1..], b[1..]);
      if a[1..] == b[1..] { assert a == [a[0]] + a[1..] && b == [b[0]] + b[1..]; }
    }
  }

  lemma LexLessAsymmetric(a: string, b: string)
    requires LexLess(a, b)
    ensures !LexLess(b, a)
  {
    if LexLess(b, a) {
      LexLessTransitive(a, b, a);
      LexLessIrreflexive(a);
    }
  }

  /** <= is a total preorder (here in fact a total order): reflexive, transitive and total. */
  lemma LexLessEqTotalOrder(a: string, b: string, c: string)
    ensures LexLessEq(a, a)
    ensures LexLessEq(a, b) || LexLessEq(b, a)
    ensures LexLessEq(a, b) && LexLessEq(b, c) ==> LexLessEq(a, c)
    ensures LexLessEq(a, b) && LexLessEq(b, a) ==> a == b
  {
    LexLessIrreflexive(a);
    LexLessTotal(a, b);
    if LexLess(a, b) { LexLessAsymmetric(a, b); }
    if LexLessEq(a, b) && LexLessEq(b, c) {
      LexLessTotal(a, c);
      LexLessTotal(b, c);
      if LexLess(c, a) {
        if b == c {
        } else if LexLess(b, c) {
          LexLessTransitive(b, c, a);
        }
      }
    }
  }
}
