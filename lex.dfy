/** JavaScript's default string comparison (character by character, a proper prefix first)
    and Array.prototype.sort() without a comparator, over sequences of strings. */
module Lex {
  import opened Numerals

  /** a < b in the default order of Array.prototype.sort, comparing characters as Unicode code points. */
  predicate Less(a: string, b: string)
    decreases |a|
  {
    if a == [] then b != []
    else if b == [] then false
    else a[0] < b[0] || (a[0] == b[0] && Less(a[1..], b[1..]))
  }

  predicate AtMost(a: string, b: string) {
    a == b || Less(a, b)
  }

  lemma {:induction false} LessIrreflexive(a: string)
    ensures !Less(a, a)
    decreases |a|
  {
    if a != [] {
      LessIrreflexive(a[1..]);
    }
  }

  lemma {:induction false} LessTransitive(a: string, b: string, c: string)
    requires Less(a, b) && Less(b, c)
    ensures Less(a, c)
    decreases |a|
  {
    if a != [] && a[0] == b[0] && b[0] == c[0] {
      LessTransitive(a[1..], b[1..], c[1..]);
    }
  }

  /** Any two distinct strings are ordered one way or the other. */
  lemma {:induction false} LessTotal(a: string, b: string)
    ensures a == b || Less(a, b) || Less(b, a)
    decreases |a|
  {
    if a != [] && b != [] && a[0] == b[0] {
      LessTotal(a[1..], b[1..]);
      if a[1..] == b[1..] {
        assert a == [a[0]] + a[1..] && b == [b[0]] + b[1..];
      }
    }
  }

  /** Comparing two strings that start with parts of the same length compares the
      first parts, and only when those agree the rest. */
  lemma {:induction false} LessConcat(p1: string, q1: string, p2: string, q2: string)
    requires |p1| == |p2|
    ensures Less(p1 + q1, p2 + q2) <==> Less(p1, p2) || (p1 == p2 && Less(q1, q2))
    decreases |p1|
  {
    if p1 != [] {
      assert (p1 + q1)[0] == p1[0] && (p2 + q2)[0] == p2[0];
      assert (p1 + q1)[1..] == p1[1..] + q1 && (p2 + q2)[1..] == p2[1..] + q2;
      LessConcat(p1[1..], q1, p2[1..], q2);
      if p1[0] == p2[0] && p1[1..] == p2[1..] {
        assert p1 == [p1[0]] + p1[1..] && p2 == [p2[0]] + p2[1..];
      }
    } else {
      assert p1 + q1 == q1 && p2 + q2 == q2;
    }
  }

  /** The same for three parts, the first two of equal widths. */
  lemma LessThreeParts(p1: string, q1: string, r1: string, p2: string, q2: string, r2: string)
    requires |p1| == |p2| && |q1| == |q2|
    ensures Less(p1 + q1 + r1, p2 + q2 + r2)
      <==> Less(p1, p2) || (p1 == p2 && (Less(q1, q2) || (q1 == q2 && Less(r1, r2))))
  {
    LessConcat(p1 + q1, r1, p2 + q2, r2);
    LessConcat(p1, q1, p2, q2);
    if p1 + q1 == p2 + q2 {
      assert p1 == (p1 + q1)[..|p1|] && p2 == (p2 + q2)[..|p1|];
      assert q1 == (p1 + q1)[|p1|..] && q2 == (p2 + q2)[|p1|..];
    }
  }

  /** For numerals of the same length, string order is numeric order. */
  lemma {:induction false} NatStrOrder(a: nat, b: nat)
    requires |NatStr(a)| == |NatStr(b)|
    ensures Less(NatStr(a), NatStr(b)) <==> a < b
    decreases a
  {
    if a < 10 {
      assert b < 10;
    } else {
      assert b >= 10;
      LessConcat(NatStr(a / 10), [DigitChar(a % 10)], NatStr(b / 10), [DigitChar(b % 10)]);
      NatStrOrder(a / 10, b / 10);
      if NatStr(a / 10) == NatStr(b / 10) {
        NatStrInjective(a / 10, b / 10);
      } else if a / 10 == b / 10 {
        assert false;
      }
    }
  }

  /** Two two-character digit strings compare by their first digit, then their second. */
  lemma DigitPairOrder(x1: nat, x2: nat, y1: nat, y2: nat)
    requires x1 < 10 && x2 < 10 && y1 < 10 && y2 < 10
    ensures Less([DigitChar(x1), DigitChar(x2)], [DigitChar(y1), DigitChar(y2)])
      <==> x1 < y1 || (x1 == y1 && x2 < y2)
  {
    var a1, a2, b1, b2 := [DigitChar(x1)], [DigitChar(x2)], [DigitChar(y1)], [DigitChar(y2)];
    assert [DigitChar(x1), DigitChar(x2)] == a1 + a2;
    assert [DigitChar(y1), DigitChar(y2)] == b1 + b2;
    LessConcat(a1, a2, b1, b2);
    assert Less(a1, b1) <==> x1 < y1 by {
      assert a1[1..] == [] && b1[1..] == [];
    }
    assert Less(a2, b2) <==> x2 < y2 by {
      assert a2[1..] == [] && b2[1..] == [];
    }
    assert a1 == b1 <==> x1 == y1 by {
      assert a1[0] == DigitChar(x1) && b1[0] == DigitChar(y1);
    }
  }

  /** Two-character strings of the tens and units digits of numbers below 100 order as
      the numbers do. */
  lemma TwoDigitStringOrder(a: nat, b: nat, sa: string, sb: string)
    requires a < 100 && b < 100
    requires sa == [DigitChar(a / 10), DigitChar(a % 10)] && sb == [DigitChar(b / 10), DigitChar(b % 10)]
    ensures Less(sa, sb) <==> a < b
  {
    DigitsOrder(a, b);
    DigitPairOrder(a / 10, a % 10, b / 10, b % 10);
  }

  /** For numbers below 100, two-digit zero padding orders as the numbers do. */
  lemma Pad2Order(a: nat, b: nat)
    requires a < 100 && b < 100
    ensures Less(Pad2(a), Pad2(b)) <==> a < b
  {
    Pad2Digits(a);
    Pad2Digits(b);
    TwoDigitStringOrder(a, b, Pad2(a), Pad2(b));
  }

  /** Below 100, numbers compare by their tens digit, then by their units digit. */
  lemma DigitsOrder(a: nat, b: nat)
    requires a < 100 && b < 100
    ensures a / 10 < 10 && a % 10 < 10 && b / 10 < 10 && b % 10 < 10
    ensures a < b <==> a / 10 < b / 10 || (a / 10 == b / 10 && a % 10 < b % 10)
  {
    var ta, ua, tb, ub := a / 10, a % 10, b / 10, b % 10;
    assert a == 10 * ta + ua && 0 <= ua < 10;
    assert b == 10 * tb + ub && 0 <= ub < 10;
  }

  predicate Sorted(s: seq<string>) {
    forall i, j :: 0 <= i < j < |s| ==> AtMost(s[i], s[j])
  }

  function Insert(x: string, s: seq<string>): (r: seq<string>)
    requires Sorted(s)
    ensures Sorted(r) && multiset(r) == multiset(s) + multiset{x}
    decreases |s|
  {
    if s == [] then [x]
    else if AtMost(x, s[0]) then
      assert forall j :: 0 <= j < |s| ==> AtMost(x, s[j]) by {
        forall j | 0 <= j < |s| ensures AtMost(x, s[j]) {
          if x != s[0] && s[0] != s[j] { LessTransitive(x, s[0], s[j]); }
        }
      }
      [x] + s
    else
      LessTotal(x, s[0]);
      var rest := Insert(x, s[1..]);
      assert s == [s[0]] + s[1..];
      assert forall j :: 0 <= j < |rest| ==> AtMost(s[0], rest[j]) by {
        forall j | 0 <= j < |rest| ensures AtMost(s[0], rest[j]) {
          assert rest[j] in multiset(rest);
          if rest[j] != x {
            assert rest[j] in multiset(s[1..]);
            var k :| 0 <= k < |s[1..]| && s[1..][k] == rest[j];
            assert s[k + 1] == rest[j];
          }
        }
      }
      [s[0]] + rest
  }

  /** Array.prototype.sort() on strings: the same strings, in ascending order. */
  function Sort(s: seq<string>): (r: seq<string>)
    ensures Sorted(r) && multiset(r) == multiset(s)
    ensures |r| == |s| && forall x :: x in r <==> x in s
  {
    if s == [] then []
    else
      assert s == s[..|s| - 1] + [s[|s| - 1]];
      var r := Insert(s[|s| - 1], Sort(s[..|s| - 1]));
      assert forall x :: x in r <==> x in multiset(r);
      assert forall x :: x in s <==> x in multiset(s);
      r
  }

  /** Sorting strings that are pairwise distinct gives a strictly ascending sequence. */
  lemma SortStrict(s: seq<string>)
    requires forall i, j :: 0 <= i < j < |s| ==> s[i] != s[j]
    ensures forall i, j :: 0 <= i < j < |Sort(s)| ==> Less(Sort(s)[i], Sort(s)[j])
  {
    var r := Sort(s);
    forall i, j | 0 <= i < j < |r| ensures Less(r[i], r[j]) {
      if r[i] == r[j] {
        DuplicateCount(r, i, j);
        DistinctCount(s, r[i]);
        assert false;
      }
    }
  }

  lemma DuplicateCount(r: seq<string>, i: nat, j: nat)
    requires i < j < |r| && r[i] == r[j]
    ensures multiset(r)[r[i]] >= 2
  {
    assert r == r[..i] + [r[i]] + r[i + 1..j] + [r[j]] + r[j + 1..];
  }

  lemma {:induction false} DistinctCount(s: seq<string>, x: string)
    requires forall i, j :: 0 <= i < j < |s| ==> s[i] != s[j]
    ensures multiset(s)[x] <= 1
  {
    if s != [] {
      var t := s[..|s| - 1];
      assert s == t + [s[|s| - 1]];
      DistinctCount(t, x);
      if x == s[|s| - 1] {
        assert x !in t;
        assert multiset(t)[x] == 0;
      }
    }
  }
}
