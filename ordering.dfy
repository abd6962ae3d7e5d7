/** Python's ordering of `str` values (code point by code point, a proper
    prefix first) and `sorted(..., reverse=True)` over it. */
module Ordering {

  /** `a < b` for Python strings. */
  predicate Less(a: string, b: string)
    decreases |b|
  {
    b != [] && (a == [] || a[0] < b[0] || (a[0] == b[0] && Less(a[1..], b[1..])))
  }

  lemma {:induction false} LessIrreflexive(a: string)
    ensures !Less(a, a)
    decreases |a|
  {
    if a != [] {
      LessIrreflexive(a[1..]);
    }
  }

  lemma {:induction false} LessTransitive(a: string, b: string, c: string)
    requires Less(a, b) && Less(b, c)
    ensures Less(a, c)
    decreases |c|
  {
    if a != [] && a[0] == b[0] && b[0] == c[0] {
      LessTransitive(a[1..], b[1..], c[1..]);
    }
  }

  /** "Not smaller than" is transitive too. */
  lemma {:induction false} NotLessTransitive(a: string, b: string, c: string)
    requires !Less(a, b) && !Less(b, c)
    ensures !Less(a, c)
    decreases |a|
  {
    if a != [] && b != [] && c != [] && a[0] == b[0] && b[0] == c[0] {
      NotLessTransitive(a[1..], b[1..], c[1..]);
    }
  }

  /** Any two strings are equal or ordered one way or the other. */
  lemma {:induction false} Trichotomy(a: string, b: string)
    ensures Less(a, b) || a == b || Less(b, a)
    decreases |a|
  {
    if a != [] && b != [] && a[0] == b[0] {
      Trichotomy(a[1..], b[1..]);
      assert a == [a[0]] + a[1..] && b == [b[0]] + b[1..];
    }
  }

  lemma {:induction false} LessAsymmetric(a: string, b: string)
    requires Less(a, b)
    ensures !Less(b, a)
  {
    if Less(b, a) {
      LessTransitive(a, b, a);
      LessIrreflexive(a);
    }
  }

  /** What `sorted(..., reverse=True)` promises: no element is smaller than
      one after it. */
  predicate NonIncreasing(s: seq<string>) {
    forall i, j :: 0 <= i < j < |s| ==> !Less(s[i], s[j])
  }

  /** Insert `x` into a non-increasing sequence, after every element not
      smaller than it. */
  function InsertDesc(x: string, s: seq<string>): (r: seq<string>)
    requires NonIncreasing(s)
    ensures NonIncreasing(r)
    ensures multiset(r) == multiset(s) + multiset{x}
  {
    if s == [] then [x]
    else if !Less(x, s[0]) then
      NotLessAll(x, s);
      ConsNonIncreasing(x, s);
      [x] + s
    else
      var t := InsertDesc(x, s[1..]);
      assert s == [s[0]] + s[1..];
      HeadAbove(s[0], x, s[1..], t);
      ConsNonIncreasing(s[0], t);
      [s[0]] + t
  }

  /** What is not smaller than the head of a non-increasing sequence is not
      smaller than any of its elements. */
  lemma {:induction false} NotLessAll(x: string, s: seq<string>)
    requires NonIncreasing(s) && s != [] && !Less(x, s[0])
    ensures forall j :: 0 <= j < |s| ==> !Less(x, s[j])
  {
    forall j | 0 < j < |s|
      ensures !Less(x, s[j])
    {
      NotLessTransitive(x, s[0], s[j]);
    }
  }

  /** A head not smaller than anything after it keeps the order. */
  lemma {:induction false} ConsNonIncreasing(h: string, t: seq<string>)
    requires NonIncreasing(t)
    requires forall j :: 0 <= j < |t| ==> !Less(h, t[j])
    ensures NonIncreasing([h] + t)
  {
    var r := [h] + t;
    forall i, j | 0 <= i < j < |r|
      ensures !Less(r[i], r[j])
    {
      assert r[j] == t[j - 1];
      if i > 0 {
        assert r[i] == t[i - 1];
      }
    }
  }

  /** A head above `x` and above every element of `rest` is above every
      element of `rest` with `x` inserted. */
  lemma {:induction false} HeadAbove(h: string, x: string, rest: seq<string>, t: seq<string>)
    requires Less(x, h)
    requires forall j :: 0 <= j < |rest| ==> !Less(h, rest[j])
    requires multiset(t) == multiset(rest) + multiset{x}
    ensures forall j :: 0 <= j < |t| ==> !Less(h, t[j])
  {
    forall j | 0 <= j < |t|
      ensures !Less(h, t[j])
    {
      assert t[j] in multiset(t);
      if t[j] == x {
        LessAsymmetric(x, h);
      } else {
        assert t[j] in multiset(rest);
        var k :| 0 <= k < |rest| && rest[k] == t[j];
      }
    }
  }

  /** `sorted(s, reverse=True)`. */
  function SortDesc(s: seq<string>): (r: seq<string>)
    ensures NonIncreasing(r)
    ensures multiset(r) == multiset(s)
  {
    if s == [] then []
    else
      assert s == [s[0]] + s[1..];
      InsertDesc(s[0], SortDesc(s[1..]))
  }

  /** A non-increasing arrangement of a multiset of strings is unique, so any
      correct sort yields `SortDesc`. */
  lemma {:induction false} NonIncreasingUnique(a: seq<string>, b: seq<string>)
    requires NonIncreasing(a) && NonIncreasing(b)
    requires multiset(a) == multiset(b)
    ensures a == b
    decreases |a|
  {
    assert |a| == |multiset(a)| == |multiset(b)| == |b|;
    if a != [] {
      SameHead(a, b);
      TailMultiset(a);
      TailMultiset(b);
      NonIncreasingUnique(a[1..], b[1..]);
      assert a == [a[0]] + a[1..] && b == [b[0]] + b[1..];
    }
  }

  /** The tail of a sequence holds its elements but the head, and keeps
      their order. */
  lemma {:induction false} TailMultiset(a: seq<string>)
    requires a != []
    ensures multiset(a[1..]) == multiset(a) - multiset{a[0]}
    ensures NonIncreasing(a) ==> NonIncreasing(a[1..])
  {
    assert a == [a[0]] + a[1..];
    if NonIncreasing(a) {
      forall i, j | 0 <= i < j < |a| - 1
        ensures !Less(a[1..][i], a[1..][j])
      {
        assert a[1..][i] == a[i + 1] && a[1..][j] == a[j + 1];
      }
    }
  }

  /** Two non-increasing arrangements of one multiset start alike. */
  lemma {:induction false} SameHead(a: seq<string>, b: seq<string>)
    requires a != [] && b != []
    requires NonIncreasing(a) && NonIncreasing(b)
    requires multiset(a) == multiset(b)
    ensures a[0] == b[0]
  {
    assert a[0] in multiset(b) && b[0] in multiset(a);
    var i :| 0 <= i < |b| && b[i] == a[0];
    var j :| 0 <= j < |a| && a[j] == b[0];
    assert i == 0 || !Less(b[0], a[0]);
    assert j == 0 || !Less(a[0], b[0]);
    Trichotomy(a[0], b[0]);
  }

  /** The distinct elements of `s`, each where it first occurs: the elements
      of a Python `set` built from `s`. */
  function Distinct(s: seq<string>): (r: seq<string>)
    ensures forall x :: x in r <==> x in s
    ensures forall i, j :: 0 <= i < j < |r| ==> r[i] != r[j]
  {
    if s == [] then []
    else
      var r := Distinct(s[..|s| - 1]);
      assert s == s[..|s| - 1] + [s[|s| - 1]];
      if s[|s| - 1] in r then r else r + [s[|s| - 1]]
  }

  /** Every string occurs at most once in `s`. */
  predicate NoDuplicates(s: seq<string>) {
    forall i, j :: 0 <= i < j < |s| ==> s[i] != s[j]
  }

  /** A permutation of a sequence without duplicates has none either. */
  lemma {:induction false} PermutationNoDuplicates(a: seq<string>, b: seq<string>)
    requires multiset(a) == multiset(b) && NoDuplicates(a)
    ensures NoDuplicates(b)
  {
    forall i, j | 0 <= i < j < |b|
      ensures b[i] != b[j]
    {
      if b[i] == b[j] {
        TwoOccurrences(b, i, j);
        DistinctCount(a, b[i]);
        assert false;
      }
    }
  }

  /** An element found at two positions occurs at least twice. */
  lemma {:induction false} TwoOccurrences(b: seq<string>, i: nat, j: nat)
    requires i < j < |b| && b[i] == b[j]
    ensures multiset(b)[b[i]] >= 2
  {
    var x := b[i];
    assert b == b[..j] + b[j..];
    assert multiset(b) == multiset(b[..j]) + multiset(b[j..]);
    assert b[..j][i] == x;
    assert x in multiset(b[..j]);
    assert b[j..][0] == x;
    assert x in multiset(b[j..]);
  }

  /** In a sequence without duplicates every element occurs once. */
  lemma {:induction false} DistinctCount(a: seq<string>, x: string)
    requires NoDuplicates(a)
    ensures multiset(a)[x] <= 1
  {
    if a != [] {
      assert a == [a[0]] + a[1..];
      DistinctCount(a[1..], x);
      if x == a[0] {
        assert x !in a[1..];
      }
    }
  }

  /** `sorted(set(s), reverse=True)`: strictly decreasing, and holding exactly
      the elements of `s`. */
  lemma {:induction false} SortedSet(s: seq<string>)
    ensures var r := SortDesc(Distinct(s));
      (forall x :: x in r <==> x in s)
      && (forall i, j :: 0 <= i < j < |r| ==> Less(r[j], r[i]))
  {
    var d := Distinct(s);
    var r := SortDesc(d);
    assert forall x :: x in r <==> x in multiset(r);
    assert forall x :: x in d <==> x in multiset(d);
    PermutationNoDuplicates(d, r);
    forall i, j | 0 <= i < j < |r|
      ensures Less(r[j], r[i])
    {
      Trichotomy(r[i], r[j]);
    }
  }
}
