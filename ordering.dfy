/**
 * The pieces of the C++ standard library the autocomplete index relies on:
 * the order of `std::string` (`operator<`), prefix tests, the ascending
 * iteration of `std::set<int>` and of the keys of `std::map<std::string, _>`,
 * and the algorithms `std::sort`, `std::unique` and `std::binary_search`.
 */
module Ordering {

  // ---------------------------------------------------------------------------
  // Strings: lexicographic order and prefixes
  // ---------------------------------------------------------------------------

  /** `a < b` on `std::string`: lexicographic comparison, character by character. */
  predicate StrLess(a: string, b: string)
    decreases |a|
  {
    if |a| == 0 then |b| > 0
    else if |b| == 0 then false
    else if a[0] != b[0] then a[0] < b[0]
    else StrLess(a[1..], b[1..])
  }

  /** `p` is a prefix of `s` (in the source: `s.find(p) == 0`). */
  predicate IsPrefix(p: string, s: string) {
    |p| <= |s| && s[..|p|] == p
  }

  lemma {:induction false} StrLessIrreflexive(a: string)
    ensures !StrLess(a, a)
  {
    if |a| > 0 {
      StrLessIrreflexive(a[1..]);
    }
  }

  lemma {:induction false} StrLessTransitive(a: string, b: string, c: string)
    requires StrLess(a, b) && StrLess(b, c)
    ensures StrLess(a, c)
  {
    if |a| > 0 && a[0] == b[0] && b[0] == c[0] {
      StrLessTransitive(a[1..], b[1..], c[1..]);
    }
  }

  lemma {:induction false} StrLessTotal(a: string, b: string)
    ensures a == b || StrLess(a, b) || StrLess(b, a)
  {
    if |a| > 0 && |b| > 0 && a[0] == b[0] {
      StrLessTotal(a[1..], b[1..]);
      if a[1..] == b[1..] {
        assert a == [a[0]] + a[1..] && b == [b[0]] + b[1..];
      }
    }
  }

  lemma StrLessAsymmetric(a: string, b: string)
    requires StrLess(a, b)
    ensures !StrLess(b, a)
  {
    if StrLess(b, a) {
      StrLessTransitive(a, b, a);
      StrLessIrreflexive(a);
    }
  }

  /** A string is never below one of its prefixes. */
  lemma {:induction false} PrefixNotBelow(t: string, k: string)
    requires IsPrefix(t, k)
    ensures !StrLess(k, t)
  {
    if |t| > 0 {
      assert k[1..][..|t| - 1] == t[1..];
      PrefixNotBelow(t[1..], k[1..]);
    }
  }

  /**
   * Every string that starts with `t` lies below every string that is above `t`
   * without starting with it: the strings with prefix `t` are contiguous.
   */
  lemma {:induction false} PrefixBelowOthers(t: string, c: string, b: string)
    requires IsPrefix(t, c) && !IsPrefix(t, b) && StrLess(t, b)
    ensures StrLess(c, b)
  {
    assert |t| > 0 && |b| > 0 && c[0] == t[0];
    if t[0] == b[0] {
      assert c[1..][..|t| - 1] == t[1..];
      if |t| <= |b| {
        assert b[..|t|] == [b[0]] + b[1..][..|t| - 1];
      }
      PrefixBelowOthers(t[1..], c[1..], b[1..]);
    }
  }

  /** A string that is neither below `t` nor above it is `t` itself. */
  lemma NeitherBelowNorAbove(t: string, k: string)
    requires !StrLess(k, t) && !StrLess(t, k)
    ensures IsPrefix(t, k)
  {
    StrLessTotal(t, k);
  }

  // ---------------------------------------------------------------------------
  // Sorted sequences of integers
  // ---------------------------------------------------------------------------

  /** Strictly increasing: sorted and free of duplicates. */
  predicate Increasing(s: seq<int>) {
    forall i, j :: 0 <= i < j < |s| ==> s[i] < s[j]
  }

  predicate NonDecreasing(s: seq<int>) {
    forall i, j :: 0 <= i < j < |s| ==> s[i] <= s[j]
  }

  /** Two duplicate-free sorted sequences with the same elements are equal. */
  lemma {:induction false} IncreasingUnique(a: seq<int>, b: seq<int>)
    requires Increasing(a) && Increasing(b)
    requires forall x :: x in a <==> x in b
    ensures a == b
  {
    if |a| > 0 {
      var a0 := a[0];
      assert a0 in b;
    }
    if |b| > 0 {
      var b0 := b[0];
      assert b0 in a;
    }
    if |a| > 0 && |b| > 0 {
      var a0, b0 := a[0], b[0];
      assert a0 in a && b0 in b;
      var i :| 0 <= i < |b| && b[i] == a0;
      var j :| 0 <= j < |a| && a[j] == b0;
      assert a0 == b0;
      forall x
        ensures x in a[1..] <==> x in b[1..]
      {
        if x in a[1..] {
          var k :| 1 <= k < |a| && a[k] == x;
          assert x != a0;
        }
        if x in b[1..] {
          var k :| 1 <= k < |b| && b[k] == x;
          assert x != b0;
        }
        if x in a && x != a0 {
          var k :| 0 <= k < |a| && a[k] == x;
          assert a[1..][k - 1] == x;
        }
        if x in b && x != b0 {
          var k :| 0 <= k < |b| && b[k] == x;
          assert b[1..][k - 1] == x;
        }
      }
      IncreasingUnique(a[1..], b[1..]);
      assert a == [a0] + a[1..] && b == [b0] + b[1..];
    }
  }

  /** A non-empty set has an element. */
  lemma SomeElement<T>(s: set<T>) returns (x: T)
    requires s != {}
    ensures x in s
  {
    assert (forall y :: y !in s) ==> s == {};
    x :| x in s;
  }

  predicate IsIntMin(m: int, s: set<int>) {
    m in s && forall y :: y in s ==> m <= y
  }

  lemma {:induction false} IntMinExists(s: set<int>)
    requires s != {}
    ensures exists m :: IsIntMin(m, s)
  {
    var x := SomeElement(s);
    var rest := s - {x};
    assert forall y :: y in s ==> y == x || y in rest;
    if rest != {} {
      IntMinExists(rest);
      var m :| IsIntMin(m, rest);
      if x < m {
        assert IsIntMin(x, s);
      } else {
        assert IsIntMin(m, s);
      }
    } else {
      assert forall y :: y in s ==> y == x;
      assert IsIntMin(x, s);
    }
  }

  /** The elements of a `std::set<int>` in iteration order (ascending). */
  function SortedSeqOf(s: set<int>): (r: seq<int>)
    ensures Increasing(r) && |r| == |s|
    ensures forall x :: x in r <==> x in s
    decreases |s|
  {
    if s == {} then []
    else
      IntMinExists(s);
      var m :| IsIntMin(m, s);
      var rest := SortedSeqOf(s - {m});
      PrependMin(m, s, rest);
      [m] + rest
  }

  lemma PrependMin(m: int, s: set<int>, rest: seq<int>)
    requires IsIntMin(m, s) && Increasing(rest)
    requires forall x :: x in rest <==> x in s - {m}
    ensures Increasing([m] + rest)
    ensures forall x :: x in [m] + rest <==> x in s
  {
    forall i | 0 <= i < |rest|
      ensures m < rest[i]
    {
      var y := rest[i];
      assert y in rest;
      assert y in s - {m};
    }
    forall x | x in s
      ensures x in [m] + rest
    {
      if x != m {
        assert x in s - {m};
      }
    }
  }

  // ---------------------------------------------------------------------------
  // Sorted sequences of strings: keys of a std::map<std::string, _>
  // ---------------------------------------------------------------------------

  /** Strictly increasing in `std::string` order. */
  predicate StrIncreasing(s: seq<string>) {
    forall i, j :: 0 <= i < j < |s| ==> StrLess(s[i], s[j])
  }

  predicate IsStrMin(m: string, s: set<string>) {
    m in s && forall y :: y in s ==> !StrLess(y, m)
  }

  lemma {:induction false} StrMinExists(s: set<string>)
    requires s != {}
    ensures exists m :: IsStrMin(m, s)
  {
    var x := SomeElement(s);
    var rest := s - {x};
    assert forall y :: y in s ==> y == x || y in rest;
    StrLessIrreflexive(x);
    if rest != {} {
      StrMinExists(rest);
      var m :| IsStrMin(m, rest);
      if StrLess(x, m) {
        forall y | y in s
          ensures !StrLess(y, x)
        {
          if y != x {
            assert y in rest;
            if StrLess(y, x) {
              StrLessTransitive(y, x, m);
            }
          }
        }
        assert IsStrMin(x, s);
      } else {
        assert IsStrMin(m, s);
      }
    } else {
      assert forall y :: y in s ==> y == x;
      assert IsStrMin(x, s);
    }
  }

  lemma StrMinUnique(s: set<string>)
    ensures forall a, b :: IsStrMin(a, s) && IsStrMin(b, s) ==> a == b
  {
    forall a, b | IsStrMin(a, s) && IsStrMin(b, s)
      ensures a == b
    {
      StrLessTotal(a, b);
    }
  }

  /** The keys of a `std::map<std::string, _>` in iteration order (ascending). */
  function SortedStringsOf(s: set<string>): (r: seq<string>)
    ensures StrIncreasing(r) && |r| == |s|
    ensures forall x :: x in r <==> x in s
    decreases |s|
  {
    if s == {} then []
    else
      StrMinExists(s);
      StrMinUnique(s);
      var m :| IsStrMin(m, s);
      var rest := SortedStringsOf(s - {m});
      assert forall i :: 0 <= i < |rest| ==> rest[i] in s - {m};
      assert forall i :: 0 <= i < |rest| ==> StrLess(m, rest[i]) by {
        forall i | 0 <= i < |rest|
          ensures StrLess(m, rest[i])
        {
          StrLessTotal(m, rest[i]);
        }
      }
      [m] + rest
  }

  // ---------------------------------------------------------------------------
  // std::sort, std::unique, std::binary_search
  // ---------------------------------------------------------------------------

  /** Sorted by ascending `key`. */
  predicate SortedBy<T>(s: seq<T>, key: T -> int) {
    forall i, j :: 0 <= i < j < |s| ==> key(s[i]) <= key(s[j])
  }

  /** The head of a sorted sequence has the least key of all its members. */
  lemma SortedHeadLeast<T>(s: seq<T>, key: T -> int)
    requires SortedBy(s, key) && |s| > 0
    ensures forall y | y in multiset(s) :: key(s[0]) <= key(y)
  {
    forall y | y in multiset(s)
      ensures key(s[0]) <= key(y)
    {
      assert y in s;
      var j :| 0 <= j < |s| && s[j] == y;
    }
  }

  /** A key no greater than every member's can be put in front of a sorted sequence. */
  lemma SortedCons<T>(h: T, t: seq<T>, key: T -> int)
    requires SortedBy(t, key) && forall y | y in multiset(t) :: key(h) <= key(y)
    ensures SortedBy([h] + t, key)
  {
    var r := [h] + t;
    forall i, j | 0 <= i < j < |r|
      ensures key(r[i]) <= key(r[j])
    {
      assert r[j] == t[j - 1];
      if i == 0 {
        assert t[j - 1] in multiset(t);
      } else {
        assert r[i] == t[i - 1];
      }
    }
  }

  function InsertBy<T>(s: seq<T>, x: T, key: T -> int): (r: seq<T>)
    requires SortedBy(s, key)
    ensures SortedBy(r, key) && multiset(r) == multiset(s) + multiset{x}
    decreases |s|
  {
    if |s| == 0 then [x]
    else if key(x) <= key(s[0]) then
      SortedHeadLeast(s, key);
      SortedCons(x, s, key);
      [x] + s
    else
      assert s == [s[0]] + s[1..];
      var rest := InsertBy(s[1..], x, key);
      SortedHeadLeast(s, key);
      assert multiset(rest) == multiset(s[1..]) + multiset{x};
      assert multiset(s) == multiset{s[0]} + multiset(s[1..]);
      SortedCons(s[0], rest, key);
      [s[0]] + rest
  }

  /** A sort by ascending `key`: the output is sorted and a permutation of the input. */
  function SortBy<T>(s: seq<T>, key: T -> int): (r: seq<T>)
    ensures SortedBy(r, key) && multiset(r) == multiset(s)
    decreases |s|
  {
    if s == [] then []
    else
      assert s == [s[0]] + s[1..];
      InsertBy(SortBy(s[1..], key), s[0], key)
  }

  /** `std::sort` on a vector of positions. */
  function SortInts(s: seq<int>): (r: seq<int>)
    ensures NonDecreasing(r) && multiset(r) == multiset(s)
  {
    var r := SortBy(s, (x: int) => x);
    assert forall i, j :: 0 <= i < j < |r| ==> r[i] <= r[j] by {
      forall i, j | 0 <= i < j < |r|
        ensures r[i] <= r[j]
      {
        assert ((x: int) => x)(r[i]) <= ((x: int) => x)(r[j]);
      }
    }
    r
  }

  /** `std::unique` on a sorted vector, keeping the part before the returned iterator. */
  function Unique(s: seq<int>): (r: seq<int>)
    requires NonDecreasing(s)
    ensures Increasing(r)
    ensures forall x :: x in r <==> x in s
    decreases |s|
  {
    if |s| <= 1 then s
    else if s[0] == s[1] then
      var rest := Unique(s[1..]);
      assert forall x :: x in s <==> x in s[1..] by {
        assert s == [s[0]] + s[1..];
      }
      rest
    else
      var rest := Unique(s[1..]);
      assert forall i :: 0 <= i < |rest| ==> rest[i] in s[1..];
      assert s == [s[0]] + s[1..];
      [s[0]] + rest
  }

  /** `std::binary_search`: a lower bound, then an equality test at that place. */
  method BinarySearch(s: seq<int>, x: int) returns (found: bool)
    requires NonDecreasing(s)
    ensures found <==> x in s
  {
    var lo, hi := 0, |s|;
    while lo < hi
      invariant 0 <= lo <= hi <= |s|
      invariant forall i :: 0 <= i < lo ==> s[i] < x
      invariant forall i :: hi <= i < |s| ==> x <= s[i]
    {
      var mid := (lo + hi) / 2;
      if s[mid] < x {
        lo := mid + 1;
      } else {
        hi := mid;
      }
    }
    found := lo < |s| && !(x < s[lo]);
  }

  function Min(a: int, b: int): int {
    if a <= b then a else b
  }
}
