/** Python's ordering of `str` values and `sorted()` on a list of them. */
module Sorting {

  /** `a < b` on Python strings: lexicographic by code point, a proper prefix coming first. */
  predicate Below(a: string, b: string)
    decreases |a|
  {
    if |a| == 0 then |b| > 0
    else |b| > 0 && (a[0] < b[0] || (a[0] == b[0] && Below(a[1..], b[1..])))
  }

  predicate AtMost(a: string, b: string) {
    a == b || Below(a, b)
  }

  lemma {:induction false} BelowIrreflexive(a: string)
    ensures !Below(a, a)
    decreases |a|
  {
    if |a| > 0 { BelowIrreflexive(a[1..]); }
  }

  lemma {:induction false} BelowAsymmetric(a: string, b: string)
    requires Below(a, b)
    ensures !Below(b, a)
    decreases |a|
  {
    if |a| > 0 && a[0] == b[0] { BelowAsymmetric(a[1..], b[1..]); }
  }

  lemma {:induction false} BelowTransitive(a: string, b: string, c: string)
    requires Below(a, b) && Below(b, c)
    ensures Below(a, c)
    decreases |a|
  {
    if |a| > 0 && a[0] == b[0] && b[0] == c[0] { BelowTransitive(a[1..], b[1..], c[1..]); }
  }

  /** Any two different strings are ordered one way or the other. */
  lemma {:induction false} BelowTotal(a: string, b: string)
    requires a != b
    ensures Below(a, b) || Below(b, a)
    decreases |a|
  {
    if |a| > 0 && |b| > 0 && a[0] == b[0] {
      assert a == [a[0]] + a[1..] && b == [b[0]] + b[1..];
      BelowTotal(a[1..], b[1..]);
    }
  }

  lemma AtMostTransitive(a: string, b: string, c: string)
    requires AtMost(a, b) && AtMost(b, c)
    ensures AtMost(a, c)
  {
    if Below(a, b) && Below(b, c) { BelowTransitive(a, b, c); }
  }

  lemma AtMostAntisymmetric(a: string, b: string)
    requires AtMost(a, b) && AtMost(b, a)
    ensures a == b
  {
    if a != b { BelowAsymmetric(a, b); }
  }

  /** Ascending order, each element at most every later one. */
  predicate Sorted(s: seq<string>) {
    forall i, j | 0 <= i < j < |s| :: AtMost(s[i], s[j])
  }

  /** One step of insertion sort: `x` placed before the first element it does not follow. */
  function Insert(x: string, s: seq<string>): (r: seq<string>)
    requires Sorted(s)
    ensures multiset(r) == multiset(s) + multiset{x}
    ensures Sorted(r)
  {
    if s == [] then [x]
    else if AtMost(x, s[0]) then
      HeadBound(s, x);
      ConsSorted(x, s);
      assert s == [s[0]] + s[1..];
      [x] + s
    else
      BelowTotal(x, s[0]);
      var rest := Insert(x, s[1..]);
      assert s == [s[0]] + s[1..];
      HeadBound(s, s[0]);
      MembersBound(s[0], x, s[1..], rest);
      ConsSorted(s[0], rest);
      [s[0]] + rest
  }

  /** A bound of the first element of a sorted list bounds all of it. */
  lemma HeadBound(s: seq<string>, y: string)
    requires Sorted(s) && s != [] && AtMost(y, s[0])
    ensures forall j | 0 <= j < |s| :: AtMost(y, s[j])
  {
    forall j | 0 <= j < |s| ensures AtMost(y, s[j]) {
      if j > 0 { AtMostTransitive(y, s[0], s[j]); }
    }
  }

  /** A bound of `x` and of every element of `s` bounds every element of a permutation of both. */
  lemma MembersBound(y: string, x: string, s: seq<string>, rest: seq<string>)
    requires multiset(rest) == multiset(s) + multiset{x}
    requires AtMost(y, x) && forall j | 0 <= j < |s| :: AtMost(y, s[j])
    ensures forall j | 0 <= j < |rest| :: AtMost(y, rest[j])
  {
    forall j | 0 <= j < |rest| ensures AtMost(y, rest[j]) {
      assert rest[j] in multiset(rest);
      if rest[j] != x {
        assert rest[j] in multiset(s);
        var k :| 0 <= k < |s| && s[k] == rest[j];
      }
    }
  }

  /** A lower bound of a sorted list can go in front of it. */
  lemma ConsSorted(y: string, s: seq<string>)
    requires Sorted(s) && forall j | 0 <= j < |s| :: AtMost(y, s[j])
    ensures Sorted([y] + s)
  {
    var r := [y] + s;
    forall i, j | 0 <= i < j < |r| ensures AtMost(r[i], r[j]) {
      assert r[j] == s[j - 1];
      if i > 0 { assert r[i] == s[i - 1]; }
    }
  }

  /** `sorted(s)`: an ascending permutation of `s`. */
  function Sort(s: seq<string>): (r: seq<string>)
    ensures multiset(r) == multiset(s)
    ensures Sorted(r)
  {
    if s == [] then []
    else
      assert s == [s[0]] + s[1..];
      Insert(s[0], Sort(s[1..]))
  }

  /** There is only one ascending arrangement of a multiset of strings, so `sorted` is fully
      determined by its result being ascending and a permutation of its input. */
  lemma {:induction false} SortedUnique(a: seq<string>, b: seq<string>)
    requires Sorted(a) && Sorted(b) && multiset(a) == multiset(b)
    ensures a == b
    decreases |a|
  {
    if a != [] {
      assert |b| == |multiset(b)| == |multiset(a)| == |a|;
      FirstIsLeast(a, b);
      FirstIsLeast(b, a);
      AtMostAntisymmetric(a[0], b[0]);
      SameTails(a, b);
      SortedUnique(a[1..], b[1..]);
      assert a == [a[0]] + a[1..] && b == [b[0]] + b[1..];
    }
  }

  /** The head of a sorted list is at most anything in a permutation of it. */
  lemma FirstIsLeast(a: seq<string>, b: seq<string>)
    requires Sorted(b) && multiset(a) == multiset(b) && a != [] && b != []
    ensures AtMost(b[0], a[0])
  {
    assert a[0] in multiset(b);
    var k :| 0 <= k < |b| && b[k] == a[0];
    if k > 0 { assert AtMost(b[0], b[k]); }
  }

  /** Two permutations of each other with the same head have tails that are permutations too. */
  lemma SameTails(a: seq<string>, b: seq<string>)
    requires multiset(a) == multiset(b) && a != [] && b != [] && a[0] == b[0]
    ensures multiset(a[1..]) == multiset(b[1..])
  {
    assert a == [a[0]] + a[1..] && b == [b[0]] + b[1..];
    assert multiset(a[1..]) == multiset(a) - multiset{a[0]};
    assert multiset(b[1..]) == multiset(b) - multiset{b[0]};
  }

  /** Sorting keeps a list free of repeats (the keys of a dict stay keys). */
  lemma SortKeepsDistinct(s: seq<string>)
    requires forall i, j | 0 <= i < j < |s| :: s[i] != s[j]
    ensures var r := Sort(s); forall i, j | 0 <= i < j < |r| :: r[i] != r[j]
  {
    var r := Sort(s);
    forall i, j | 0 <= i < j < |r| ensures r[i] != r[j] {
      if r[i] == r[j] {
        CountedTwice(r, i, j);
        DistinctAtMostOnce(s, r[i]);
      }
    }
  }

  lemma CountedTwice(r: seq<string>, i: nat, j: nat)
    requires i < j < |r| && r[i] == r[j]
    ensures multiset(r)[r[i]] >= 2
  {
    var x := r[i];
    assert r == r[..j] + [r[j]] + r[j + 1..];
    assert r[..j][i] == x;
    assert multiset(r[..j])[x] >= 1;
    assert multiset(r) == multiset(r[..j]) + multiset([r[j]]) + multiset(r[j + 1..]);
  }

  lemma {:induction false} DistinctAtMostOnce(s: seq<string>, x: string)
    requires forall i, j | 0 <= i < j < |s| :: s[i] != s[j]
    ensures multiset(s)[x] <= 1
    decreases |s|
  {
    if s != [] {
      assert s == [s[0]] + s[1..];
      DistinctAtMostOnce(s[1..], x);
      if s[0] == x {
        assert x !in s[1..];
        assert multiset(s[1..])[x] == 0;
      }
    }
  }
}
