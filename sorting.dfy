/**
 * The orders the migrator sorts by: URLs and file paths ascending (Python's
 * `sorted` on `str`), and a plan's per-file URL list by descending length
 * (`list.sort(reverse=True, key=len)`, which is stable).
 */
module Sorting {
  import opened Strings

  predicate StrictlySorted(s: seq<string>) {
    forall i, j :: 0 <= i < j < |s| ==> LexLess(s[i], s[j])
  }

  predicate Sorted(s: seq<string>) {
    forall i, j :: 0 <= i < j < |s| ==> LexLessEq(s[i], s[j])
  }

  /** Inserts a new element into a strictly ascending sequence. */
  function Insert(s: seq<string>, x: string): (r: seq<string>)
    requires StrictlySorted(s) && x !in s
    ensures StrictlySorted(r)
    ensures forall y :: y in r <==> y in s || y == x
    ensures |r| == |s| + 1
    decreases |s|
  {
    if s == [] then [x]
    else if LexLess(x, s[0]) then
      forall j | 0 < j < |s| ensures LexLess(x, s[j]) {
        LexLessTransitive(x, s[0], s[j]);
      }
      [x] + s
    else
      LexLessTotal(x, s[0]);
      var rest := Insert(s[1..], x);
      assert forall y :: y in rest ==> LexLess(s[0], y) by {
        forall y | y in rest ensures LexLess(s[0], y) {
          if y != x {
            var j :| 0 <= j < |s[1..]| && s[1..][j] == y;
            assert s[j + 1] == y;
          }
        }
      }
      [s[0]] + rest
  }

  /** The elements of `s` in ascending order. */
  ghost function SortedKeys(s: set<string>): (r: seq<string>)
    ensures StrictlySorted(r)
    ensures forall x :: x in r <==> x in s
    ensures |r| == |s|
    decreases |s|
  {
    if s == {} then []
    else
      var x :| x in s;
      Insert(SortedKeys(s - {x}), x)
  }

  /** Python's `sorted(keys)` for a set of distinct strings. */
  method SortedSeqOf(s: set<string>) returns (r: seq<string>)
    ensures r == SortedKeys(s)
    ensures StrictlySorted(r)
    ensures forall x :: x in r <==> x in s
  {
    r := [];
    var rest := s;
    while rest != {}
      invariant rest <= s
      invariant StrictlySorted(r)
      invariant forall x :: x in r <==> x in s - rest
      invariant |r| + |rest| == |s|
      decreases |rest|
    {
      var x :| x in rest;
      r := Insert(r, x);
      rest := rest - {x};
    }
    StrictlySortedUnique(r, SortedKeys(s));
  }

  /** Two strictly ascending sequences with the same elements are equal, so a
      sorted listing does not depend on the order the elements were found in. */
  lemma {:induction false} StrictlySortedUnique(a: seq<string>, b: seq<string>)
    requires StrictlySorted(a) && StrictlySorted(b)
    requires forall x :: x in a <==> x in b
    ensures a == b
    decreases |a|
  {
    assert b != [] ==> b[0] in a;
    if a != [] {
      assert b != [] by { assert a[0] in b; }
      if a[0] != b[0] {
        assert b[0] in a;
        assert a[0] in b;
        var i :| 0 <= i < |a| && a[i] == b[0];
        var j :| 0 <= j < |b| && b[j] == a[0];
        assert LexLess(a[0], b[0]) by { assert i != 0; }
        assert LexLess(b[0], a[0]) by { assert j != 0; }
        LexLessAsymmetric(a[0], b[0]);
      }
      forall x ensures x in a[1..] <==> x in b[1..] {
        if x in a[1..] {
          var i :| 0 <= i < |a[1..]| && a[1..][i] == x;
          assert LexLess(a[0], x) by { assert a[i + 1] == x; }
          LexLessIrreflexive(x);
          assert x != b[0];
          assert x in b;
        }
        if x in b[1..] {
          var j :| 0 <= j < |b[1..]| && b[1..][j] == x;
          assert LexLess(b[0], x) by { assert b[j + 1] == x; }
          LexLessIrreflexive(x);
          assert x != a[0];
          assert x in a;
        }
      }
      StrictlySortedUnique(a[1..], b[1..]);
      assert a == [a[0]] + a[1..] && b == [b[0]] + b[1..];
    }
  }

  /** Places `x` after every element not greater than it. */
  function InsertAscending(s: seq<string>, x: string): (r: seq<string>)
    requires Sorted(s)
    ensures Sorted(r)
    ensures multiset(r) == multiset(s) + multiset{x}
    decreases |s|
  {
    if s == [] || LexLessEq(s[|s| - 1], x) then
      BelowLast(s, x);
      SortedSnoc(s, x);
      s + [x]
    else
      var n := |s| - 1;
      LexLessTotal(x, s[n]);
      var init := InsertAscending(s[..n], x);
      InsertedBelow(s, x, init);
      SortedSnoc(init, s[n]);
      assert s == s[..n] + [s[n]];
      init + [s[n]]
  }

  /** In a sorted sequence whose last element is at most `x`, every element
      is. */
  lemma BelowLast(s: seq<string>, x: string)
    requires Sorted(s) && (s == [] || LexLessEq(s[|s| - 1], x))
    ensures forall y :: y in s ==> LexLessEq(y, x)
  {
    forall i | 0 <= i < |s| ensures LexLessEq(s[i], x) {
      if s[i] != s[|s| - 1] && s[|s| - 1] != x {
        LexLessTransitive(s[i], s[|s| - 1], x);
      }
    }
  }

  /** Appending an element at least as large as every element keeps a
      sequence sorted. */
  lemma SortedSnoc(s: seq<string>, x: string)
    requires Sorted(s) && forall y :: y in s ==> LexLessEq(y, x)
    ensures Sorted(s + [x])
  {
    forall i, j | 0 <= i < j < |s| + 1 ensures LexLessEq((s + [x])[i], (s + [x])[j]) {
      if j == |s| {
        assert s[i] in s;
      }
    }
  }

  /** Inserting `x`, at most the last element, into the rest keeps every
      element at most the last. */
  lemma InsertedBelow(s: seq<string>, x: string, init: seq<string>)
    requires Sorted(s) && s != [] && LexLessEq(x, s[|s| - 1])
    requires multiset(init) == multiset(s[..|s| - 1]) + multiset{x}
    ensures forall y :: y in init ==> LexLessEq(y, s[|s| - 1])
  {
    var n := |s| - 1;
    forall y | y in init ensures LexLessEq(y, s[n]) {
      assert y in multiset(init);
      if y != x {
        assert y in multiset(s[..n]);
        var i :| 0 <= i < n && s[..n][i] == y;
        assert s[i] == y;
      }
    }
  }

  /** `list.sort(key=url)`. */
  function SortAscending(s: seq<string>): (r: seq<string>)
    ensures Sorted(r)
    ensures multiset(r) == multiset(s)
    decreases |s|
  {
    if s == [] then []
    else
      var n := |s| - 1;
      assert s == s[..n] + [s[n]];
      InsertAscending(SortAscending(s[..n]), s[n])
  }

  /** Sorting a list that is already in order leaves it as it is. */
  lemma {:induction false} SortAscendingOfSorted(s: seq<string>)
    requires Sorted(s)
    ensures SortAscending(s) == s
    decreases |s|
  {
    if s != [] {
      var n := |s| - 1;
      assert Sorted(s[..n]);
      SortAscendingOfSorted(s[..n]);
      assert SortAscending(s) == InsertAscending(s[..n], s[n]);
      assert n > 0 ==> LexLessEq(s[..n][n - 1], s[n]);
      assert InsertAscending(s[..n], s[n]) == s[..n] + [s[n]];
      LastSplits(s);
    }
  }

  /** A non-empty sequence is its front followed by its last element. */
  lemma LastSplits(s: seq<string>)
    requires s != []
    ensures s[..|s| - 1] + [s[|s| - 1]] == s
  {
  }

  // ---------------------------------------------------------------------------
  // Descending length, stable.

  predicate NonIncreasingLength(s: seq<string>) {
    forall i, j :: 0 <= i < j < |s| ==> |s[i]| >= |s[j]|
  }

  /** Places `x` after every element at least as long, as a stable sort does
      with the element that came last in its input. */
  function InsertByLength(s: seq<string>, x: string): (r: seq<string>)
    requires NonIncreasingLength(s)
    ensures NonIncreasingLength(r)
    ensures multiset(r) == multiset(s) + multiset{x}
    decreases |s|
  {
    if s == [] then [x]
    else if |s[0]| < |x| then
      HeadLongest(s);
      ConsLonger(x, s);
      [x] + s
    else
      var rest := InsertByLength(s[1..], x);
      HeadLongest(s);
      InsertedNoLonger(s, x, rest);
      ConsLonger(s[0], rest);
      assert s == [s[0]] + s[1..];
      [s[0]] + rest
  }

  /** No element is longer than the first. */
  lemma HeadLongest(s: seq<string>)
    requires NonIncreasingLength(s) && s != []
    ensures NonIncreasingLength(s[1..])
    ensures forall y :: y in s ==> |y| <= |s[0]|
  {
    forall y | y in s ensures |y| <= |s[0]| {
      var j :| 0 <= j < |s| && s[j] == y;
    }
  }

  /** An element at least as long as every other can go first. */
  lemma ConsLonger(a: string, r: seq<string>)
    requires NonIncreasingLength(r) && forall y :: y in r ==> |y| <= |a|
    ensures NonIncreasingLength([a] + r)
  {
    forall i, j | 0 <= i < j < |r| + 1 ensures |([a] + r)[i]| >= |([a] + r)[j]| {
      assert ([a] + r)[j] == r[j - 1];
      if i == 0 {
        assert r[j - 1] in r;
      } else {
        assert ([a] + r)[i] == r[i - 1];
      }
    }
  }

  /** Inserting `x`, no longer than the head, into the tail leaves the head
      the longest. */
  lemma InsertedNoLonger(s: seq<string>, x: string, rest: seq<string>)
    requires s != [] && |x| <= |s[0]| && forall y :: y in s ==> |y| <= |s[0]|
    requires multiset(rest) == multiset(s[1..]) + multiset{x}
    ensures forall y :: y in rest ==> |y| <= |s[0]|
  {
    forall y | y in rest ensures |y| <= |s[0]| {
      assert y in multiset(rest);
      if y != x {
        assert y in multiset(s[1..]);
        assert y in s[1..];
        var j :| 0 <= j < |s[1..]| && s[1..][j] == y;
        assert s[j + 1] == y;
      }
    }
  }

  /** `list.sort(reverse=True, key=len)`. */
  function SortByLengthDesc(s: seq<string>): (r: seq<string>)
    ensures NonIncreasingLength(r)
    ensures multiset(r) == multiset(s)
    decreases |s|
  {
    if s == [] then []
    else
      assert s == s[..|s| - 1] + [s[|s| - 1]];
      InsertByLength(SortByLengthDesc(s[..|s| - 1]), s[|s| - 1])
  }

  /** Sorting keeps exactly the elements it was given. */
  lemma SortByLengthDescMembers(s: seq<string>)
    ensures forall x :: x in SortByLengthDesc(s) <==> x in s
  {
    assert forall x :: x in SortByLengthDesc(s) <==> x in multiset(SortByLengthDesc(s));
    assert forall x :: x in s <==> x in multiset(s);
  }

  /** Longer first; among equally long strings, ascending. */
  predicate LengthThenLex(a: string, b: string) {
    |a| > |b| || (|a| == |b| && LexLess(a, b))
  }

  predicate SortedByLengthThenLex(s: seq<string>) {
    forall i, j :: 0 <= i < j < |s| ==> LengthThenLex(s[i], s[j])
  }

  /** The head of a (length down, string up) list still precedes everything
      after inserting `x` into its tail. */
  lemma HeadPrecedesInserted(s: seq<string>, x: string)
    requires s != [] && |s[0]| >= |x| && LexLess(s[0], x)
    requires SortedByLengthThenLex(s)
    requires NonIncreasingLength(s[1..])
    ensures forall y :: y in InsertByLength(s[1..], x) ==> LengthThenLex(s[0], y)
  {
    var rest := InsertByLength(s[1..], x);
    forall y | y in rest ensures LengthThenLex(s[0], y) {
      assert y in multiset(rest);
      if y != x {
        var j :| 0 <= j < |s[1..]| && s[1..][j] == y;
        assert s[j + 1] == y;
      }
    }
  }

  lemma {:induction false} InsertByLengthLast(s: seq<string>, x: string)
    requires SortedByLengthThenLex(s)
    requires forall y :: y in s ==> LexLess(y, x)
    ensures NonIncreasingLength(s)
    ensures SortedByLengthThenLex(InsertByLength(s, x))
    decreases |s|
  {
    if s != [] && |s[0]| >= |x| {
      assert forall y :: y in s[1..] ==> y in s;
      InsertByLengthLast(s[1..], x);
      assert s[0] in s;
      HeadPrecedesInserted(s, x);
      assert InsertByLength(s, x) == [s[0]] + InsertByLength(s[1..], x);
    } else if s != [] {
      forall j | 0 <= j < |s| ensures LengthThenLex(x, s[j]) {
        assert |s[j]| <= |s[0]|;
      }
    }
  }

  /** Sorting an ascending list by descending length keeps equally long
      elements ascending: the result is ordered by (length down, string up),
      which fixes it completely. */
  lemma {:induction false} SortByLengthDescOfAscending(s: seq<string>)
    requires StrictlySorted(s)
    ensures SortedByLengthThenLex(SortByLengthDesc(s))
    decreases |s|
  {
    if s != [] {
      var init := s[..|s| - 1];
      var x := s[|s| - 1];
      SortByLengthDescOfAscending(init);
      var sorted := SortByLengthDesc(init);
      forall y | y in sorted ensures LexLess(y, x) {
        assert y in multiset(sorted);
        var i :| 0 <= i < |init| && init[i] == y;
      }
      InsertByLengthLast(sorted, x);
    }
  }
}
