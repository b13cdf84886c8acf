/**
 Sorted, duplicate-free index lists. The matcher finishes with
 `sort_unstable` followed by `dedup`; only the result of that pair is
 specified here (a strictly increasing list holding exactly the input's
 elements), not the sorting algorithm.
 */
module Sorted {

  /** Every element is smaller than every later one: sorted and without duplicates. */
  predicate StrictlyIncreasing(s: seq<nat>) {
    forall i, j :: 0 <= i < j < |s| ==> s[i] < s[j]
  }

  /** Every element is at most every later one. */
  predicate NonDecreasing(s: seq<nat>) {
    forall i, j :: 0 <= i < j < |s| ==> s[i] <= s[j]
  }

  /** Inserts `x` into its place in a strictly increasing list, unless it is already there. */
  function InsertSorted(s: seq<nat>, x: nat): (r: seq<nat>)
    requires StrictlyIncreasing(s)
    ensures StrictlyIncreasing(r)
    ensures forall y :: y in r <==> y in s || y == x
    ensures |r| <= |s| + 1
  {
    if |s| == 0 then [x]
    else if x < s[0] then [x] + s
    else if x == s[0] then s
    else
      var rest := InsertSorted(s[1..], x);
      assert forall j :: 0 <= j < |rest| ==> s[0] < rest[j] by {
        forall j | 0 <= j < |rest|
          ensures s[0] < rest[j]
        {
          assert rest[j] in rest;
        }
      }
      [s[0]] + rest
  }

  /** The list sorted ascending with duplicates removed (`sort_unstable` then `dedup`). */
  function SortDedup(s: seq<nat>): (r: seq<nat>)
    ensures StrictlyIncreasing(r)
    ensures forall y :: y in r <==> y in s
    ensures |r| <= |s|
  {
    if |s| == 0 then []
    else
      var init := s[..|s| - 1];
      assert s == init + [s[|s| - 1]];
      InsertSorted(SortDedup(init), s[|s| - 1])
  }

  /** Two strictly increasing lists with the same elements are the same list. */
  lemma {:induction false} StrictlyIncreasingUnique(a: seq<nat>, b: seq<nat>)
    requires StrictlyIncreasing(a) && StrictlyIncreasing(b)
    requires forall y :: y in a <==> y in b
    ensures a == b
    decreases |a| + |b|
  {
    if |a| > 0 {
      assert a[0] in a;
    }
    if |b| > 0 {
      assert b[0] in b;
    }
    if |a| > 0 && |b| > 0 {
      assert a[0] in b;
      assert b[0] in a;
      assert a[0] == b[0];
      forall y
        ensures y in a[1..] <==> y in b[1..]
      {
        if y in a[1..] {
          assert y in a && y != a[0];
          assert y in b;
        }
        if y in b[1..] {
          assert y in b && y != b[0];
          assert y in a;
        }
      }
      StrictlyIncreasingUnique(a[1..], b[1..]);
      assert a == [a[0]] + a[1..];
      assert b == [b[0]] + b[1..];
    }
  }

  /** Sorting and deduplicating a list that is already strictly increasing changes nothing. */
  lemma SortDedupOfSorted(s: seq<nat>)
    requires StrictlyIncreasing(s)
    ensures SortDedup(s) == s
  {
    StrictlyIncreasingUnique(SortDedup(s), s);
  }

  /** Sorting and deduplicating is idempotent. */
  lemma SortDedupIdempotent(s: seq<nat>)
    ensures SortDedup(SortDedup(s)) == SortDedup(s)
  {
    SortDedupOfSorted(SortDedup(s));
  }

  /** When the first element is the least one, it heads the sorted, deduplicated list. */
  lemma SortDedupHead(s: seq<nat>)
    requires |s| > 0
    requires forall j :: 0 <= j < |s| ==> s[0] <= s[j]
    ensures |SortDedup(s)| > 0 && SortDedup(s)[0] == s[0]
  {
    var r := SortDedup(s);
    assert s[0] in r;
    assert r[0] in s;
  }

  /** A strictly increasing list of numbers below `n` has at most `n` elements. */
  lemma {:induction false} StrictlyIncreasingBound(s: seq<nat>, n: nat)
    requires StrictlyIncreasing(s)
    requires forall k :: 0 <= k < |s| ==> s[k] < n
    ensures |s| <= n
    decreases |s|
  {
    if |s| > 0 {
      var init := s[..|s| - 1];
      StrictlyIncreasingBound(init, s[|s| - 1]);
    }
  }

  /** Putting a number below every element in front of a strictly increasing list keeps it strictly increasing. */
  lemma ConsIncreasing(x: nat, s: seq<nat>)
    requires StrictlyIncreasing(s)
    requires forall k :: 0 <= k < |s| ==> x < s[k]
    ensures StrictlyIncreasing([x] + s)
  {
    var r := [x] + s;
    forall i, j | 0 <= i < j < |r|
      ensures r[i] < r[j]
    {
      assert r[j] == s[j - 1];
      if i > 0 {
        assert r[i] == s[i - 1];
      }
    }
  }
}
