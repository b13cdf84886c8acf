/**
 The greedy scan (codex-rs/utils/fuzzy-match/src/lib.rs, lines 77-93): one
 cursor walks the lowered haystack once; for each lowered needle character
 it stops at the first equal character at or after the cursor and moves
 just past it. If the cursor runs off the end, there is no match.

 `Embeds` is the independent reference: a strictly increasing choice of
 positions at which the haystack spells the needle. The scan is sound (what
 it finds is an embedding) and complete (it finds one whenever one exists),
 and its positions are the leftmost possible.
 */
module Greedy {

  import opened Options
  import opened Sorted

  /** `pos` picks, in increasing order, a haystack position for each needle character, holding that character. */
  ghost predicate Embeds(pos: seq<nat>, needle: seq<char>, hay: seq<char>) {
    && |pos| == |needle|
    && StrictlyIncreasing(pos)
    && forall k :: 0 <= k < |pos| ==> pos[k] < |hay| && hay[pos[k]] == needle[k]
  }

  /** The needle occurs in the haystack as a (not necessarily contiguous) subsequence. */
  ghost predicate IsSubsequence(needle: seq<char>, hay: seq<char>) {
    exists pos :: Embeds(pos, needle, hay)
  }

  /** The inner `while` loop: the first position at or after `cur` holding `c`. */
  function FindFrom(hay: seq<char>, c: char, cur: nat): (r: Option<nat>)
    ensures r.Some? ==> cur <= r.value < |hay| && hay[r.value] == c
    ensures r.Some? ==> forall j :: cur <= j < r.value ==> hay[j] != c
    ensures r.None? <==> forall j :: cur <= j < |hay| ==> hay[j] != c
    decreases |hay| - cur
  {
    if cur >= |hay| then None
    else if hay[cur] == c then Some(cur)
    else FindFrom(hay, c, cur + 1)
  }

  /**
   The outer `for` loop from cursor `cur`: the position found for each needle
   character, or `None` as soon as one is not found.
   */
  function GreedyFrom(hay: seq<char>, needle: seq<char>, cur: nat): (r: Option<seq<nat>>)
    ensures r.Some? ==> |r.value| == |needle|
    ensures r.Some? ==> forall k :: 0 <= k < |r.value| ==> cur <= r.value[k] < |hay|
    decreases |needle|
  {
    if |needle| == 0 then Some([])
    else
      match FindFrom(hay, needle[0], cur)
      case None => None
      case Some(p) =>
        match GreedyFrom(hay, needle[1..], p + 1)
        case None => None
        case Some(rest) => Some([p] + rest)
  }

  /** An embedding of the needle's tail after position `p`, where `p` holds the needle's head, extends to the whole needle. */
  lemma EmbedsCons(p: nat, rest: seq<nat>, needle: seq<char>, hay: seq<char>)
    requires |needle| > 0 && p < |hay| && hay[p] == needle[0]
    requires Embeds(rest, needle[1..], hay)
    requires forall k :: 0 <= k < |rest| ==> p < rest[k]
    ensures Embeds([p] + rest, needle, hay)
  {
    ConsIncreasing(p, rest);
    var pos := [p] + rest;
    forall k | 0 <= k < |pos|
      ensures pos[k] < |hay| && hay[pos[k]] == needle[k]
    {
      if k > 0 {
        assert pos[k] == rest[k - 1];
        assert needle[k] == needle[1..][k - 1];
      }
    }
  }

  /**
   The scan is sound: on success, the positions it finds strictly increase
   and each holds the corresponding needle character.
   */
  lemma {:induction false} GreedySound(hay: seq<char>, needle: seq<char>, cur: nat)
    requires GreedyFrom(hay, needle, cur).Some?
    ensures Embeds(GreedyFrom(hay, needle, cur).value, needle, hay)
    decreases |needle|
  {
    if |needle| > 0 {
      var p := FindFrom(hay, needle[0], cur).value;
      GreedySound(hay, needle[1..], p + 1);
      var rest := GreedyFrom(hay, needle[1..], p + 1).value;
      EmbedsCons(p, rest, needle, hay);
    }
  }

  /**
   Greedy is leftmost, hence complete: whenever some embedding lies at or
   after `cur`, the scan succeeds and each position it picks is no later
   than that embedding's.
   */
  lemma {:induction false} GreedyLeftmost(hay: seq<char>, needle: seq<char>, cur: nat, pos: seq<nat>)
    requires Embeds(pos, needle, hay)
    requires forall k :: 0 <= k < |pos| ==> cur <= pos[k]
    ensures GreedyFrom(hay, needle, cur).Some?
    ensures forall k :: 0 <= k < |pos| ==> GreedyFrom(hay, needle, cur).value[k] <= pos[k]
    decreases |needle|
  {
    if |needle| > 0 {
      var f := FindFrom(hay, needle[0], cur);
      assert f.Some? && f.value <= pos[0] by {
        assert hay[pos[0]] == needle[0];
      }
      var p := f.value;
      var tail := pos[1..];
      assert Embeds(tail, needle[1..], hay);
      GreedyLeftmost(hay, needle[1..], p + 1, tail);
      var rest := GreedyFrom(hay, needle[1..], p + 1).value;
      assert GreedyFrom(hay, needle, cur).value == [p] + rest;
    }
  }

  /** The scan from the start succeeds exactly when the needle is a subsequence. */
  lemma GreedyCompleteAndSound(hay: seq<char>, needle: seq<char>)
    ensures GreedyFrom(hay, needle, 0).Some? <==> IsSubsequence(needle, hay)
  {
    if IsSubsequence(needle, hay) {
      var pos :| Embeds(pos, needle, hay);
      GreedyLeftmost(hay, needle, 0, pos);
    }
    if GreedyFrom(hay, needle, 0).Some? {
      GreedySound(hay, needle, 0);
    }
  }

  /** Where the scan for needle character `k` starts: the cursor, or just past the previous hit. */
  function ScanStart(cur: nat, pos: seq<nat>, k: nat): nat
    requires k < |pos|
  {
    if k == 0 then cur else pos[k - 1] + 1
  }

  /** `p` is the first position at or after `from` holding `c`. */
  ghost predicate FirstAt(hay: seq<char>, c: char, from: nat, p: nat) {
    && from <= p < |hay|
    && hay[p] == c
    && forall j :: from <= j < p ==> hay[j] != c
  }

  /**
   `pos` is what the scan produces: each needle character is found at the
   first equal position at or after the previous hit (or the cursor).
   */
  ghost predicate IsGreedy(hay: seq<char>, needle: seq<char>, cur: nat, pos: seq<nat>) {
    && |pos| == |needle|
    && forall k {:trigger needle[k]} :: 0 <= k < |pos| ==> FirstAt(hay, needle[k], ScanStart(cur, pos, k), pos[k])
  }

  /** Positions that are greedy are what the scan returns. */
  lemma {:induction false} IsGreedyGivesGreedyFrom(hay: seq<char>, needle: seq<char>, cur: nat, pos: seq<nat>)
    requires IsGreedy(hay, needle, cur, pos)
    ensures GreedyFrom(hay, needle, cur) == Some(pos)
    decreases |needle|
  {
    if |needle| > 0 {
      IsGreedyTail(hay, needle, cur, pos);
      IsGreedyGivesGreedyFrom(hay, needle[1..], pos[0] + 1, pos[1..]);
      assert pos == [pos[0]] + pos[1..];
    }
  }

  /** A greedy run's head is the scan's first hit, and its tail is greedy from just after it. */
  lemma IsGreedyTail(hay: seq<char>, needle: seq<char>, cur: nat, pos: seq<nat>)
    requires IsGreedy(hay, needle, cur, pos) && |needle| > 0
    ensures FindFrom(hay, needle[0], cur) == Some(pos[0])
    ensures IsGreedy(hay, needle[1..], pos[0] + 1, pos[1..])
  {
    var tail := pos[1..];
    assert FirstAt(hay, needle[0], cur, pos[0]);
    forall k | 0 <= k < |tail|
      ensures FirstAt(hay, needle[1..][k], ScanStart(pos[0] + 1, tail, k), tail[k])
    {
      assert needle[1..][k] == needle[k + 1] && tail[k] == pos[k + 1];
      assert ScanStart(pos[0] + 1, tail, k) == ScanStart(cur, pos, k + 1);
    }
  }

  /** The first hit followed by a greedy run from just after it is a greedy run. */
  lemma IsGreedyCons(hay: seq<char>, needle: seq<char>, cur: nat, p: nat, tail: seq<nat>)
    requires |needle| > 0 && FirstAt(hay, needle[0], cur, p)
    requires IsGreedy(hay, needle[1..], p + 1, tail)
    ensures IsGreedy(hay, needle, cur, [p] + tail)
  {
    var pos := [p] + tail;
    forall k | 0 <= k < |pos|
      ensures FirstAt(hay, needle[k], ScanStart(cur, pos, k), pos[k])
    {
      if k > 0 {
        assert needle[k] == needle[1..][k - 1] && pos[k] == tail[k - 1];
        assert ScanStart(cur, pos, k) == ScanStart(p + 1, tail, k - 1);
      }
    }
  }

  /** What the scan returns is greedy. */
  lemma {:induction false} GreedyFromGivesIsGreedy(hay: seq<char>, needle: seq<char>, cur: nat)
    requires GreedyFrom(hay, needle, cur).Some?
    ensures IsGreedy(hay, needle, cur, GreedyFrom(hay, needle, cur).value)
    decreases |needle|
  {
    if |needle| > 0 {
      var p := FindFrom(hay, needle[0], cur).value;
      GreedyFromGivesIsGreedy(hay, needle[1..], p + 1);
      IsGreedyCons(hay, needle, cur, p, GreedyFrom(hay, needle[1..], p + 1).value);
    }
  }

  /** The scan's result is characterised by `IsGreedy`: it returns `pos` exactly when `pos` is greedy. */
  lemma GreedyFromIsGreedy(hay: seq<char>, needle: seq<char>, cur: nat, pos: seq<nat>)
    ensures GreedyFrom(hay, needle, cur) == Some(pos) <==> IsGreedy(hay, needle, cur, pos)
  {
    if IsGreedy(hay, needle, cur, pos) {
      IsGreedyGivesGreedyFrom(hay, needle, cur, pos);
    }
    if GreedyFrom(hay, needle, cur) == Some(pos) {
      GreedyFromGivesIsGreedy(hay, needle, cur);
    }
  }

  /** Where the scan's cursor stands after finding `pos`: just past the last hit, or at 0. */
  function Cursor(pos: seq<nat>): nat {
    if |pos| == 0 then 0 else pos[|pos| - 1] + 1
  }

  /** `pos` is what the scan from 0 produces for the first `|pos|` needle characters. */
  ghost predicate GreedyPrefix(hay: seq<char>, needle: seq<char>, pos: seq<nat>) {
    && |pos| <= |needle|
    && forall k {:trigger needle[k]} :: 0 <= k < |pos| ==> FirstAt(hay, needle[k], ScanStart(0, pos, k), pos[k])
  }

  /** The first position holding `c` from `from` on is unique. */
  lemma FirstAtUnique(hay: seq<char>, c: char, from: nat, p: nat, q: nat)
    requires FirstAt(hay, c, from, p) && FirstAt(hay, c, from, q)
    ensures p == q
  {
  }

  /** Two greedy prefixes agree on their common length. */
  lemma {:induction false} GreedyPrefixUnique(hay: seq<char>, needle: seq<char>, a: seq<nat>, b: seq<nat>, j: nat)
    requires GreedyPrefix(hay, needle, a) && GreedyPrefix(hay, needle, b)
    requires j <= |a| && j <= |b|
    ensures forall i :: 0 <= i < j ==> a[i] == b[i]
    decreases j
  {
    if j > 0 {
      GreedyPrefixUnique(hay, needle, a, b, j - 1);
      assert ScanStart(0, a, j - 1) == ScanStart(0, b, j - 1);
      FirstAtUnique(hay, needle[j - 1], ScanStart(0, a, j - 1), a[j - 1], b[j - 1]);
    }
  }

  /** Extending a greedy prefix by the first hit from its cursor gives a greedy prefix. */
  lemma GreedyPrefixExtend(hay: seq<char>, needle: seq<char>, pos: seq<nat>, p: nat)
    requires GreedyPrefix(hay, needle, pos) && |pos| < |needle|
    requires FindFrom(hay, needle[|pos|], Cursor(pos)) == Some(p)
    ensures GreedyPrefix(hay, needle, pos + [p]) && Cursor(pos + [p]) == p + 1
  {
    var ext := pos + [p];
    forall k | 0 <= k < |ext|
      ensures FirstAt(hay, needle[k], ScanStart(0, ext, k), ext[k])
    {
      ScanStartAppend(pos, p, k);
    }
  }

  /** Appending a hit leaves earlier scan starts alone and starts the new one at the cursor. */
  lemma ScanStartAppend(pos: seq<nat>, p: nat, k: nat)
    requires k <= |pos|
    ensures (pos + [p])[k] == if k < |pos| then pos[k] else p
    ensures ScanStart(0, pos + [p], k) == if k < |pos| then ScanStart(0, pos, k) else Cursor(pos)
  {
  }

  /**
   A scan that cannot find the next needle character from its cursor fails:
   no greedy run from 0 gets past that character.
   */
  lemma GreedyStuck(hay: seq<char>, needle: seq<char>, pos: seq<nat>)
    requires GreedyPrefix(hay, needle, pos) && |pos| < |needle|
    ensures FindFrom(hay, needle[|pos|], Cursor(pos)).None? ==> GreedyFrom(hay, needle, 0).None?
  {
    if GreedyFrom(hay, needle, 0).Some? {
      GreedyFromGivesIsGreedy(hay, needle, 0);
      GreedyNext(hay, needle, pos, GreedyFrom(hay, needle, 0).value);
    }
  }

  /** A greedy prefix of a needle that some greedy run spells can be extended. */
  lemma GreedyNext(hay: seq<char>, needle: seq<char>, pos: seq<nat>, q: seq<nat>)
    requires GreedyPrefix(hay, needle, pos) && |pos| < |needle|
    requires IsGreedy(hay, needle, 0, q)
    ensures FindFrom(hay, needle[|pos|], Cursor(pos)).Some?
  {
    var k := |pos|;
    GreedyHead(hay, needle, q, k);
    GreedyPrefixUnique(hay, needle, pos, q[..k], k);
    assert Cursor(pos) == ScanStart(0, q, k);
    assert FirstAt(hay, needle[k], ScanStart(0, q, k), q[k]);
  }

  /** Every prefix of a greedy run is a greedy prefix. */
  lemma GreedyHead(hay: seq<char>, needle: seq<char>, q: seq<nat>, k: nat)
    requires IsGreedy(hay, needle, 0, q) && k <= |q|
    ensures GreedyPrefix(hay, needle, q[..k])
  {
    var head := q[..k];
    forall i | 0 <= i < k
      ensures FirstAt(hay, needle[i], ScanStart(0, head, i), head[i])
    {
      assert head[i] == q[i] && ScanStart(0, head, i) == ScanStart(0, q, i);
    }
  }

  /** A greedy prefix covering the whole needle is the scan's result. */
  lemma GreedyPrefixComplete(hay: seq<char>, needle: seq<char>, pos: seq<nat>)
    requires GreedyPrefix(hay, needle, pos) && |pos| == |needle|
    ensures GreedyFrom(hay, needle, 0) == Some(pos)
  {
    IsGreedyGivesGreedyFrom(hay, needle, 0, pos);
  }
}
