/**
 The loops of `fuzzy_match` (codex-rs/utils/fuzzy-match/src/lib.rs, lines
 61-118) written as the code runs them: the nested push loop that builds the
 lowered haystack and its index map, the single-cursor greedy scan with its
 early `?` return, the `position` search for the first hit's block, and the
 score. Each is proved to compute the functional definitions of the
 `Normalisation`, `Greedy` and `Fuzzy` modules.
 */
module FuzzyLoops {

  import opened Options
  import opened Sorted
  import opened Normalisation
  import opened Greedy
  import opened Fuzzy

  /** What the scan loop leaves behind: the original index of each hit, and the last hit's lowered position. */
  datatype Scan = Scan(hits: seq<nat>, last: Option<nat>)

  /** The scan outcome for lowered positions `pos`: their original indices and the last of them. */
  function ScanOf(lo: seq<nat>, pos: seq<nat>): Scan
    requires forall k :: 0 <= k < |pos| ==> pos[k] < |lo|
  {
    Scan(OriginsOf(lo, pos), if |pos| == 0 then None else Some(pos[|pos| - 1]))
  }

  /** Lines 66-73: push every lowered character of every original character, tagged with its index. */
  method NormaliseLoop(lower: char -> seq<char>, haystack: seq<char>)
    returns (loweredChars: seq<char>, loweredToOrig: seq<nat>)
    ensures Normalised(loweredChars, loweredToOrig) == Normalise(lower, haystack)
  {
    loweredChars := [];
    loweredToOrig := [];
    var origIdx := 0;
    while origIdx < |haystack|
      invariant origIdx <= |haystack|
      invariant Normalised(loweredChars, loweredToOrig) == Normalise(lower, haystack[..origIdx])
    {
      var lc := lower(haystack[origIdx]);
      ghost var before := Normalise(lower, haystack[..origIdx]);
      var j := 0;
      while j < |lc|
        invariant j <= |lc|
        invariant loweredChars == before.chars + lc[..j]
        invariant loweredToOrig == before.origin + seq(j, _ => origIdx)
      {
        loweredChars := loweredChars + [lc[j]];
        loweredToOrig := loweredToOrig + [origIdx];
        j := j + 1;
      }
      assert haystack[..origIdx + 1][..origIdx] == haystack[..origIdx];
      assert lc[..j] == lc;
      origIdx := origIdx + 1;
    }
    assert haystack[..origIdx] == haystack;
  }

  /** Lines 82-89: advance the cursor to the first character equal to `nc`, stepping past it. */
  method Advance(loweredChars: seq<char>, nc: char, start: nat) returns (foundAt: Option<nat>, cur: nat)
    requires start <= |loweredChars|
    ensures foundAt == FindFrom(loweredChars, nc, start)
    ensures foundAt.Some? ==> cur == foundAt.value + 1
    ensures foundAt.None? ==> cur == |loweredChars|
  {
    cur := start;
    foundAt := None;
    while cur < |loweredChars|
      invariant start <= cur <= |loweredChars|
      invariant foundAt.None?
      invariant FindFrom(loweredChars, nc, start) == FindFrom(loweredChars, nc, cur)
    {
      if loweredChars[cur] == nc {
        foundAt := Some(cur);
        cur := cur + 1;
        break;
      }
      cur := cur + 1;
    }
  }

  /**
   The scan loop's state after `k` needle characters: the positions found so
   far are the greedy ones, the cursor stands just past the last of them, and
   the hits and the last position are read off them.
   */
  ghost predicate ScanState(lc: seq<char>, lo: seq<nat>, ln: seq<char>, k: nat, cur: nat,
                            pos: seq<nat>, hits: seq<nat>, last: Option<nat>) {
    && |pos| == k && |hits| == k && cur == Cursor(pos) && cur <= |lc|
    && GreedyPrefix(lc, ln, pos)
    && (forall j :: 0 <= j < k ==> pos[j] < |lo| && hits[j] == lo[pos[j]])
    && last == (if k == 0 then None else Some(pos[k - 1]))
  }

  /** Finding needle character `k` at `p` moves the scan state on by one character. */
  lemma ScanStateStep(lc: seq<char>, lo: seq<nat>, ln: seq<char>, k: nat, cur: nat,
                      pos: seq<nat>, hits: seq<nat>, last: Option<nat>, p: nat)
    requires |lc| == |lo| && k < |ln|
    requires ScanState(lc, lo, ln, k, cur, pos, hits, last)
    requires FindFrom(lc, ln[k], cur) == Some(p)
    ensures ScanState(lc, lo, ln, k + 1, p + 1, pos + [p], hits + [lo[p]], Some(p))
  {
    GreedyPrefixExtend(lc, ln, pos, p);
    var pos', hits' := pos + [p], hits + [lo[p]];
    forall j | 0 <= j < k + 1
      ensures pos'[j] < |lo| && hits'[j] == lo[pos'[j]]
    {
      if j < k {
        assert pos'[j] == pos[j] && hits'[j] == hits[j];
      }
    }
  }

  /** Once every needle character is found, the state holds the greedy positions and their scan outcome. */
  lemma ScanStateDone(lc: seq<char>, lo: seq<nat>, ln: seq<char>, cur: nat,
                      pos: seq<nat>, hits: seq<nat>, last: Option<nat>)
    requires ScanState(lc, lo, ln, |ln|, cur, pos, hits, last)
    ensures GreedyFrom(lc, ln, 0) == Some(pos)
    ensures Scan(hits, last) == ScanOf(lo, pos)
  {
    GreedyPrefixComplete(lc, ln, pos);
  }

  /**
   Lines 81-92, one turn of the scan loop: advance to needle character `k`;
   either give up, or record the hit's original index and position.
   */
  method ScanStep(lc: seq<char>, lo: seq<nat>, ln: seq<char>, k: nat, cur: nat,
                  ghost pos: seq<nat>, hits: seq<nat>, last: Option<nat>)
    returns (found: bool, cur': nat, ghost pos': seq<nat>, hits': seq<nat>, last': Option<nat>)
    requires |lc| == |lo| && k < |ln|
    requires ScanState(lc, lo, ln, k, cur, pos, hits, last)
    ensures !found ==> GreedyFrom(lc, ln, 0).None?
    ensures found ==> ScanState(lc, lo, ln, k + 1, cur', pos', hits', last')
  {
    var foundAt;
    foundAt, cur' := Advance(lc, ln[k], cur);
    if foundAt.None? {
      GreedyStuck(lc, ln, pos);
      return false, cur', pos, hits, last;
    }
    var p := foundAt.value;
    ScanStateStep(lc, lo, ln, k, cur, pos, hits, last, p);
    found, pos', hits', last' := true, pos + [p], hits + [lo[p]], Some(p);
  }

  /**
   Lines 77-93: one cursor over the lowered haystack; for each lowered needle
   character, advance to the first equal character and step past it, or give
   up with `None` when the cursor reaches the end.
   */
  method ScanLoop(loweredChars: seq<char>, loweredToOrig: seq<nat>, loweredNeedle: seq<char>)
    returns (r: Option<Scan>)
    requires |loweredChars| == |loweredToOrig|
    ensures r.None? <==> GreedyFrom(loweredChars, loweredNeedle, 0).None?
    ensures r.Some? ==> r.value == ScanOf(loweredToOrig, GreedyFrom(loweredChars, loweredNeedle, 0).value)
  {
    var hits: seq<nat> := [];
    ghost var pos: seq<nat> := [];
    var lastLowerPos: Option<nat> := None;
    var cur: nat := 0;
    var k := 0;
    while k < |loweredNeedle|
      invariant ScanState(loweredChars, loweredToOrig, loweredNeedle, k, cur, pos, hits, lastLowerPos)
    {
      var found;
      found, cur, pos, hits, lastLowerPos :=
        ScanStep(loweredChars, loweredToOrig, loweredNeedle, k, cur, pos, hits, lastLowerPos);
      if !found {
        return None;
      }
      k := k + 1;
    }
    ScanStateDone(loweredChars, loweredToOrig, loweredNeedle, cur, pos, hits, lastLowerPos);
    r := Some(Scan(hits, lastLowerPos));
  }

  /** `Iterator::position`: scan from the front for the first index holding `target`. */
  method PositionLoop(s: seq<nat>, target: nat) returns (r: Option<nat>)
    ensures r == Position(s, target)
  {
    var q := 0;
    while q < |s|
      invariant q <= |s|
      invariant forall j :: 0 <= j < q ==> s[j] != target
    {
      if s[q] == target {
        return Some(q);
      }
      q := q + 1;
    }
    return None;
  }

  /**
   Lines 95-117: locate the first hit's block, take the last hit, compute the
   window and the prefix bonus, then sort and deduplicate the hits.
   */
  method FinishLoop(loweredToOrig: seq<nat>, scan: Scan, needleLen: nat, ghost pos: seq<nat>)
    returns (m: Match)
    requires forall k :: 0 <= k < |pos| ==> pos[k] < |loweredToOrig|
    requires scan == ScanOf(loweredToOrig, pos)
    ensures m == Finish(loweredToOrig, pos, needleLen)
  {
    var hits := scan.hits;
    assert hits == OriginsOf(loweredToOrig, pos);
    var firstLowerPos := 0;
    if |hits| > 0 {
      var found := PositionLoop(loweredToOrig, hits[0]);
      if found.Some? {
        firstLowerPos := found.value;
      }
    }
    var lastLowerPos := match scan.last case Some(p) => p case None => firstLowerPos;
    var window := (lastLowerPos - firstLowerPos + 1) - needleLen;
    var score := if window > 0 then window else 0;
    if firstLowerPos == 0 {
      score := score - PrefixBonus;
    }
    m := Match(SortDedup(hits), score);
  }

  /** `fuzzy_match` as the code computes it: it agrees with the functional definition. */
  method FuzzyMatchLoop(lower: char -> seq<char>, haystack: seq<char>, needle: seq<char>,
                        loweredNeedle: seq<char>) returns (r: Option<Match>)
    ensures r == FuzzyMatch(lower, haystack, needle, loweredNeedle)
  {
    if |needle| == 0 {
      return Some(Match([], I32Max));
    }
    var loweredChars, loweredToOrig := NormaliseLoop(lower, haystack);
    var scan := ScanLoop(loweredChars, loweredToOrig, loweredNeedle);
    if scan.None? {
      return None;
    }
    ghost var pos := GreedyFrom(loweredChars, loweredNeedle, 0).value;
    var m := FinishLoop(loweredToOrig, scan.value, |loweredNeedle|, pos);
    r := Some(m);
  }
}
