/**
 `fuzzy_match` and `fuzzy_indices` (codex-rs/utils/fuzzy-match/src/lib.rs,
 lines 61-145): a case-insensitive greedy subsequence match of a needle in a
 haystack, returning the matched original character indices (sorted, without
 duplicates) and a score where smaller is better.

 The needle is passed twice: as written (only its emptiness matters) and
 lowered as a whole string (`needle.to_lowercase()`), which is taken as given
 rather than derived from `lower`, because whole-string lowercasing is
 context-sensitive.
 */
module Fuzzy {

  import opened Options
  import opened Sorted
  import opened Normalisation
  import opened Greedy

  /** `i32::MAX`, the score of the empty needle. */
  const I32Max: int := 0x7fff_ffff

  /** Subtracted from the score when the match starts at the first lowered character. */
  const PrefixBonus: int := 100

  /** A successful match: original character indices and score. */
  datatype Match = Match(indices: seq<nat>, score: int)

  /**
   The score of a match whose first hit's character starts at lowered
   position `first` and whose last hit is at lowered position `last`.
   */
  function Score(first: nat, last: nat, needleLen: nat): (r: int)
    ensures r >= -PrefixBonus
    ensures first > 0 ==> r >= 0
    ensures last + 1 <= first + needleLen ==> r == (if first == 0 then -PrefixBonus else 0)
  {
    var window := last - first + 1 - needleLen;
    (if window > 0 then window else 0) - (if first == 0 then PrefixBonus else 0)
  }

  /** The original index of each greedy hit, in hit order (`result_orig_indices` before sorting). */
  function OriginsOf(origin: seq<nat>, pos: seq<nat>): (hits: seq<nat>)
    requires forall k :: 0 <= k < |pos| ==> pos[k] < |origin|
    ensures |hits| == |pos| && forall k :: 0 <= k < |pos| ==> hits[k] == origin[pos[k]]
    ensures NonDecreasing(origin) && NonDecreasing(pos) ==> NonDecreasing(hits)
  {
    seq(|pos|, k requires 0 <= k < |pos| => origin[pos[k]])
  }

  /** The sorted, deduplicated hits are exactly the original indices of the hit positions. */
  lemma SortedOriginsOf(origin: seq<nat>, pos: seq<nat>)
    requires forall k :: 0 <= k < |pos| ==> pos[k] < |origin|
    ensures forall i :: i in SortDedup(OriginsOf(origin, pos)) <==>
              exists k :: 0 <= k < |pos| && origin[pos[k]] == i
  {
    var hits := OriginsOf(origin, pos);
    forall i
      ensures i in SortDedup(hits) <==> exists k :: 0 <= k < |pos| && origin[pos[k]] == i
    {
      if i in hits {
        var k :| 0 <= k < |hits| && hits[k] == i;
      }
      if exists k :: 0 <= k < |pos| && origin[pos[k]] == i {
        var k :| 0 <= k < |pos| && origin[pos[k]] == i;
        assert hits[k] == i;
      }
    }
  }

  /**
   Lines 95-117: from the greedy hits, locate the start of the first hit's
   character with `position(..).unwrap_or(0)`, take the last hit (or the
   first position when there is none), score, then sort and deduplicate.
   */
  function Finish(origin: seq<nat>, pos: seq<nat>, needleLen: nat): (m: Match)
    requires forall k :: 0 <= k < |pos| ==> pos[k] < |origin|
    ensures StrictlyIncreasing(m.indices) && |m.indices| <= |pos|
    ensures forall i :: i in m.indices <==> exists k :: 0 <= k < |pos| && origin[pos[k]] == i
    ensures m.score >= -PrefixBonus
  {
    SortedOriginsOf(origin, pos);
    var hits := OriginsOf(origin, pos);
    var first :=
      if |hits| == 0 then 0
      else match Position(origin, hits[0]) case Some(p) => p case None => 0;
    var last := if |pos| == 0 then first else pos[|pos| - 1];
    Match(SortDedup(hits), Score(first, last, needleLen))
  }

  /** `fuzzy_match`. */
  function FuzzyMatch(lower: char -> seq<char>, haystack: seq<char>, needle: seq<char>,
                      loweredNeedle: seq<char>): (r: Option<Match>)
    ensures |needle| == 0 ==> r == Some(Match([], I32Max))
    ensures r.Some? ==> StrictlyIncreasing(r.value.indices)
    ensures r.Some? ==> forall i :: i in r.value.indices ==> i < |haystack|
  {
    if |needle| == 0 then Some(Match([], I32Max))
    else
      var n := Normalise(lower, haystack);
      match GreedyFrom(n.chars, loweredNeedle, 0)
      case None => None
      case Some(pos) => Some(Finish(n.origin, pos, |loweredNeedle|))
  }

  /** `fuzzy_indices`: the indices of `fuzzy_match`, sorted and deduplicated once more. */
  function FuzzyIndices(lower: char -> seq<char>, haystack: seq<char>, needle: seq<char>,
                        loweredNeedle: seq<char>): (r: Option<seq<nat>>)
    ensures r.None? <==> FuzzyMatch(lower, haystack, needle, loweredNeedle).None?
    ensures r.Some? ==> StrictlyIncreasing(r.value) && forall i :: i in r.value ==> i < |haystack|
  {
    match FuzzyMatch(lower, haystack, needle, loweredNeedle)
    case None => None
    case Some(m) => Some(SortDedup(m.indices))
  }

  /** The greedy positions of a match in the lowered haystack. */
  ghost function Hits(lower: char -> seq<char>, haystack: seq<char>, loweredNeedle: seq<char>): seq<nat>
    requires GreedyFrom(Lowered(lower, haystack), loweredNeedle, 0).Some?
  {
    GreedyFrom(Lowered(lower, haystack), loweredNeedle, 0).value
  }

  /** A match of a non-empty needle is `Finish` applied to the greedy hits. */
  lemma MatchIsFinish(lower: char -> seq<char>, haystack: seq<char>, needle: seq<char>,
                      loweredNeedle: seq<char>)
    requires |needle| > 0
    requires FuzzyMatch(lower, haystack, needle, loweredNeedle).Some?
    ensures GreedyFrom(Lowered(lower, haystack), loweredNeedle, 0).Some?
    ensures var pos := Hits(lower, haystack, loweredNeedle);
            && |pos| == |loweredNeedle|
            && Embeds(pos, loweredNeedle, Lowered(lower, haystack))
            && FuzzyMatch(lower, haystack, needle, loweredNeedle).value
               == Finish(Normalise(lower, haystack).origin, pos, |loweredNeedle|)
  {
    GreedySound(Lowered(lower, haystack), loweredNeedle, 0);
  }

  /**
   Greedy matching is complete: for a non-empty needle there is no match
   exactly when the lowered needle is not a subsequence of the lowered haystack.
   */
  lemma MatchNoneIffNotSubsequence(lower: char -> seq<char>, haystack: seq<char>, needle: seq<char>,
                                   loweredNeedle: seq<char>)
    requires |needle| > 0
    ensures FuzzyMatch(lower, haystack, needle, loweredNeedle).None?
            <==> !IsSubsequence(loweredNeedle, Lowered(lower, haystack))
  {
    GreedyCompleteAndSound(Lowered(lower, haystack), loweredNeedle);
  }

  /**
   The returned indices are exactly the original characters in whose
   lowering the greedy hits fall.
   */
  lemma MatchIndicesAreHits(lower: char -> seq<char>, haystack: seq<char>, needle: seq<char>,
                            loweredNeedle: seq<char>)
    requires |needle| > 0
    requires FuzzyMatch(lower, haystack, needle, loweredNeedle).Some?
    ensures GreedyFrom(Lowered(lower, haystack), loweredNeedle, 0).Some?
    ensures var r := FuzzyMatch(lower, haystack, needle, loweredNeedle).value;
            var pos := Hits(lower, haystack, loweredNeedle);
            forall i :: i in r.indices <==>
              exists k :: 0 <= k < |pos| && Normalise(lower, haystack).origin[pos[k]] == i
  {
    MatchIsFinish(lower, haystack, needle, loweredNeedle);
    SortedOriginsOf(Normalise(lower, haystack).origin, Hits(lower, haystack, loweredNeedle));
  }

  /**
   Every lowered needle character is found in the lowering of one of the
   returned original characters.
   */
  lemma MatchCoversNeedle(lower: char -> seq<char>, haystack: seq<char>, needle: seq<char>,
                          loweredNeedle: seq<char>)
    requires |needle| > 0
    requires FuzzyMatch(lower, haystack, needle, loweredNeedle).Some?
    ensures var r := FuzzyMatch(lower, haystack, needle, loweredNeedle).value;
            forall k :: 0 <= k < |loweredNeedle| ==>
              exists i :: i in r.indices && i < |haystack| && loweredNeedle[k] in lower(haystack[i])
  {
    MatchIsFinish(lower, haystack, needle, loweredNeedle);
    var origin := Normalise(lower, haystack).origin;
    var pos := Hits(lower, haystack, loweredNeedle);
    var hits := OriginsOf(origin, pos);
    var r := FuzzyMatch(lower, haystack, needle, loweredNeedle).value;
    assert r.indices == SortDedup(hits);
    forall k | 0 <= k < |loweredNeedle|
      ensures exists i :: i in r.indices && i < |haystack| && loweredNeedle[k] in lower(haystack[i])
    {
      OriginOfPosition(lower, haystack, pos[k]);
      var i := origin[pos[k]];
      assert hits[k] == i;
      assert i in r.indices;
    }
  }

  /**
   A non-empty lowered needle yields at least one and at most one index per
   lowered needle character; several hits inside one character's lowering
   collapse to one index.
   */
  lemma MatchIndexCount(lower: char -> seq<char>, haystack: seq<char>, needle: seq<char>,
                        loweredNeedle: seq<char>)
    requires |needle| > 0 && |loweredNeedle| > 0
    requires FuzzyMatch(lower, haystack, needle, loweredNeedle).Some?
    ensures 1 <= |FuzzyMatch(lower, haystack, needle, loweredNeedle).value.indices| <= |loweredNeedle|
  {
    MatchIsFinish(lower, haystack, needle, loweredNeedle);
    var origin := Normalise(lower, haystack).origin;
    var pos := Hits(lower, haystack, loweredNeedle);
    var hits := OriginsOf(origin, pos);
    var r := FuzzyMatch(lower, haystack, needle, loweredNeedle).value;
    assert r.indices == SortDedup(hits);
    assert hits[0] in r.indices;
  }

  /**
   The score: the lowered span from the start of the first returned
   character's lowering to the last hit, less the lowered needle length,
   clamped at 0, and `PrefixBonus` less when that span starts at lowered position 0.
   The first returned index is the first hit's character, and the score lies
   between `-PrefixBonus` and the lowered haystack length.
   */
  lemma MatchScore(lower: char -> seq<char>, haystack: seq<char>, needle: seq<char>,
                   loweredNeedle: seq<char>)
    requires |needle| > 0 && |loweredNeedle| > 0
    requires FuzzyMatch(lower, haystack, needle, loweredNeedle).Some?
    ensures GreedyFrom(Lowered(lower, haystack), loweredNeedle, 0).Some?
    ensures var r := FuzzyMatch(lower, haystack, needle, loweredNeedle).value;
            var pos := Hits(lower, haystack, loweredNeedle);
            && |r.indices| > 0 && |pos| > 0
            && r.indices[0] == Normalise(lower, haystack).origin[pos[0]]
            && r.indices[0] < |haystack|
            && var first := Start(lower, haystack, r.indices[0]);
               var span := pos[|pos| - 1] + 1 - first - |loweredNeedle|;
               && first <= pos[0]
               && r.score == (if span > 0 then span else 0) - (if first == 0 then PrefixBonus else 0)
    ensures var r := FuzzyMatch(lower, haystack, needle, loweredNeedle).value;
            -PrefixBonus <= r.score <= |Lowered(lower, haystack)|
  {
    MatchIsFinish(lower, haystack, needle, loweredNeedle);
    var origin := Normalise(lower, haystack).origin;
    var pos := Hits(lower, haystack, loweredNeedle);
    var hits := OriginsOf(origin, pos);
    var r := FuzzyMatch(lower, haystack, needle, loweredNeedle).value;
    assert r.indices == SortDedup(hits);
    forall j | 0 <= j < |hits|
      ensures hits[0] <= hits[j]
    {
      if j > 0 {
        assert pos[0] < pos[j];
      }
    }
    SortDedupHead(hits);
    var i := hits[0];
    OriginOfPosition(lower, haystack, pos[0]);
    PositionOfOrigin(lower, haystack, i);
    var first := Start(lower, haystack, i);
    assert first <= pos[0] <= pos[|pos| - 1];
  }

  /**
   With a lowering that never erases a character, the `PrefixBonus` applies
   exactly when the first returned index is 0.
   */
  lemma MatchPrefixBonus(lower: char -> seq<char>, haystack: seq<char>, needle: seq<char>,
                         loweredNeedle: seq<char>)
    requires NonErasing(lower)
    requires |needle| > 0 && |loweredNeedle| > 0
    requires FuzzyMatch(lower, haystack, needle, loweredNeedle).Some?
    ensures GreedyFrom(Lowered(lower, haystack), loweredNeedle, 0).Some?
    ensures var r := FuzzyMatch(lower, haystack, needle, loweredNeedle).value;
            var pos := Hits(lower, haystack, loweredNeedle);
            && |r.indices| > 0 && |pos| > 0 && r.indices[0] < |haystack|
            && var span := pos[|pos| - 1] + 1 - Start(lower, haystack, r.indices[0]) - |loweredNeedle|;
               var window := if span > 0 then span else 0;
               && (r.indices[0] == 0 ==> r.score == window - PrefixBonus)
               && (r.indices[0] != 0 ==> r.score == window)
  {
    MatchScore(lower, haystack, needle, loweredNeedle);
    var r := FuzzyMatch(lower, haystack, needle, loweredNeedle).value;
    StartAtLeastIndex(lower, haystack, r.indices[0]);
  }

  /**
   `fuzzy_indices` matches exactly when `fuzzy_match` does and returns the
   same indices: sorting and deduplicating them again changes nothing.
   */
  lemma FuzzyIndicesAgrees(lower: char -> seq<char>, haystack: seq<char>, needle: seq<char>,
                           loweredNeedle: seq<char>)
    ensures FuzzyIndices(lower, haystack, needle, loweredNeedle).None?
            <==> FuzzyMatch(lower, haystack, needle, loweredNeedle).None?
    ensures FuzzyMatch(lower, haystack, needle, loweredNeedle).Some? ==>
            FuzzyIndices(lower, haystack, needle, loweredNeedle).value
            == FuzzyMatch(lower, haystack, needle, loweredNeedle).value.indices
  {
    var r := FuzzyMatch(lower, haystack, needle, loweredNeedle);
    if r.Some? {
      SortDedupOfSorted(r.value.indices);
    }
  }

  /** A match needs room: the lowered needle is no longer than the lowered haystack. */
  lemma MatchNeedsRoom(lower: char -> seq<char>, haystack: seq<char>, needle: seq<char>,
                       loweredNeedle: seq<char>)
    requires |needle| > 0
    requires |loweredNeedle| > |Lowered(lower, haystack)|
    ensures FuzzyMatch(lower, haystack, needle, loweredNeedle).None?
  {
    var hay := Lowered(lower, haystack);
    if GreedyFrom(hay, loweredNeedle, 0).Some? {
      var pos := GreedyFrom(hay, loweredNeedle, 0).value;
      GreedySound(hay, loweredNeedle, 0);
      StrictlyIncreasingBound(pos, |hay|);
    }
  }

  /**
   When every haystack character lowers to exactly one character, the
   returned indices are the greedy positions themselves and the score is
   their window, with the bonus when the first is 0.
   */
  lemma MatchOneToOne(lower: char -> seq<char>, haystack: seq<char>, needle: seq<char>,
                      loweredNeedle: seq<char>, pos: seq<nat>)
    requires |needle| > 0 && |loweredNeedle| > 0
    requires forall i :: 0 <= i < |haystack| ==> |lower(haystack[i])| == 1
    requires IsGreedy(Lowered(lower, haystack), loweredNeedle, 0, pos)
    ensures FuzzyMatch(lower, haystack, needle, loweredNeedle)
            == Some(Match(pos, Score(pos[0], pos[|pos| - 1], |loweredNeedle|)))
  {
    var hay := Lowered(lower, haystack);
    GreedyFromIsGreedy(hay, loweredNeedle, 0, pos);
    GreedySound(hay, loweredNeedle, 0);
    NormaliseSingle(lower, haystack);
    FinishIdentity(Normalise(lower, haystack).origin, pos, |loweredNeedle|);
  }

  /** With the identity index map, the match of increasing positions `pos` reports `pos` itself. */
  lemma FinishIdentity(origin: seq<nat>, pos: seq<nat>, needleLen: nat)
    requires |pos| > 0 && StrictlyIncreasing(pos)
    requires forall k :: 0 <= k < |pos| ==> pos[k] < |origin|
    requires forall p :: 0 <= p < |origin| ==> origin[p] == p
    ensures Finish(origin, pos, needleLen) == Match(pos, Score(pos[0], pos[|pos| - 1], needleLen))
  {
    assert OriginsOf(origin, pos) == pos;
    SortDedupOfSorted(pos);
    assert Position(origin, pos[0]) == Some(pos[0]) by {
      assert origin[pos[0]] == pos[0];
    }
  }
}
