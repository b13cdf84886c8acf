/**
 The unit tests of codex-rs/utils/fuzzy-match/src/lib.rs (lines 151-243),
 proved of the model with a sample lowering: ASCII upper case to lower case,
 plus the one multi-character lowering the tests use, U+0130 (capital I with
 dot above) to "i" followed by U+0307 (combining dot above). Every other
 character lowers to itself. The lowered needle is the needle lowered
 character by character, which is what whole-string lowering gives on these
 inputs.
 */
module Examples {

  import opened Options
  import opened Sorted
  import opened Normalisation
  import opened Greedy
  import opened Fuzzy

  /** ASCII lowering, plus U+0130 to "i" U+0307. */
  function SampleLower(c: char): (r: seq<char>)
    ensures |r| > 0
    ensures 'A' <= c <= 'Z' ==> r == [(c as int + 32) as char]
    ensures 'a' <= c <= 'z' ==> r == [c]
  {
    if 'A' <= c <= 'Z' then [(c as int + 32) as char]
    else if c == '\U{130}' then ['i', '\U{307}']
    else [c]
  }

  /** The sample lowering never erases a character, like `char::to_lowercase`. */
  lemma SampleLowerNonErasing()
    ensures NonErasing(SampleLower)
  {
  }

  /** `fuzzy_match` with the sample lowering. */
  function Run(haystack: string, needle: string): Option<Match> {
    FuzzyMatch(SampleLower, haystack, needle, Lowered(SampleLower, needle))
  }

  /** A string whose characters each lower to one character lowers to those characters, index for index. */
  lemma LowersTo(h: string, l: string)
    requires |h| == |l|
    requires forall i :: 0 <= i < |h| ==> SampleLower(h[i]) == [l[i]]
    ensures Lowered(SampleLower, h) == l
    ensures forall i :: 0 <= i < |h| ==> |SampleLower(h[i])| == 1
    ensures forall p :: 0 <= p < |h| ==> Normalise(SampleLower, h).origin[p] == p
  {
    NormaliseSingle(SampleLower, h);
  }

  /**
   A match in a haystack whose characters each lower to one character: the
   greedy positions in the lowered haystack `l` are the returned indices.
   */
  lemma OneToOneExample(h: string, l: string, needle: string, ln: string, pos: seq<nat>)
    requires |h| == |l| && |needle| == |ln| && |ln| > 0
    requires forall i :: 0 <= i < |h| ==> SampleLower(h[i]) == [l[i]]
    requires forall i :: 0 <= i < |needle| ==> SampleLower(needle[i]) == [ln[i]]
    requires IsGreedy(l, ln, 0, pos)
    ensures Run(h, needle) == Some(Match(pos, Score(pos[0], pos[|pos| - 1], |ln|)))
  {
    LowersTo(h, l);
    LowersTo(needle, ln);
    MatchOneToOne(SampleLower, h, needle, ln, pos);
  }

  /**
   A haystack `[c] + t` where every character of `t` lowers to one
   character: the lowering of `c`, all from index 0, then `t` lowered, each
   from its own index plus one.
   */
  lemma ConsExample(c: char, t: string, lt: string)
    requires |t| == |lt|
    requires forall i :: 0 <= i < |t| ==> SampleLower(t[i]) == [lt[i]]
    ensures Lowered(SampleLower, [c] + t) == SampleLower(c) + lt
    ensures var o := Normalise(SampleLower, [c] + t).origin;
            var m := |SampleLower(c)|;
            && |o| == m + |t|
            && (forall p :: 0 <= p < m ==> o[p] == 0)
            && (forall p :: m <= p < |o| ==> o[p] == p - m + 1)
  {
    NormaliseCons(SampleLower, c, t);
    LowersTo(t, lt);
    var o := Normalise(SampleLower, [c] + t).origin;
    var nt := Normalise(SampleLower, t);
    var m := |SampleLower(c)|;
    forall p | m <= p < |o|
      ensures o[p] == p - m + 1
    {
      assert nt.origin[p - m] == p - m;
    }
  }

  /**
   A match whose greedy positions in the lowered `h` are `pos` is `Finish`
   applied to `h`'s index map and `pos`.
   */
  lemma FinishExample(h: string, needle: string, ln: string, pos: seq<nat>)
    requires |needle| == |ln| && |ln| > 0
    requires forall i :: 0 <= i < |needle| ==> SampleLower(needle[i]) == [ln[i]]
    requires IsGreedy(Lowered(SampleLower, h), ln, 0, pos)
    ensures forall k :: 0 <= k < |pos| ==> pos[k] < |Normalise(SampleLower, h).origin|
    ensures Run(h, needle) == Some(Finish(Normalise(SampleLower, h).origin, pos, |ln|))
  {
    LowersTo(needle, ln);
    GreedyFromIsGreedy(Lowered(SampleLower, h), ln, 0, pos);
  }

  /** Lines 152-159: "hello" / "hl" matches at 0 and 2, window 1, with the prefix bonus. */
  lemma AsciiBasicIndices()
    ensures Run("hello", "hl") == Some(Match([0, 2], -99))
  {
    OneToOneExample("hello", "hello", "hl", "hl", [0, 2]);
  }

  /** "İstanbul" lowers to nine characters; the first two come from index 0, the third from index 1. */
  lemma IstanbulNormalised()
    ensures Lowered(SampleLower, "\U{130}stanbul") == "i\U{307}stanbul"
    ensures var origin := Normalise(SampleLower, "\U{130}stanbul").origin;
            |origin| == 9 && origin[0] == 0 && origin[1] == 0 && origin[2] == 1
  {
    assert "\U{130}stanbul" == ['\U{130}'] + "stanbul";
    ConsExample('\U{130}', "stanbul", "stanbul");
  }

  /** The hits at lowered positions 0 and 2 of "İstanbul" finish as indices 0 and 1, window 1, with the bonus. */
  lemma IstanbulFinish(origin: seq<nat>)
    requires |origin| == 9 && origin[0] == 0 && origin[1] == 0 && origin[2] == 1
    ensures Finish(origin, [0, 2], 2) == Match([0, 1], -99)
  {
    assert OriginsOf(origin, [0, 2]) == [0, 1];
    assert Position(origin, 0) == Some(0);
    SortDedupOfSorted([0, 1]);
  }

  /** Lines 163-170: "İstanbul" / "is" matches the expanded İ and the s after it. */
  lemma DottedIIstanbul()
    ensures Run("\U{130}stanbul", "is") == Some(Match([0, 1], -99))
  {
    assert IsGreedy("i\U{307}stanbul", "is", 0, [0, 2]);
    IstanbulNormalised();
    FinishExample("\U{130}stanbul", "is", "is", [0, 2]);
    IstanbulFinish(Normalise(SampleLower, "\U{130}stanbul").origin);
  }

  /** Line 175: "ß" is not folded to "ss", so "strasse" is not found in "straße". */
  lemma SharpSNoMatch()
    ensures Run("stra\U{DF}e", "strasse") == None
  {
    LowersTo("stra\U{DF}e", "stra\U{DF}e");
    LowersTo("strasse", "strasse");
    MatchNeedsRoom(SampleLower, "stra\U{DF}e", "strasse", "strasse");
  }

  /** Lines 180-192: a contiguous match scores -100 ... */
  lemma ContiguousMatch()
    ensures Run("abc", "abc") == Some(Match([0, 1, 2], -100))
  {
    OneToOneExample("abc", "abc", "abc", "abc", [0, 1, 2]);
  }

  /** ... which is better (smaller) than the -98 of a spread one. */
  lemma SpreadMatch()
    ensures Run("a-b-c", "abc") == Some(Match([0, 2, 4], -98))
  {
    OneToOneExample("a-b-c", "a-b-c", "abc", "abc", [0, 2, 4]);
  }

  /** Line 192: the contiguous match ranks ahead of the spread one. */
  lemma ContiguousBeatsSpread()
    ensures Run("abc", "abc").Some? && Run("a-b-c", "abc").Some?
    ensures Run("abc", "abc").value.score < Run("a-b-c", "abc").value.score
  {
    ContiguousMatch();
    SpreadMatch();
  }

  /** Lines 197-209: the prefix bonus applies to "file_name" ... */
  lemma StartOfStringBonus()
    ensures Run("file_name", "file") == Some(Match([0, 1, 2, 3], -100))
  {
    OneToOneExample("file_name", "file_name", "file", "file", [0, 1, 2, 3]);
  }

  /** ... but not to "my_file_name", whose match starts at index 3. */
  lemma NoStartOfStringBonus()
    ensures Run("my_file_name", "file") == Some(Match([3, 4, 5, 6], 0))
  {
    OneToOneExample("my_file_name", "my_file_name", "file", "file", [3, 4, 5, 6]);
  }

  /** Line 209: the match at the start of the string ranks ahead of the later one. */
  lemma PrefixBeatsNonPrefix()
    ensures Run("file_name", "file").Some? && Run("my_file_name", "file").Some?
    ensures Run("file_name", "file").value.score < Run("my_file_name", "file").value.score
  {
    StartOfStringBonus();
    NoStartOfStringBonus();
  }

  /** Lines 214-219: the empty needle matches with no indices and score `i32::MAX`. */
  lemma EmptyNeedle()
    ensures Run("anything", "") == Some(Match([], 0x7fff_ffff))
  {
  }

  /** Lines 224-230: matching ignores case. */
  lemma CaseInsensitive()
    ensures Run("FooBar", "foO") == Some(Match([0, 1, 2], -100))
  {
    OneToOneExample("FooBar", "foobar", "foO", "foo", [0, 1, 2]);
  }

  /** "İ" alone lowers to two characters, both from index 0. */
  lemma DottedINormalised()
    ensures Lowered(SampleLower, "\U{130}") == "i\U{307}"
    ensures Normalise(SampleLower, "\U{130}").origin == [0, 0]
  {
    assert "\U{130}" == ['\U{130}'] + "";
    NormaliseCons(SampleLower, '\U{130}', "");
    assert SampleLower('\U{130}') == "i\U{307}";
  }

  /** Lines 235-242: two hits inside the lowering of İ collapse to the single index 0. */
  lemma DedupExpansion()
    ensures Run("\U{130}", "i\U{307}") == Some(Match([0], -100))
  {
    assert IsGreedy("i\U{307}", "i\U{307}", 0, [0, 1]);
    DottedINormalised();
    FinishExample("\U{130}", "i\U{307}", "i\U{307}", [0, 1]);
    assert OriginsOf([0, 0], [0, 1]) == [0, 0];
    assert Position([0, 0], 0) == Some(0);
    StrictlyIncreasingUnique(SortDedup([0, 0]), [0]);
  }
}
