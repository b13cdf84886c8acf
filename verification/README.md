# Fuzzy match, modelled in Dafny

A model of `codex-rs/utils/fuzzy-match`, the case-insensitive subsequence
matcher behind the TUI's fuzzy filters (skill search, slash commands).

`fuzzy_match(haystack, needle)` works in four steps:

1. It lowercases the haystack one character at a time. A character's
   lowering may be several characters (`İ` becomes `i` followed by a
   combining dot above), so the matcher records, for every lowered
   position, the index of the original character it came from.
2. It walks a single cursor over the lowered haystack. For each character
   of the lowered needle, the cursor stops at the first equal character.
3. If the cursor runs off the end, there is no match.
4. Otherwise it returns the original indices of the hits, sorted and
   deduplicated, together with a score. The score is the lowered span from
   the start of the first hit's character to the last hit, less the needle
   length, clamped at 0, and 100 less when that span starts at position 0.
   An empty needle matches everything with no indices and score
   `i32::MAX`. `fuzzy_indices` returns the indices only.

Modules:

- `Sorted` (`sorted.dfy`): strictly increasing lists, and `SortDedup`, the
  functional counterpart of `sort_unstable` followed by `dedup`.
  `SortDedup` is characterised by its result: the unique strictly
  increasing list with the same elements.
- `Normalisation` (`normalise.dfy`): the lowered haystack and its index
  map (`Normalise`), with lowering as a parameter `lower`. It also has
  `Iterator::position` (`Position`).
- `Greedy` (`greedy.dfy`): the single-cursor scan (`FindFrom`,
  `GreedyFrom`). It is checked against two independent definitions:
  - `Embeds`/`IsSubsequence`: increasing positions spelling the needle;
  - `IsGreedy`: each hit is the first match after the previous one.
- `Fuzzy` (`fuzzy.dfy`): `FuzzyMatch` and `FuzzyIndices`, and the
  properties of their results.
- `FuzzyLoops` (`fuzzy_loops.dfy`): the loops as the code runs them. Each
  is proved to compute the functional definition.
- `Examples` (`examples.dfy`): the unit tests of `lib.rs`, proved on
  the model. They use a sample lowering: ASCII case plus `İ` to `i` and
  U+0307.

## Model

| member | source | states |
|---|---|---|
| Sorted.InsertSorted | codex-rs/utils/fuzzy-match/src/lib.rs:115-116 | inserting into a strictly increasing list keeps it strictly increasing and adds exactly the new element |
| Sorted.SortDedup | codex-rs/utils/fuzzy-match/src/lib.rs:115-116 | the result of sorting and deduplicating is strictly increasing and holds exactly the input's elements |
| Sorted.StrictlyIncreasingUnique | codex-rs/utils/fuzzy-match/src/lib.rs:115-116 | two strictly increasing lists with the same elements are equal, so sort-and-dedup has exactly one possible result whatever the sort algorithm |
| Sorted.SortDedupOfSorted | codex-rs/utils/fuzzy-match/src/lib.rs:115-116 | sorting and deduplicating a strictly increasing list leaves it unchanged |
| Sorted.SortDedupIdempotent | codex-rs/utils/fuzzy-match/src/lib.rs:141-142 | sorting and deduplicating twice is the same as once |
| Sorted.SortDedupHead | codex-rs/utils/fuzzy-match/src/lib.rs:115-116 | when the first element is the least, it heads the sorted, deduplicated list |
| Sorted.StrictlyIncreasingBound | codex-rs/utils/fuzzy-match/src/lib.rs:80-93 | a strictly increasing list of numbers below n has at most n elements (n lowered characters hold at most n hits) |
| Normalisation.Normalise | codex-rs/utils/fuzzy-match/src/lib.rs:66-73 | the lowered characters and the index map have equal length; every mapped index is a valid haystack index; the map never decreases |
| Normalisation.NormalisePrefix | codex-rs/utils/fuzzy-match/src/lib.rs:66-73 | lowering a prefix of the haystack yields a prefix of both the characters and the map, since the push loop only appends |
| Normalisation.NormaliseTail | codex-rs/utils/fuzzy-match/src/lib.rs:66-73 | the positions at and after the start of character m map to indices m or later |
| Normalisation.NormaliseBlock | codex-rs/utils/fuzzy-match/src/lib.rs:68-72 | original character i occupies a contiguous block of lowered positions; the block holds exactly its lowering and maps back to i; all earlier positions map to earlier characters |
| Normalisation.BlockOf | codex-rs/utils/fuzzy-match/src/lib.rs:70-71 | pushing a lowering tagged i after positions tagged below i puts that lowering, tagged i, right after them |
| Normalisation.StartMonotone | codex-rs/utils/fuzzy-match/src/lib.rs:66-73 | a later character's block starts no earlier |
| Normalisation.StartAtLeastIndex | codex-rs/utils/fuzzy-match/src/lib.rs:68-72 | with a non-empty lowering per character, the block of character i starts at lowered position i or later |
| Normalisation.OriginOfPosition | codex-rs/utils/fuzzy-match/src/lib.rs:70-71 | every lowered position lies inside the block of the character it maps to, and holds the matching character of that character's lowering |
| Normalisation.InBlock | codex-rs/utils/fuzzy-match/src/lib.rs:70-71 | a position tagged i, with smaller tags before the block of i and larger ones after it, lies inside that block and holds the matching character of the block |
| Normalisation.NormaliseSingle | codex-rs/utils/fuzzy-match/src/lib.rs:66-73 | when every character lowers to one character, lowered position p is character p lowered and maps to p |
| Normalisation.NormaliseCons | codex-rs/utils/fuzzy-match/src/lib.rs:66-73 | the lowering of c followed by t is c's lowering (mapped to 0) followed by t's lowering, with every index shifted by one |
| Normalisation.Position | codex-rs/utils/fuzzy-match/src/lib.rs:99-102 | `position` returns the first index holding the target, and none exactly when the target is absent |
| Normalisation.PositionOfOrigin | codex-rs/utils/fuzzy-match/src/lib.rs:98-102 | searching the map for a character with a non-empty lowering finds the start of that character's block |
| Greedy.FindFrom | codex-rs/utils/fuzzy-match/src/lib.rs:82-89 | the inner loop finds the first position at or after the cursor holding the needle character, and finds nothing exactly when no such position exists |
| Greedy.GreedyFrom | codex-rs/utils/fuzzy-match/src/lib.rs:80-93 | on success the scan gives one position per needle character, all at or after the cursor and inside the haystack |
| Greedy.EmbedsCons | codex-rs/utils/fuzzy-match/src/lib.rs:80-93 | a hit for the first needle character placed before an embedding of the rest embeds the whole needle |
| Greedy.GreedySound | codex-rs/utils/fuzzy-match/src/lib.rs:80-93 | the positions the scan finds strictly increase and each holds the corresponding lowered needle character |
| Greedy.GreedyLeftmost | codex-rs/utils/fuzzy-match/src/lib.rs:80-93 | whenever any embedding exists, the scan succeeds and each of its positions is no later than that embedding's |
| Greedy.GreedyCompleteAndSound | codex-rs/utils/fuzzy-match/src/lib.rs:80-93 | the scan succeeds exactly when the lowered needle is a subsequence of the lowered haystack |
| Greedy.IsGreedyGivesGreedyFrom | codex-rs/utils/fuzzy-match/src/lib.rs:80-93 | positions that are each the first match after the previous one are what the scan returns |
| Greedy.GreedyFromGivesIsGreedy | codex-rs/utils/fuzzy-match/src/lib.rs:80-93 | each position the scan returns is the first match after the previous one |
| Greedy.GreedyFromIsGreedy | codex-rs/utils/fuzzy-match/src/lib.rs:80-93 | the scan returns a list of positions if and only if each is the first match after the previous one |
| Greedy.IsGreedyTail | codex-rs/utils/fuzzy-match/src/lib.rs:82-92 | the head of a greedy run is the cursor's first hit, and the rest is a greedy run from just after it |
| Greedy.IsGreedyCons | codex-rs/utils/fuzzy-match/src/lib.rs:82-92 | the cursor's first hit followed by a greedy run from just after it is a greedy run |
| Greedy.GreedyPrefixExtend | codex-rs/utils/fuzzy-match/src/lib.rs:82-92 | the positions found so far, extended by the first hit from the cursor, are still the greedy positions of the needle characters handled, and the cursor moves just past the hit |
| Greedy.GreedyPrefixUnique | codex-rs/utils/fuzzy-match/src/lib.rs:82-92 | two greedy runs over the same needle characters agree position for position |
| Greedy.GreedyHead | codex-rs/utils/fuzzy-match/src/lib.rs:80-93 | every prefix of the scan's positions is the greedy result for the corresponding needle characters |
| Greedy.GreedyNext | codex-rs/utils/fuzzy-match/src/lib.rs:82-90 | if the whole needle has a greedy run, the cursor after any greedy prefix still finds the next needle character |
| Greedy.GreedyStuck | codex-rs/utils/fuzzy-match/src/lib.rs:90 | a needle character the cursor cannot find means the scan as a whole has no result (the `?` return) |
| Greedy.GreedyPrefixComplete | codex-rs/utils/fuzzy-match/src/lib.rs:80-93 | greedy positions for every needle character are exactly the scan's result |
| Fuzzy.Score | codex-rs/utils/fuzzy-match/src/lib.rs:104-113 | the score is never below minus the prefix bonus (100) and never negative without it; a window no wider than the needle scores exactly the bonus or 0 |
| Fuzzy.OriginsOf | codex-rs/utils/fuzzy-match/src/lib.rs:91 | the hit list has one original index per hit, the index the map gives for that hit's position; hits at non-decreasing positions give non-decreasing indices |
| Fuzzy.Finish | codex-rs/utils/fuzzy-match/src/lib.rs:95-117 | the returned indices strictly increase, are exactly the original indices of the hits, number no more than the hits, and the score is at least minus the prefix bonus |
| Fuzzy.FuzzyMatch | codex-rs/utils/fuzzy-match/src/lib.rs:61-118 | an empty needle gives no indices and score `i32::MAX`; returned indices strictly increase and are valid haystack indices |
| Fuzzy.FuzzyIndices | codex-rs/utils/fuzzy-match/src/lib.rs:139-145 | `fuzzy_indices` returns nothing exactly when `fuzzy_match` does, and otherwise strictly increasing valid haystack indices |
| Fuzzy.FinishIdentity | codex-rs/utils/fuzzy-match/src/lib.rs:95-116 | with the identity index map, finishing increasing positions returns those positions and scores their window from the first one |
| Fuzzy.SortedOriginsOf | codex-rs/utils/fuzzy-match/src/lib.rs:91-116 | the sorted, deduplicated hit list holds exactly the original indices of the hit positions |
| Fuzzy.MatchIsFinish | codex-rs/utils/fuzzy-match/src/lib.rs:80-118 | a match of a non-empty needle comes from a successful scan whose positions embed the lowered needle |
| Fuzzy.MatchNoneIffNotSubsequence | codex-rs/utils/fuzzy-match/src/lib.rs:80-93 | for a non-empty needle, there is no match exactly when the lowered needle is not a subsequence of the lowered haystack |
| Fuzzy.MatchIndicesAreHits | codex-rs/utils/fuzzy-match/src/lib.rs:91-117 | an index is returned exactly when some greedy hit lies in that character's lowering |
| Fuzzy.MatchCoversNeedle | codex-rs/utils/fuzzy-match/src/lib.rs:82-91 | every lowered needle character occurs in the lowering of some returned haystack character |
| Fuzzy.MatchIndexCount | codex-rs/utils/fuzzy-match/src/lib.rs:77-116 | a non-empty lowered needle yields between one index and one index per lowered needle character |
| Fuzzy.MatchScore | codex-rs/utils/fuzzy-match/src/lib.rs:95-113 | the first index is the first hit's character; the score is the span from that character's block start to the last hit, less the needle length, clamped at 0, with the prefix bonus of 100 subtracted when the block starts at 0; the score lies between -100 and the lowered haystack length |
| Fuzzy.MatchPrefixBonus | codex-rs/utils/fuzzy-match/src/lib.rs:106-113 | with a non-erasing lowering, the -100 bonus applies exactly when the first returned index is 0 |
| Fuzzy.FuzzyIndicesAgrees | codex-rs/utils/fuzzy-match/src/lib.rs:139-145 | `fuzzy_indices` matches exactly when `fuzzy_match` does and returns the same indices |
| Fuzzy.MatchNeedsRoom | codex-rs/utils/fuzzy-match/src/lib.rs:80-93 | a lowered needle longer than the lowered haystack never matches |
| Fuzzy.MatchOneToOne | codex-rs/utils/fuzzy-match/src/lib.rs:61-118 | when every character lowers to one character, the indices are the greedy positions and the score is their window, with the bonus when the first is 0 |
| FuzzyLoops.NormaliseLoop | codex-rs/utils/fuzzy-match/src/lib.rs:66-73 | the nested push loop builds exactly the lowered haystack and index map |
| FuzzyLoops.Advance | codex-rs/utils/fuzzy-match/src/lib.rs:81-89 | the inner while loop stops just past the first equal character, or at the end when there is none |
| FuzzyLoops.ScanStateStep | codex-rs/utils/fuzzy-match/src/lib.rs:86-92 | finding needle character k at p keeps the loop state: the positions stay greedy, the cursor moves just past p, and p's original index is recorded |
| FuzzyLoops.ScanStateDone | codex-rs/utils/fuzzy-match/src/lib.rs:80-93 | when every needle character is found, the positions are the scan's result and the recorded hits and last position are theirs |
| FuzzyLoops.ScanStep | codex-rs/utils/fuzzy-match/src/lib.rs:81-92 | one turn of the loop either gives up, and then the scan has no result, or moves the loop state on by one needle character |
| FuzzyLoops.ScanLoop | codex-rs/utils/fuzzy-match/src/lib.rs:77-93 | the scan loop fails exactly when the greedy scan does; otherwise its outcome is the original index of each greedy position and the last greedy position |
| FuzzyLoops.PositionLoop | codex-rs/utils/fuzzy-match/src/lib.rs:99-102 | the front-to-back search returns `position`'s result |
| FuzzyLoops.FinishLoop | codex-rs/utils/fuzzy-match/src/lib.rs:95-117 | locating the first block, the window, the bonus and the sort/dedup compute the functional result |
| FuzzyLoops.FuzzyMatchLoop | codex-rs/utils/fuzzy-match/src/lib.rs:61-118 | the imperative function returns exactly the functional `FuzzyMatch` on every input |
| Examples.SampleLowerNonErasing | codex-rs/utils/fuzzy-match/src/lib.rs:69 | the sample lowering never produces an empty lowering, as `char::to_lowercase` never does |
| Examples.AsciiBasicIndices | codex-rs/utils/fuzzy-match/src/lib.rs:152-159 | "hello" / "hl" gives indices [0, 2] and score -99 |
| Examples.DottedIIstanbul | codex-rs/utils/fuzzy-match/src/lib.rs:163-170 | "İstanbul" / "is" gives indices [0, 1] and score -99 |
| Examples.SharpSNoMatch | codex-rs/utils/fuzzy-match/src/lib.rs:174-176 | "straße" / "strasse" does not match |
| Examples.ContiguousMatch | codex-rs/utils/fuzzy-match/src/lib.rs:180-189 | "abc" / "abc" scores -100 |
| Examples.SpreadMatch | codex-rs/utils/fuzzy-match/src/lib.rs:184-192 | "a-b-c" / "abc" scores -98 |
| Examples.ContiguousBeatsSpread | codex-rs/utils/fuzzy-match/src/lib.rs:192 | the contiguous match scores strictly less (better) than the spread one |
| Examples.StartOfStringBonus | codex-rs/utils/fuzzy-match/src/lib.rs:197-206 | "file_name" / "file" scores -100 |
| Examples.NoStartOfStringBonus | codex-rs/utils/fuzzy-match/src/lib.rs:201-209 | "my_file_name" / "file" scores 0 |
| Examples.PrefixBeatsNonPrefix | codex-rs/utils/fuzzy-match/src/lib.rs:209 | the match at the start of the string scores strictly less (better) than the later one |
| Examples.EmptyNeedle | codex-rs/utils/fuzzy-match/src/lib.rs:213-220 | an empty needle gives no indices and score `i32::MAX` |
| Examples.CaseInsensitive | codex-rs/utils/fuzzy-match/src/lib.rs:223-231 | "FooBar" / "foO" gives indices [0, 1, 2] and score -100 |
| Examples.DedupExpansion | codex-rs/utils/fuzzy-match/src/lib.rs:234-243 | "İ" / "i" U+0307 gives the single index [0] and score -100 |

## Left out

- Unicode case tables: `char::to_lowercase` is the parameter `lower`, and
  the examples use a small sample lowering instead of the real tables.
- Whole-string needle lowering (line 75): `str::to_lowercase` depends on
  context (Greek final sigma). The lowered needle is therefore an input,
  `loweredNeedle`, and only the emptiness of the original needle is used.
  In the examples, the needle is lowered one character at a time. That
  agrees with whole-string lowering on the needles of those examples.
- UTF-8: strings are sequences of Unicode scalar values. Indices count
  characters, as the source's `chars().enumerate()` does, not bytes.
- Fuzzy.FuzzyMatch: scores are unbounded integers. The `as i32` casts on
  line 109 would wrap for lowered haystacks longer than `i32::MAX`, and
  the model does not reproduce that. `Fuzzy.MatchScore` bounds the score
  by the lowered haystack length.
- Sorted.SortDedup: this is one functional definition, not the
  `sort_unstable` algorithm. `Sorted.StrictlyIncreasingUnique` shows that
  every sort followed by dedup gives this same result.
- Running time (linear in haystack plus needle) and the `with_capacity`
  allocation are not modelled.
- A non-empty needle whose lowering is empty cannot occur with Rust's
  lowering. It is not excluded either: the model follows the code's
  empty-hits branch (lines 95-96) for that case.
