/**
 Normalisation of the haystack (codex-rs/utils/fuzzy-match/src/lib.rs,
 lines 66-73). Each original character is lowercased on its own; its
 lowering may be several characters, so next to the lowered characters the
 matcher keeps, for every lowered position, the index of the original
 character it came from.

 Lowercasing is a parameter `lower`: the Unicode case tables are not part of
 this model. Rust's `char::to_lowercase` never yields an empty sequence;
 lemmas that depend on that fact require `NonErasing(lower)`.
 */
module Normalisation {

  import opened Options
  import opened Sorted

  /** The lowered haystack and, position by position, the original character index it came from. */
  datatype Normalised = Normalised(chars: seq<char>, origin: seq<nat>)

  /** Every character lowers to at least one character, as `char::to_lowercase` does. */
  ghost predicate NonErasing(lower: char -> seq<char>) {
    forall c :: |lower(c)| > 0
  }

  /**
   The nested push loop: original character `i` contributes `lower(h[i])`,
   each lowered character tagged with `i`.
   */
  function Normalise(lower: char -> seq<char>, h: seq<char>): (n: Normalised)
    ensures |n.chars| == |n.origin|
    ensures forall p :: 0 <= p < |n.origin| ==> n.origin[p] < |h|
    ensures NonDecreasing(n.origin)
    ensures |h| == 0 ==> |n.chars| == 0
    decreases |h|
  {
    if |h| == 0 then Normalised([], [])
    else
      var prev := Normalise(lower, h[..|h| - 1]);
      var e := lower(h[|h| - 1]);
      Normalised(prev.chars + e, prev.origin + seq(|e|, _ => |h| - 1))
  }

  /** The lowered haystack. */
  function Lowered(lower: char -> seq<char>, h: seq<char>): seq<char> {
    Normalise(lower, h).chars
  }

  /** The lowered position at which original character `i` begins. */
  function Start(lower: char -> seq<char>, h: seq<char>, i: nat): nat
    requires i <= |h|
  {
    |Normalise(lower, h[..i]).chars|
  }

  /** Normalising a prefix of the haystack yields a prefix of its normalisation. */
  lemma {:induction false} NormalisePrefix(lower: char -> seq<char>, h: seq<char>, m: nat)
    requires m <= |h|
    ensures Normalise(lower, h[..m]).chars <= Normalise(lower, h).chars
    ensures Normalise(lower, h[..m]).origin <= Normalise(lower, h).origin
    decreases |h|
  {
    if m == |h| {
      assert h[..m] == h;
    } else {
      var init := h[..|h| - 1];
      assert init[..m] == h[..m];
      NormalisePrefix(lower, init, m);
    }
  }

  /** Lowered positions from `Start(m)` on come from original characters at index `m` or later. */
  lemma {:induction false} NormaliseTail(lower: char -> seq<char>, h: seq<char>, m: nat)
    requires m <= |h|
    ensures forall p :: Start(lower, h, m) <= p < |Normalise(lower, h).origin| ==>
              m <= Normalise(lower, h).origin[p]
    decreases |h|
  {
    if m == |h| {
      assert h[..m] == h;
    } else {
      var init := h[..|h| - 1];
      assert init[..m] == h[..m];
      NormaliseTail(lower, init, m);
    }
  }

  /**
   The index mapping is correct: original character `i` occupies the lowered
   positions `Start(i) .. Start(i) + |lower(h[i])|`, those positions hold
   exactly `lower(h[i])` and map back to `i`, and every earlier position maps
   to an earlier character.
   */
  lemma NormaliseBlock(lower: char -> seq<char>, h: seq<char>, i: nat)
    requires i < |h|
    ensures Start(lower, h, i + 1) == Start(lower, h, i) + |lower(h[i])|
    ensures Start(lower, h, i + 1) <= |Lowered(lower, h)|
    ensures Lowered(lower, h)[Start(lower, h, i)..Start(lower, h, i + 1)] == lower(h[i])
    ensures forall p :: Start(lower, h, i) <= p < Start(lower, h, i + 1) ==>
              Normalise(lower, h).origin[p] == i
    ensures forall p :: 0 <= p < Start(lower, h, i) ==> Normalise(lower, h).origin[p] < i
  {
    var n := Normalise(lower, h);
    var before := Normalise(lower, h[..i]);
    var upTo := Normalise(lower, h[..i + 1]);
    assert h[..i + 1][..i] == h[..i];
    NormalisePrefix(lower, h, i + 1);
    BlockOf(n.chars, n.origin, before.chars, before.origin, lower(h[i]), i);
  }

  /**
   The block facts on plain sequences: when `c`/`o` begin with the earlier
   characters `bc`/`bo` (all from indices below `i`) followed by the block
   `e` tagged with `i`, the block sits right after `bc` and earlier
   positions map below `i`.
   */
  lemma BlockOf(c: seq<char>, o: seq<nat>, bc: seq<char>, bo: seq<nat>, e: seq<char>, i: nat)
    requires |bc| == |bo|
    requires forall p :: 0 <= p < |bo| ==> bo[p] < i
    requires bc + e <= c && bo + seq(|e|, _ => i) <= o
    ensures |bc| + |e| <= |c|
    ensures c[|bc|..|bc| + |e|] == e
    ensures forall p :: |bc| <= p < |bc| + |e| ==> o[p] == i
    ensures forall p :: 0 <= p < |bc| ==> o[p] < i
  {
    var t := bo + seq(|e|, _ => i);
    forall p | |bc| <= p < |bc| + |e|
      ensures o[p] == i
    {
      assert o[p] == t[p];
    }
    forall p | 0 <= p < |bc|
      ensures o[p] < i
    {
      assert o[p] == t[p];
    }
    assert c[|bc|..|bc| + |e|] == (bc + e)[|bc|..];
  }

  /** Start positions grow with the index. */
  lemma {:induction false} StartMonotone(lower: char -> seq<char>, h: seq<char>, i: nat, j: nat)
    requires i <= j <= |h|
    ensures Start(lower, h, i) <= Start(lower, h, j)
    decreases j - i
  {
    if i < j {
      NormaliseBlock(lower, h, j - 1);
      StartMonotone(lower, h, i, j - 1);
    }
  }

  /** With a non-erasing lowering, original character `i` starts at lowered position `i` or later. */
  lemma {:induction false} StartAtLeastIndex(lower: char -> seq<char>, h: seq<char>, i: nat)
    requires NonErasing(lower)
    requires i <= |h|
    ensures i <= Start(lower, h, i)
    decreases i
  {
    if i > 0 {
      NormaliseBlock(lower, h, i - 1);
      StartAtLeastIndex(lower, h, i - 1);
    }
  }

  /**
   Every lowered position `p` lies in the block of the original character it
   maps to, and holds the corresponding character of that character's lowering.
   */
  lemma OriginOfPosition(lower: char -> seq<char>, h: seq<char>, p: nat)
    requires p < |Lowered(lower, h)|
    ensures var i := Normalise(lower, h).origin[p];
      && i < |h|
      && Start(lower, h, i) <= p < Start(lower, h, i) + |lower(h[i])|
      && Lowered(lower, h)[p] == lower(h[i])[p - Start(lower, h, i)]
  {
    var n := Normalise(lower, h);
    var i := n.origin[p];
    NormaliseBlock(lower, h, i);
    NormaliseTail(lower, h, i + 1);
    InBlock(n.chars, n.origin, lower(h[i]), i, Start(lower, h, i), Start(lower, h, i + 1), p);
  }

  /**
   Position `p`, tagged `i`, lies in the block `s .. t` of the positions
   tagged `i` when earlier positions carry smaller tags and later ones larger
   tags; it then holds the matching element of the block's contents `e`.
   */
  lemma InBlock(c: seq<char>, origin: seq<nat>, e: seq<char>, i: nat, s: nat, t: nat, p: nat)
    requires |c| == |origin| && p < |origin| && origin[p] == i
    requires s <= t <= |c| && t == s + |e| && c[s..t] == e
    requires forall q :: 0 <= q < s ==> origin[q] < i
    requires forall q :: t <= q < |origin| ==> i + 1 <= origin[q]
    ensures s <= p < t && c[p] == e[p - s]
  {
    if p < s {
      assert false;
    }
    if t <= p {
      assert false;
    }
    assert c[s..t][p - s] == c[p];
  }

  /**
   When every character lowers to exactly one character, lowered position `p`
   is original character `p`, lowered.
   */
  lemma {:induction false} NormaliseSingle(lower: char -> seq<char>, h: seq<char>)
    requires forall i :: 0 <= i < |h| ==> |lower(h[i])| == 1
    ensures |Lowered(lower, h)| == |h|
    ensures forall p :: 0 <= p < |h| ==>
              Lowered(lower, h)[p] == lower(h[p])[0] && Normalise(lower, h).origin[p] == p
    decreases |h|
  {
    if |h| > 0 {
      var init := h[..|h| - 1];
      NormaliseSingle(lower, init);
      var prev := Normalise(lower, init);
      var n := Normalise(lower, h);
      forall p | 0 <= p < |h|
        ensures n.chars[p] == lower(h[p])[0] && n.origin[p] == p
      {
        if p < |h| - 1 {
          assert n.chars[p] == prev.chars[p] && n.origin[p] == prev.origin[p];
          assert init[p] == h[p];
        }
      }
    }
  }

  /**
   Normalising a haystack that starts with `c`: the lowering of `c`, all
   mapped to index 0, followed by the normalisation of the rest with every
   index shifted by one.
   */
  lemma {:induction false} NormaliseCons(lower: char -> seq<char>, c: char, t: seq<char>)
    ensures Lowered(lower, [c] + t) == lower(c) + Lowered(lower, t)
    ensures forall p :: 0 <= p < |lower(c)| ==> Normalise(lower, [c] + t).origin[p] == 0
    ensures forall p :: 0 <= p < |Normalise(lower, t).origin| ==>
              Normalise(lower, [c] + t).origin[|lower(c)| + p] == Normalise(lower, t).origin[p] + 1
    decreases |t|
  {
    var h := [c] + t;
    if |t| == 0 {
      assert h[..0] == [];
    } else {
      var tInit := t[..|t| - 1];
      assert h[..|h| - 1] == [c] + tInit;
      NormaliseCons(lower, c, tInit);
      var n := Normalise(lower, h);
      var prev := Normalise(lower, [c] + tInit);
      var nt := Normalise(lower, t);
      var ptInit := Normalise(lower, tInit);
      var e := lower(t[|t| - 1]);
      assert h[|h| - 1] == t[|t| - 1];
      assert n.chars == prev.chars + e;
      assert nt.chars == ptInit.chars + e;
      assert n.origin == prev.origin + seq(|e|, _ => |h| - 1);
      assert nt.origin == ptInit.origin + seq(|e|, _ => |t| - 1);
      forall p | 0 <= p < |nt.origin|
        ensures n.origin[|lower(c)| + p] == nt.origin[p] + 1
      {
        if p < |ptInit.origin| {
          assert n.origin[|lower(c)| + p] == prev.origin[|lower(c)| + p];
        }
      }
    }
  }

  /** `Iterator::position`: the first index holding `x`, or `None` when there is none. */
  function Position(s: seq<nat>, x: nat): (r: Option<nat>)
    ensures r.Some? ==> r.value < |s| && s[r.value] == x
    ensures r.Some? ==> forall j :: 0 <= j < r.value ==> s[j] != x
    ensures r.None? <==> x !in s
  {
    if |s| == 0 then None
    else if s[0] == x then Some(0)
    else
      match Position(s[1..], x)
      case None => None
      case Some(k) => Some(k + 1)
  }

  /**
   Searching the index map for an original character that has a non-empty
   lowering finds the start of that character's block.
   */
  lemma PositionOfOrigin(lower: char -> seq<char>, h: seq<char>, i: nat)
    requires i < |h| && |lower(h[i])| > 0
    ensures Position(Normalise(lower, h).origin, i) == Some(Start(lower, h, i))
  {
    var n := Normalise(lower, h);
    NormaliseBlock(lower, h, i);
    var s := Start(lower, h, i);
    assert n.origin[s] == i;
    var r := Position(n.origin, i);
    assert r.Some?;
    assert r.value == s by {
      assert r.value >= s;
    }
  }
}
