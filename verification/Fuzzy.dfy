/** Fuzzy text matching: a greedy forward scan with gaps, transpositions and a
few missing characters. Lower scores are better. */
module Fuzzy {

  datatype Option<+T> = None | Some(value: T)

  /** What the matcher needs to know about characters: white space, and the number
  of bytes of a character in UTF-8. */
  datatype Chars = Chars(isSpace: char -> bool, width: char -> nat)

  predicate IsBoundary(cs: Chars, c: char) {
    cs.isSpace(c) || c == '_' || c == '-' || c == '.'
  }

  function SaturatingSub(a: nat, b: nat): nat {
    if a < b then 0 else a - b
  }

  function Max(a: nat, b: nat): nat {
    if a < b then b else a
  }

  function Ratio(a: nat, b: nat): nat {
    if b == 0 then a else a / b
  }

  // -- The scan -------------------------------------------------------

  datatype Scan = Scan(score: nat, textIdx: nat, patIdx: nat, consecutive: nat, matched: nat)

  predicate Running(p: string, t: string, s: Scan) {
    s.patIdx < |p| && s.textIdx < |t|
  }

  predicate Transposed(p: string, t: string, s: Scan)
    requires Running(p, t, s)
  {
    && s.patIdx + 1 < |p| && s.textIdx + 1 < |t|
    && p[s.patIdx + 1] == t[s.textIdx] && p[s.patIdx] == t[s.textIdx + 1]
  }

  /** The bonuses of a direct match. */
  function Rewarded(cs: Chars, t: string, s: Scan): nat
    requires s.textIdx < |t|
  {
    var c := s.consecutive + 1;
    var streak := if c > 1 then SaturatingSub(s.score, c * 2) else s.score;
    if s.textIdx == 0 || IsBoundary(cs, t[s.textIdx - 1]) then SaturatingSub(streak, 10) else streak
  }

  function Step(cs: Chars, p: string, t: string, s: Scan): Scan
    requires Running(p, t, s)
  {
    if p[s.patIdx] == t[s.textIdx] then
      Scan(Rewarded(cs, t, s), s.textIdx + 1, s.patIdx + 1, s.consecutive + 1, s.matched + 1)
    else if Transposed(p, t, s) then
      Scan(s.score + 5, s.textIdx + 2, s.patIdx + 2, 0, s.matched + 2)
    else
      Scan(s.score + 3, s.textIdx + 1, s.patIdx, 0, s.matched)
  }

  function Scanned(cs: Chars, p: string, t: string, s: Scan): Scan
    decreases |t| - s.textIdx
  {
    if !Running(p, t, s) then s else Scanned(cs, p, t, Step(cs, p, t, s))
  }

  const StartScan: Scan := Scan(0, 0, 0, 0, 0)

  /** Three fifths of the pattern, rounded up. */
  function MinMatched(n: nat): nat {
    (3 * n + 4) / 5
  }

  function MaxTypos(p: string): nat {
    Max(|p| / 3, 1)
  }

  /** The verdict on a finished scan. */
  function Judge(p: string, t: string, s: Scan): Option<nat>
    requires s.patIdx <= |p|
  {
    var remaining := |p| - s.patIdx;
    if remaining > MaxTypos(p) then None
    else if s.matched + remaining < MinMatched(|p|) then None
    else Some(s.score + 15 * remaining + Ratio(|t|, |p|))
  }

  // -- Leftmost matching ----------------------------------------------

  /** How much of the pattern leftmost matching finds in a text. */
  function Leftmost(p: string, t: string): (g: nat)
    ensures g <= |p|
  {
    if t == [] then 0
    else
      var g := Leftmost(p, t[..|t| - 1]);
      if g < |p| && p[g] == t[|t| - 1] then g + 1 else g
  }

  /** The pattern occurs in the text at increasing positions. */
  ghost predicate Embedded(p: string, t: string, at: seq<nat>) {
    && |at| == |p|
    && (forall i :: 0 <= i < |at| ==> at[i] < |t| && t[at[i]] == p[i])
    && (forall i, j :: 0 <= i < j < |at| ==> at[i] < at[j])
  }

  lemma LeftmostStep(p: string, t: string, j: nat)
    requires j < |t|
    ensures Leftmost(p, t[..j + 1]) ==
            var g := Leftmost(p, t[..j]); if g < |p| && p[g] == t[j] then g + 1 else g
  {
    assert t[..j + 1][..j] == t[..j];
  }

  lemma {:induction false} LeftmostGrows(p: string, t: string, j: nat, k: nat)
    requires j <= k <= |t|
    ensures Leftmost(p, t[..j]) <= Leftmost(p, t[..k])
    decreases k
  {
    if j < k {
      LeftmostStep(p, t, k - 1);
      LeftmostGrows(p, t, j, k - 1);
    }
  }

  /** Leftmost matching has found i characters once the text has passed the i-th
  position of any occurrence. */
  lemma {:induction false} LeftmostKeepsUp(p: string, t: string, at: seq<nat>, i: nat)
    requires Embedded(p, t, at) && i < |p|
    ensures Leftmost(p, t[..at[i] + 1]) >= i + 1
  {
    LeftmostStep(p, t, at[i]);
    if i > 0 {
      LeftmostKeepsUp(p, t, at, i - 1);
      LeftmostGrows(p, t, at[i - 1] + 1, at[i]);
    }
  }

  lemma LeftmostIsComplete(p: string, t: string, at: seq<nat>)
    requires Embedded(p, t, at)
    ensures Leftmost(p, t) == |p|
  {
    if p != [] {
      LeftmostKeepsUp(p, t, at, |p| - 1);
      LeftmostGrows(p, t, at[|p| - 1] + 1, |t|);
      assert t[..|t|] == t;
    }
  }

  // -- What the scan keeps --------------------------------------------

  /** The scan is never behind leftmost matching, has matched what it has consumed,
  and has paid at most 3 per text character. */
  ghost predicate Ahead(p: string, t: string, s: Scan) {
    && s.textIdx <= |t| && s.patIdx <= |p| && s.matched == s.patIdx
    && s.patIdx >= Leftmost(p, t[..s.textIdx])
    && s.score <= 3 * s.textIdx
  }

  lemma StepStaysAhead(cs: Chars, p: string, t: string, s: Scan)
    requires Running(p, t, s) && Ahead(p, t, s)
    ensures Ahead(p, t, Step(cs, p, t, s))
  {
    LeftmostStep(p, t, s.textIdx);
    if s.textIdx + 1 < |t| {
      LeftmostStep(p, t, s.textIdx + 1);
    }
  }

  lemma {:induction false} ScanStaysAhead(cs: Chars, p: string, t: string, s: Scan)
    requires Ahead(p, t, s)
    ensures Ahead(p, t, Scanned(cs, p, t, s)) && !Running(p, t, Scanned(cs, p, t, s))
    decreases |t| - s.textIdx
  {
    if Running(p, t, s) {
      StepStaysAhead(cs, p, t, s);
      ScanStaysAhead(cs, p, t, Step(cs, p, t, s));
    }
  }

  function MatchChars(cs: Chars, p: string, t: string): Option<nat> {
    ScanStaysAhead(cs, p, t, StartScan);
    Judge(p, t, Scanned(cs, p, t, StartScan))
  }

  /** The 60 percent rule never decides: a match fails exactly when more than a
  third of the pattern (and more than one character) is left over. A match scores
  at most 3 per text character, 15 per missing character and the length ratio. */
  lemma MatchBounds(cs: Chars, p: string, t: string)
    ensures var s := Scanned(cs, p, t, StartScan);
            && s.patIdx <= |p|
            && (MatchChars(cs, p, t).Some? <==> |p| - s.patIdx <= MaxTypos(p))
            && (MatchChars(cs, p, t).Some? ==>
                  MatchChars(cs, p, t).value <= 3 * |t| + 15 * MaxTypos(p) + Ratio(|t|, |p|))
  {
    ScanStaysAhead(cs, p, t, StartScan);
  }

  /** Greedy stays ahead: despite the jumps over transpositions, every subsequence
  of the text is matched in full, without a missing character. */
  lemma SubsequenceMatches(cs: Chars, p: string, t: string, at: seq<nat>)
    requires Embedded(p, t, at)
    ensures Scanned(cs, p, t, StartScan).patIdx == |p|
    ensures MatchChars(cs, p, t).Some? && MatchChars(cs, p, t).value <= 3 * |t| + Ratio(|t|, |p|)
  {
    ScanStaysAhead(cs, p, t, StartScan);
    LeftmostIsComplete(p, t, at);
    assert t[..|t|] == t;
  }

  method ScanText(cs: Chars, pattern: string, text: string) returns (score: nat, patIdx: nat, matched: nat)
    ensures var s := Scanned(cs, pattern, text, StartScan);
            score == s.score && patIdx == s.patIdx <= |pattern| && matched == s.matched
  {
    var textIdx, consecutive: nat := 0, 0;
    score, patIdx, matched := 0, 0, 0;
    while patIdx < |pattern| && textIdx < |text|
      invariant patIdx <= |pattern| && textIdx <= |text|
      invariant Scanned(cs, pattern, text, StartScan)
             == Scanned(cs, pattern, text, Scan(score, textIdx, patIdx, consecutive, matched))
      decreases |text| - textIdx
    {
      var p, t := pattern[patIdx], text[textIdx];
      if p == t {
        matched, consecutive := matched + 1, consecutive + 1;
        if consecutive > 1 {
          score := SaturatingSub(score, consecutive * 2);
        }
        if textIdx == 0 || IsBoundary(cs, text[textIdx - 1]) {
          score := SaturatingSub(score, 10);
        }
        patIdx, textIdx := patIdx + 1, textIdx + 1;
      } else if patIdx + 1 < |pattern| && textIdx + 1 < |text| && pattern[patIdx + 1] == t && p == text[textIdx + 1] {
        matched := matched + 2;
        score := score + 5;
        patIdx, textIdx, consecutive := patIdx + 2, textIdx + 2, 0;
      } else {
        score := score + 3;
        textIdx, consecutive := textIdx + 1, 0;
      }
    }
  }

  method FuzzyMatchChars(cs: Chars, pattern: string, text: string) returns (r: Option<nat>)
    ensures r == MatchChars(cs, pattern, text)
  {
    var score, patIdx, matched := ScanText(cs, pattern, text);
    var remaining := |pattern| - patIdx;
    if remaining > 0 {
      if remaining > Max(|pattern| / 3, 1) {
        return None;
      }
      score := score + 15 * remaining;
      matched := matched + remaining;
    }
    if matched < MinMatched(|pattern|) {
      return None;
    }
    r := Some(score + Ratio(|text|, |pattern|));
  }

  // -- The score ------------------------------------------------------

  function ByteLength(cs: Chars, s: string): nat {
    if s == [] then 0 else cs.width(s[0]) + ByteLength(cs, s[1..])
  }

  predicate Contains(t: string, p: string) {
    exists i: nat | i <= |t| :: OccursAt(t, p, i)
  }

  predicate OccursAt(t: string, p: string, i: nat) {
    i + |p| <= |t| && t[i..i + |p|] == p
  }

  function FuzzyScore(cs: Chars, p: string, t: string, cutoff: nat): Option<nat> {
    if p == [] then Some(0)
    else if Contains(t, p) then Some(SaturatingSub(ByteLength(cs, t), ByteLength(cs, p)))
    else if |p| > |t| + 2 then None
    else
      var r := MatchChars(cs, p, t);
      if r.Some? && r.value <= cutoff then r else None
  }

  /** A pattern that is a subsequence of the text is found whenever the cutoff
  leaves room for 3 per text character and the length ratio; a contiguous one is
  found whatever the cutoff. */
  lemma SubsequenceIsFound(cs: Chars, p: string, t: string, at: seq<nat>, cutoff: nat)
    requires Embedded(p, t, at)
    ensures 3 * |t| + Ratio(|t|, |p|) <= cutoff || Contains(t, p) ==> FuzzyScore(cs, p, t, cutoff).Some?
  {
    SubsequenceMatches(cs, p, t, at);
    EmbeddedFits(p, t, at);
  }

  lemma EmbeddedFits(p: string, t: string, at: seq<nat>)
    requires Embedded(p, t, at)
    ensures |p| <= |t|
  {
    if p != [] {
      PositionsSpread(at, |at| - 1);
    }
  }

  lemma {:induction false} PositionsSpread(at: seq<nat>, i: nat)
    requires i < |at| && forall j, k :: 0 <= j < k < |at| ==> at[j] < at[k]
    ensures at[i] >= i
  {
    if i > 0 {
      PositionsSpread(at, i - 1);
      assert at[i - 1] < at[i];
    }
  }
}
