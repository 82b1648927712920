/** The exact score of a fuzzy match, told by the moves of the scan.

A scan is a list of moves: a direct match, two characters swapped, or a text
character passed over. Which moves a pattern and a text allow does not mention the
scan's counters; the theorems say that there is exactly one complete list, and
give the verdict in terms of it. */
module FuzzyTrace {
  import opened Fuzzy

  datatype Move = Direct | Swap | Gap

  /** Pattern characters that a move takes up. */
  function Taken(m: Move): nat {
    match m case Direct => 1 case Swap => 2 case Gap => 0
  }

  /** Text characters that a move takes up. */
  function Read(m: Move): nat {
    if m.Swap? then 2 else 1
  }

  function PatternDone(ms: seq<Move>): nat {
    if ms == [] then 0 else PatternDone(ms[..|ms| - 1]) + Taken(ms[|ms| - 1])
  }

  function TextDone(ms: seq<Move>): nat {
    if ms == [] then 0 else TextDone(ms[..|ms| - 1]) + Read(ms[|ms| - 1])
  }

  /** Direct matches in a row at the end. */
  function Streak(ms: seq<Move>): nat {
    if ms == [] || !ms[|ms| - 1].Direct? then 0 else Streak(ms[..|ms| - 1]) + 1
  }

  function Count(ms: seq<Move>, m: Move): nat {
    if ms == [] then 0 else Count(ms[..|ms| - 1], m) + if ms[|ms| - 1] == m then 1 else 0
  }

  predicate Swapped(p: string, t: string, i: nat, j: nat) {
    i + 1 < |p| && j + 1 < |t| && p[i] == t[j + 1] && p[i + 1] == t[j]
  }

  /** The one move that the characters at i and j call for. */
  predicate Calls(p: string, t: string, i: nat, j: nat, m: Move) {
    && i < |p| && j < |t|
    && match m
       case Direct => p[i] == t[j]
       case Swap => p[i] != t[j] && Swapped(p, t, i, j)
       case Gap => p[i] != t[j] && !Swapped(p, t, i, j)
  }

  predicate Legal(p: string, t: string, ms: seq<Move>) {
    ms == [] ||
    var before := ms[..|ms| - 1];
    Legal(p, t, before) && Calls(p, t, PatternDone(before), TextDone(before), ms[|ms| - 1])
  }

  /** Legal, and at the end of the pattern or of the text. */
  predicate Complete(p: string, t: string, ms: seq<Move>) {
    Legal(p, t, ms) && (PatternDone(ms) >= |p| || TextDone(ms) >= |t|)
  }

  /** What a direct match after the moves ms earns: twice the streak from its second
  match on, and 10 at the start of a word. */
  function Reward(cs: Chars, t: string, ms: seq<Move>): nat {
    var j := TextDone(ms);
    (if Streak(ms) > 0 then 2 * (Streak(ms) + 1) else 0)
    + if j == 0 || (j <= |t| && IsBoundary(cs, t[j - 1])) then 10 else 0
  }

  /** 3 for each gap and 5 for each swap, less the rewards, never below zero. */
  function Score(cs: Chars, t: string, ms: seq<Move>): nat {
    if ms == [] then 0
    else
      var before := ms[..|ms| - 1];
      match ms[|ms| - 1]
      case Direct => SaturatingSub(Score(cs, t, before), Reward(cs, t, before))
      case Swap => Score(cs, t, before) + 5
      case Gap => Score(cs, t, before) + 3
  }

  ghost function StateOf(cs: Chars, t: string, ms: seq<Move>): Scan {
    Scan(Score(cs, t, ms), TextDone(ms), PatternDone(ms), Streak(ms), PatternDone(ms))
  }

  lemma RewardIs(cs: Chars, t: string, ms: seq<Move>)
    requires TextDone(ms) < |t|
    ensures Rewarded(cs, t, StateOf(cs, t, ms)) == SaturatingSub(Score(cs, t, ms), Reward(cs, t, ms))
  {
  }

  lemma MovesGrow(cs: Chars, t: string, ms: seq<Move>, m: Move)
    ensures PatternDone(ms + [m]) == PatternDone(ms) + Taken(m)
    ensures TextDone(ms + [m]) == TextDone(ms) + Read(m)
    ensures Streak(ms + [m]) == if m.Direct? then Streak(ms) + 1 else 0
    ensures Score(cs, t, ms + [m]) ==
            match m
            case Direct => SaturatingSub(Score(cs, t, ms), Reward(cs, t, ms))
            case Swap => Score(cs, t, ms) + 5
            case Gap => Score(cs, t, ms) + 3
  {
    assert (ms + [m])[..|ms|] == ms;
  }

  lemma MoveIsStep(cs: Chars, p: string, t: string, ms: seq<Move>, m: Move)
    requires Calls(p, t, PatternDone(ms), TextDone(ms), m)
    ensures Running(p, t, StateOf(cs, t, ms))
    ensures Step(cs, p, t, StateOf(cs, t, ms)) == StateOf(cs, t, ms + [m])
  {
    RewardIs(cs, t, ms);
    MovesGrow(cs, t, ms, m);
  }

  lemma {:induction false} ScanFollowsMoves(cs: Chars, p: string, t: string, ms: seq<Move>)
    requires Legal(p, t, ms)
    ensures Scanned(cs, p, t, StartScan) == Scanned(cs, p, t, StateOf(cs, t, ms))
  {
    if ms != [] {
      var before, m := ms[..|ms| - 1], ms[|ms| - 1];
      ScanFollowsMoves(cs, p, t, before);
      MoveIsStep(cs, p, t, before, m);
      assert ms == before + [m];
    }
  }

  /** The verdict, from any complete list of moves: no match exactly when more than
  a third of the pattern, and more than one character, is left over; otherwise the
  score of the moves, 15 for each character left over, and the length ratio. */
  lemma MatchScoresExactly(cs: Chars, p: string, t: string, ms: seq<Move>)
    requires Complete(p, t, ms)
    ensures PatternDone(ms) <= |p|
    ensures var left := |p| - PatternDone(ms);
            MatchChars(cs, p, t) ==
            if left > |p| / 3 && left > 1 then None
            else Some(Score(cs, t, ms) + 15 * left + if p == [] then |t| else |t| / |p|)
  {
    ScanFollowsMoves(cs, p, t, ms);
    ScanStaysAhead(cs, p, t, StartScan);
  }

  lemma {:induction false} CompletesFrom(p: string, t: string, ms: seq<Move>) returns (all: seq<Move>)
    requires Legal(p, t, ms)
    ensures Complete(p, t, all)
    decreases |t| - TextDone(ms)
  {
    if PatternDone(ms) >= |p| || TextDone(ms) >= |t| {
      all := ms;
    } else {
      var i, j := PatternDone(ms), TextDone(ms);
      var m := if p[i] == t[j] then Direct else if Swapped(p, t, i, j) then Swap else Gap;
      assert (ms + [m])[..|ms|] == ms;
      all := CompletesFrom(p, t, ms + [m]);
    }
  }

  lemma {:induction false} LegalPrefix(p: string, t: string, ms: seq<Move>, k: nat)
    requires Legal(p, t, ms) && k <= |ms|
    ensures Legal(p, t, ms[..k])
    ensures k < |ms| ==> Calls(p, t, PatternDone(ms[..k]), TextDone(ms[..k]), ms[k])
    decreases |ms|
  {
    if k < |ms| - 1 {
      LegalPrefix(p, t, ms[..|ms| - 1], k);
      assert ms[..|ms| - 1][..k] == ms[..k];
    } else if k == |ms| {
      assert ms[..k] == ms;
    }
  }

  lemma {:induction false} SameMoves(p: string, t: string, ms: seq<Move>, ns: seq<Move>, k: nat)
    requires Legal(p, t, ms) && Legal(p, t, ns) && k <= |ms| && k <= |ns|
    ensures ms[..k] == ns[..k]
  {
    if k > 0 {
      SameMoves(p, t, ms, ns, k - 1);
      LegalPrefix(p, t, ms, k - 1);
      LegalPrefix(p, t, ns, k - 1);
      assert ms[..k] == ms[..k - 1] + [ms[k - 1]];
      assert ns[..k] == ns[..k - 1] + [ns[k - 1]];
    }
  }

  lemma CompleteIsLast(p: string, t: string, ms: seq<Move>, ns: seq<Move>)
    requires Complete(p, t, ms) && Legal(p, t, ns)
    ensures |ns| <= |ms|
  {
    if |ns| > |ms| {
      SameMoves(p, t, ms, ns, |ms|);
      assert ms[..|ms|] == ms;
      LegalPrefix(p, t, ns, |ms|);
    }
  }

  /** Every pattern and text have exactly one complete list of moves. */
  lemma OneCompleteScan(p: string, t: string)
    ensures exists ms :: Complete(p, t, ms)
    ensures forall ms, ns :: Complete(p, t, ms) && Complete(p, t, ns) ==> ms == ns
  {
    var all := CompletesFrom(p, t, []);
    forall ms, ns | Complete(p, t, ms) && Complete(p, t, ns) ensures ms == ns {
      CompleteIsLast(p, t, ms, ns);
      CompleteIsLast(p, t, ns, ms);
      SameMoves(p, t, ms, ns, |ms|);
      assert ms[..|ms|] == ms && ns[..|ns|] == ns;
    }
  }

  /** Without direct matches the score is 3 per gap and 5 per swap; direct matches
  only lower it; and a scan of direct matches alone scores nothing. */
  lemma {:induction false} ScoreOfMoves(cs: Chars, t: string, ms: seq<Move>)
    ensures Score(cs, t, ms) <= 3 * Count(ms, Gap) + 5 * Count(ms, Swap)
    ensures Count(ms, Direct) == 0 ==> Score(cs, t, ms) == 3 * Count(ms, Gap) + 5 * Count(ms, Swap)
    ensures PatternDone(ms) == Count(ms, Direct) + 2 * Count(ms, Swap)
    ensures TextDone(ms) == PatternDone(ms) + Count(ms, Gap)
  {
    if ms != [] {
      ScoreOfMoves(cs, t, ms[..|ms| - 1]);
    }
  }

  /** A text that starts with the pattern costs only the length ratio. */
  lemma PrefixScoresRatio(cs: Chars, p: string, t: string)
    requires p <= t && p != []
    ensures MatchChars(cs, p, t) == Some(|t| / |p|)
  {
    var ms := AllDirect(p, t, |p|);
    MatchScoresExactly(cs, p, t, ms);
    ScoreOfMoves(cs, t, ms);
  }

  lemma {:induction false} AllDirect(p: string, t: string, n: nat) returns (ms: seq<Move>)
    requires p <= t && n <= |p|
    ensures Legal(p, t, ms) && PatternDone(ms) == TextDone(ms) == n
    ensures Count(ms, Gap) == Count(ms, Swap) == 0
  {
    ms := [];
    if n > 0 {
      var before := AllDirect(p, t, n - 1);
      ms := before + [Direct];
      assert ms[..|ms| - 1] == before;
    }
  }

  // -- The cutoff -----------------------------------------------------

  lemma {:induction false} BytesAdd(cs: Chars, a: string, b: string)
    ensures ByteLength(cs, a + b) == ByteLength(cs, a) + ByteLength(cs, b)
  {
    if a == [] {
      assert a + b == b;
    } else {
      BytesAdd(cs, a[1..], b);
      assert (a + b)[1..] == a[1..] + b;
    }
  }

  /** A contiguous occurrence scores the bytes around it, wherever it is. */
  lemma OccurrenceScoresRest(cs: Chars, p: string, t: string, i: nat, cutoff: nat)
    requires p != [] && OccursAt(t, p, i)
    ensures FuzzyScore(cs, p, t, cutoff) == Some(ByteLength(cs, t[..i]) + ByteLength(cs, t[i + |p|..]))
  {
    assert t == t[..i] + p + t[i + |p|..];
    BytesAdd(cs, t[..i] + p, t[i + |p|..]);
    BytesAdd(cs, t[..i], p);
  }

  /** Results above the cutoff are dropped except for contiguous occurrences, which
  never look at it. */
  lemma CutoffExactly(cs: Chars, p: string, t: string, cutoff: nat)
    ensures FuzzyScore(cs, p, t, cutoff).Some? && FuzzyScore(cs, p, t, cutoff).value > cutoff
       <==> p != [] && Contains(t, p) && ByteLength(cs, t) > ByteLength(cs, p) + cutoff
  {
  }

  /** A result above its cutoff. */
  lemma AboveCutoff(cs: Chars)
    requires cs.width('a') == 1 && cs.width('b') == 1
    ensures FuzzyScore(cs, "a", "ab", 0) == Some(1)
  {
    var t := "ab";
    assert OccursAt(t, "a", 0);
    OccurrenceScoresRest(cs, "a", t, 0, 0);
    assert t[..0] == [] && t[1..] == ['b'] && ['b'][1..] == [];
    assert ByteLength(cs, ['b']) == 1 + ByteLength(cs, []);
  }

  /** Without a contiguous occurrence the score is that of the moves, kept when it is
  within the cutoff and the pattern is at most 2 characters longer than the text. */
  lemma FuzzyScoreExactly(cs: Chars, p: string, t: string, ms: seq<Move>, cutoff: nat)
    requires p != [] && !Contains(t, p) && Complete(p, t, ms)
    ensures PatternDone(ms) <= |p|
    ensures var left := |p| - PatternDone(ms);
            var score := Score(cs, t, ms) + 15 * left + |t| / |p|;
            FuzzyScore(cs, p, t, cutoff) ==
            if |p| > |t| + 2 || (left > |p| / 3 && left > 1) || score > cutoff then None else Some(score)
  {
    MatchScoresExactly(cs, p, t, ms);
  }
}
