/** The playback source that the output device pulls samples from.

It mixes the speaker queues chunk by chunk, waits for a filled queue before it
starts, backs off when there is nothing to play, fades out into an underrun and
ramps back in. Before each pull the producers may have changed the queues in any
way. */
module MixerSource {
  import opened SpeakerQueue
  import opened AudioMixer
  import opened SpeakerDrain

  const MIX_CHUNK_SIZE: nat := 960
  const PRE_BUFFER_SAMPLES: nat := 4800
  const UNDERRUN_BACKOFF: nat := 240
  const REPRIME_AFTER: nat := 300
  const MIN_RAMP: nat := 48
  const MAX_RAMP: nat := 480
  const FADE_OUT_LEN: nat := 960

  /** The cosine weights of the two fades, and the soft clipper. */
  datatype Fades = Fades(rampIn: (nat, nat) -> real, fadeOut: nat -> real, clip: real -> real)

  ghost predicate WeightsInUnit(f: Fades) {
    && (forall i: nat, n: nat :: 0.0 <= f.rampIn(i, n) <= 1.0)
    && (forall i: nat :: 0.0 <= f.fadeOut(i) <= 1.0)
  }

  datatype Source = Source(
    chunk: Samples,
    pos: nat,
    valid: nat,
    primed: bool,
    consecutiveEmpty: nat,
    last: real,
    inUnderrun: bool,
    rampPos: nat,
    underrunSamples: nat,
    fadeAnchor: real,
    cooldown: nat)

  const NewSource: Source := Source([], 0, 0, false, 0, 0.0, false, 0, 0, 0.0, 0)

  /** What one pull finds: whether playback runs, whether the queues can be locked,
  the queues, the speaker volumes and the master volume. */
  datatype Input = Input(running: bool, lockOk: bool, buffers: Buffers, vols: Volumes, volume: real)

  // -- Refilling ------------------------------------------------------

  function BackedOff(s: Source): Source {
    s.(pos := 0, valid := 0, cooldown := UNDERRUN_BACKOFF)
  }

  /** May the queues be drained: once primed always, before that when some queue
  holds 100 ms. */
  ghost predicate Drains(s: Source, i: Input) {
    i.lockOk && (s.primed || MaxLen(i.buffers, i.buffers.Keys) >= PRE_BUFFER_SAMPLES)
  }

  ghost function Refilled(s: Source, i: Input): Source {
    if !Drains(s, i) then BackedOff(s)
    else
      var valid := Min(MaxLen(i.buffers, i.buffers.Keys), MIX_CHUNK_SIZE);
      var t := s.(primed := true, chunk := Mixed(i.buffers, i.vols, MIX_CHUNK_SIZE));
      if valid == 0 then
        var empty := s.consecutiveEmpty + 1;
        BackedOff(t.(consecutiveEmpty := empty, primed := empty < REPRIME_AFTER))
      else t.(consecutiveEmpty := 0, pos := 0, valid := valid)
  }

  predicate Refills(s: Source) {
    s.cooldown == 0 && s.pos >= s.valid
  }

  /** The source when a pull has done its waiting or refilling. */
  ghost function Prepared(s: Source, i: Input): Source {
    if s.cooldown > 0 then s.(cooldown := s.cooldown - 1)
    else if Refills(s) then Refilled(s, i)
    else s
  }

  // -- One sample -----------------------------------------------------

  function Clamp(n: nat, lo: nat, hi: nat): nat {
    if n < lo then lo else if n > hi then hi else n
  }

  function Blend(a: real, b: real, w: real): real {
    Scaled(a, 1.0 - w) + Scaled(b, w)
  }

  function PlayRaw(f: Fades, s: Source): Source
    requires s.pos < |s.chunk|
  {
    var raw := s.chunk[s.pos];
    var t := s.(pos := s.pos + 1);
    if !s.inUnderrun then t.(last := raw)
    else
      var rampLen := Clamp(s.underrunSamples, MIN_RAMP, MAX_RAMP);
      var ramp := s.rampPos + 1;
      if ramp >= rampLen then t.(inUnderrun := false, rampPos := 0, underrunSamples := 0, last := raw)
      else t.(rampPos := ramp, last := Blend(s.last, raw, f.rampIn(ramp, rampLen)))
  }

  function PlayUnderrun(f: Fades, s: Source): Source {
    var anchor := if s.inUnderrun then s.fadeAnchor else s.last;
    var n := s.underrunSamples + 1;
    s.(fadeAnchor := anchor, inUnderrun := true, rampPos := 0, underrunSamples := n,
       last := if n >= FADE_OUT_LEN then 0.0 else Scaled(anchor, f.fadeOut(n)))
  }

  ghost predicate WellFormed(s: Source) {
    s.valid <= |s.chunk|
  }

  ghost function Pulled(f: Fades, s: Source, i: Input): Source
    requires WellFormed(s)
  {
    if !i.running then s
    else
      var t := Prepared(s, i);
      if t.pos < t.valid then PlayRaw(f, t) else PlayUnderrun(f, t)
  }

  /** The raw mixed sample that a pull plays, if any. */
  ghost function RawOf(s: Source, i: Input): Samples
    requires WellFormed(s)
  {
    var t := Prepared(s, i);
    if i.running && t.pos < t.valid then [t.chunk[t.pos]] else []
  }

  /** The mixed samples that a pull drains from the queues: as many as the longest
  queue has, up to a chunk. */
  ghost function DrainedBy(s: Source, i: Input): (d: Samples)
    ensures i.running && Refills(s) && Drains(s, i) ==>
              && |d| == Min(MaxLen(i.buffers, i.buffers.Keys), MIX_CHUNK_SIZE)
              && forall j: nat | j < |d| :: d[j] == MixSum(i.buffers, i.vols, i.buffers.Keys, j)
    ensures !(i.running && Refills(s) && Drains(s, i)) ==> d == []
  {
    if i.running && Refills(s) && Drains(s, i) then
      var n := Min(MaxLen(i.buffers, i.buffers.Keys), MIX_CHUNK_SIZE);
      MixedIsSums(i.buffers, i.vols, MIX_CHUNK_SIZE);
      Mixed(i.buffers, i.vols, MIX_CHUNK_SIZE)[..n]
    else []
  }

  lemma MixedIsSums(b: Buffers, vols: Volumes, n: nat)
    ensures forall j: nat | j < n :: Mixed(b, vols, n)[j] == MixSum(b, vols, b.Keys, j)
  {
    forall j: nat | j < n ensures Mixed(b, vols, n)[j] == MixSum(b, vols, b.Keys, j) {
      MixedAt(b, vols, n, j);
    }
  }

  /** With one speaker at plain volume the samples drained are the front of its
  queue: exactly what the refill takes away from it. */
  lemma LoneSpeakerIsDrainedPlain(s: Source, i: Input, k: nat)
    requires i.running && Refills(s) && Drains(s, i) && i.buffers.Keys == {k} && k !in i.vols
    ensures DrainedBy(s, i) + DrainAll(i.buffers, MIX_CHUNK_SIZE)[k] == i.buffers[k]
  {
    var d, q := DrainedBy(s, i), i.buffers[k];
    MaxLenPick(i.buffers, {k}, k);
    assert {k} - {k} == {};
    forall j: nat | j < |d| ensures d[j] == q[j] {
      MixSumIs(i.buffers, i.vols, {k}, j, k);
    }
    assert d == q[..Min(|q|, MIX_CHUNK_SIZE)];
  }

  ghost function Pending(s: Source): Samples
    requires WellFormed(s)
  {
    if s.pos < s.valid then s.chunk[s.pos..s.valid] else []
  }

  // -- Runs -----------------------------------------------------------

  ghost function Run(f: Fades, s: Source, ins: seq<Input>): (t: Source)
    requires WellFormed(s)
    ensures WellFormed(t)
    decreases |ins|
  {
    if ins == [] then s else Run(f, Pulled(f, s, ins[0]), ins[1..])
  }

  ghost function AllRaw(f: Fades, s: Source, ins: seq<Input>): Samples
    requires WellFormed(s)
    decreases |ins|
  {
    if ins == [] then [] else RawOf(s, ins[0]) + AllRaw(f, Pulled(f, s, ins[0]), ins[1..])
  }

  ghost function AllDrained(f: Fades, s: Source, ins: seq<Input>): Samples
    requires WellFormed(s)
    decreases |ins|
  {
    if ins == [] then [] else DrainedBy(s, ins[0]) + AllDrained(f, Pulled(f, s, ins[0]), ins[1..])
  }

  lemma StepPlaysInOrder(f: Fades, s: Source, i: Input)
    requires WellFormed(s)
    ensures Pending(s) + DrainedBy(s, i) == RawOf(s, i) + Pending(Pulled(f, s, i))
  {
    if i.running {
      PreparedPending(s, i);
      PlayedPending(f, Prepared(s, i));
    }
  }

  lemma PreparedPending(s: Source, i: Input)
    requires WellFormed(s) && i.running
    ensures WellFormed(Prepared(s, i))
    ensures Pending(s) + DrainedBy(s, i) == Pending(Prepared(s, i)) || s.cooldown > 0
    ensures s.cooldown > 0 ==> DrainedBy(s, i) == [] && Pending(Prepared(s, i)) == Pending(s)
  {
  }

  lemma PlayedPending(f: Fades, t: Source)
    requires WellFormed(t)
    ensures Pending(t) == if t.pos < t.valid then [t.chunk[t.pos]] + Pending(PlayRaw(f, t)) else Pending(PlayUnderrun(f, t))
  {
    if t.pos < t.valid {
      assert t.chunk[t.pos..t.valid] == [t.chunk[t.pos]] + t.chunk[t.pos + 1..t.valid];
    }
  }

  /** Over any interleaving of pulls and producer changes, the raw samples played
  are exactly the drained samples in order, none skipped and none replayed. */
  lemma {:induction false} PlaysInOrder(f: Fades, s: Source, ins: seq<Input>)
    requires WellFormed(s)
    ensures Pending(s) + AllDrained(f, s, ins) == AllRaw(f, s, ins) + Pending(Run(f, s, ins))
    decreases |ins|
  {
    if ins != [] {
      var s1 := Pulled(f, s, ins[0]);
      StepPlaysInOrder(f, s, ins[0]);
      PlaysInOrder(f, s1, ins[1..]);
      ChainConserves(Pending(s), DrainedBy(s, ins[0]), RawOf(s, ins[0]), Pending(s1),
                     AllDrained(f, s1, ins[1..]), AllRaw(f, s1, ins[1..]), Pending(Run(f, s, ins)));
    }
  }

  // -- Level ----------------------------------------------------------

  ghost predicate Within(level: real, xs: Samples) {
    forall i :: 0 <= i < |xs| ==> -level <= xs[i] <= level
  }

  ghost predicate Quiet(level: real, s: Source) {
    -level <= s.last <= level && -level <= s.fadeAnchor <= level
  }

  lemma BlendWithin(a: real, b: real, w: real, level: real)
    requires -level <= a <= level && -level <= b <= level && 0.0 <= w <= 1.0
    ensures -level <= Blend(a, b, w) <= level
  {
    ScaleWithin(a, 1.0 - w, level);
    ScaleWithin(b, w, level);
    Shares(level, 1.0 - w, w);
    SumWithin(Scaled(a, 1.0 - w), Scaled(level, 1.0 - w), Scaled(b, w), Scaled(level, w));
  }

  lemma SumWithin(x: real, p: real, y: real, q: real)
    requires -p <= x <= p && -q <= y <= q
    ensures -(p + q) <= x + y <= p + q
  {
  }

  lemma Shares(level: real, u: real, w: real)
    requires u + w == 1.0
    ensures Scaled(level, u) + Scaled(level, w) == level
  {
    assert level * u + level * w == level * (u + w);
  }

  lemma ScaleWithin(a: real, w: real, level: real)
    requires -level <= a <= level && 0.0 <= w
    ensures -Scaled(level, w) <= Scaled(a, w) <= Scaled(level, w)
  {
    assert (level - a) * w >= 0.0 && (a + level) * w >= 0.0;
    assert (level - a) * w == level * w - a * w;
    assert (a + level) * w == a * w + level * w;
  }

  lemma FadeWithin(a: real, w: real, level: real)
    requires -level <= a <= level && 0.0 <= w <= 1.0
    ensures -level <= Scaled(a, w) <= level
  {
    ScaleWithin(a, w, level);
    ScaleWithin(level, 1.0 - w, level);
    Shares(level, 1.0 - w, w);
  }

  lemma StepStaysQuiet(f: Fades, s: Source, i: Input, level: real)
    requires WellFormed(s) && WeightsInUnit(f) && Quiet(level, s) && Within(level, RawOf(s, i))
    ensures Quiet(level, Pulled(f, s, i))
  {
    if i.running {
      var t := Prepared(s, i);
      if t.pos < t.valid {
        var raw := t.chunk[t.pos];
        assert RawOf(s, i)[0] == raw;
        var rampLen := Clamp(t.underrunSamples, MIN_RAMP, MAX_RAMP);
        BlendWithin(t.last, raw, f.rampIn(t.rampPos + 1, rampLen), level);
      } else {
        var anchor := if t.inUnderrun then t.fadeAnchor else t.last;
        FadeWithin(anchor, f.fadeOut(t.underrunSamples + 1), level);
      }
    }
  }

  /** The level before master volume and clipping never exceeds the loudest raw
  sample played so far, given only that the fade weights lie between 0 and 1. */
  lemma {:induction false} NeverLouderThanRaw(f: Fades, s: Source, ins: seq<Input>, level: real)
    requires WellFormed(s) && WeightsInUnit(f) && Quiet(level, s) && Within(level, AllRaw(f, s, ins))
    ensures Quiet(level, Run(f, s, ins))
    decreases |ins|
  {
    if ins != [] {
      var s1 := Pulled(f, s, ins[0]);
      var a, b := RawOf(s, ins[0]), AllRaw(f, s1, ins[1..]);
      assert Within(level, a) by {
        forall i | 0 <= i < |a| ensures -level <= a[i] <= level {
          assert (a + b)[i] == a[i];
        }
      }
      assert Within(level, b) by {
        forall i | 0 <= i < |b| ensures -level <= b[i] <= level {
          assert (a + b)[|a| + i] == b[i];
        }
      }
      StepStaysQuiet(f, s, ins[0], level);
      NeverLouderThanRaw(f, s1, ins[1..], level);
    }
  }

  // -- Pacing ---------------------------------------------------------

  /** Pulls in a row that played no raw sample. */
  ghost function Starved(f: Fades, s: Source, ins: seq<Input>, before: nat): nat
    requires WellFormed(s)
    decreases |ins|
  {
    if ins == [] then before
    else Starved(f, Pulled(f, s, ins[0]), ins[1..], StarvedNext(s, ins[0], before))
  }

  ghost function StarvedNext(s: Source, i: Input, before: nat): nat
    requires WellFormed(s)
  {
    if !i.running then before else if RawOf(s, i) == [] then before + 1 else 0
  }

  /** Does this pull try to refill and get nothing? */
  ghost predicate FailsRefill(s: Source, i: Input) {
    i.running && Refills(s) && Refilled(s, i).valid == 0
  }

  ghost function FailedRefills(f: Fades, s: Source, ins: seq<Input>): nat
    requires WellFormed(s)
    decreases |ins|
  {
    if ins == [] then 0
    else (if FailsRefill(s, ins[0]) then 1 else 0) + FailedRefills(f, Pulled(f, s, ins[0]), ins[1..])
  }

  function Pulls(ins: seq<Input>): nat {
    if ins == [] then 0 else (if ins[0].running then 1 else 0) + Pulls(ins[1..])
  }

  /** What every reachable source satisfies, after `starved` pulls in a row without
  a raw sample. */
  ghost predicate Steady(s: Source, starved: nat) {
    && WellFormed(s)
    && s.cooldown <= UNDERRUN_BACKOFF
    && (s.cooldown > 0 ==> s.pos >= s.valid)
    && (s.primed ==> s.consecutiveEmpty < REPRIME_AFTER)
    && (s.consecutiveEmpty > 0 ==>
          s.pos >= s.valid && starved + s.cooldown >= (UNDERRUN_BACKOFF + 1) * s.consecutiveEmpty)
  }

  lemma StepKeepsSteady(f: Fades, s: Source, i: Input, starved: nat)
    requires Steady(s, starved)
    ensures Steady(Pulled(f, s, i), StarvedNext(s, i, starved))
  {
  }

  /** In every run: primed implies fewer than 300 empty refills in a row, and a
  pending back-off implies that no chunk is left. */
  lemma {:induction false} RunKeepsSteady(f: Fades, s: Source, ins: seq<Input>, starved: nat)
    requires Steady(s, starved)
    ensures Steady(Run(f, s, ins), Starved(f, s, ins, starved))
    decreases |ins|
  {
    if ins != [] {
      StepKeepsSteady(f, s, ins[0], starved);
      RunKeepsSteady(f, Pulled(f, s, ins[0]), ins[1..], StarvedNext(s, ins[0], starved));
    }
  }

  /** In every run from a new source, playback is given up only after 72,060 pulls
  in a row without a sample. */
  lemma ReprimeNeedsLongStarvation(f: Fades, ins: seq<Input>, i: Input)
    requires var s := Run(f, NewSource, ins); s.primed && !Pulled(f, s, i).primed
    ensures var s := Run(f, NewSource, ins);
            && StarvedNext(s, i, Starved(f, NewSource, ins, 0)) >= 72_060
            && Pulled(f, s, i).consecutiveEmpty == REPRIME_AFTER
  {
    RunKeepsSteady(f, NewSource, ins, 0);
    StepKeepsSteady(f, Run(f, NewSource, ins), i, Starved(f, NewSource, ins, 0));
  }

  /** Playback starts, or starts again, exactly on a refill that finds a queue of
  at least 4,800 samples, and plays a raw sample at once. */
  lemma StartsOnlyWhenFilled(f: Fades, s: Source, i: Input)
    requires WellFormed(s) && !s.primed
    ensures Pulled(f, s, i).primed <==>
              && i.running && Refills(s) && i.lockOk
              && MaxLen(i.buffers, i.buffers.Keys) >= PRE_BUFFER_SAMPLES
    ensures Pulled(f, s, i).primed ==> |RawOf(s, i)| == 1
  {
  }

  /** Does this pull look into the queues while playing and find all of them empty? */
  ghost predicate FindsEmpty(s: Source, i: Input) {
    i.running && Refills(s) && i.lockOk && s.primed && MaxLen(i.buffers, i.buffers.Keys) == 0
  }

  /** Empty refills since the last raw sample. */
  ghost function EmptyRefills(f: Fades, s: Source, ins: seq<Input>, before: nat): nat
    requires WellFormed(s)
    decreases |ins|
  {
    if ins == [] then before
    else EmptyRefills(f, Pulled(f, s, ins[0]), ins[1..], EmptyNext(s, ins[0], before))
  }

  ghost function EmptyNext(s: Source, i: Input, before: nat): nat
    requires WellFormed(s)
  {
    if FindsEmpty(s, i) then before + 1 else if RawOf(s, i) != [] then 0 else before
  }

  /** How one pull moves the pacing. A playing source stops for want of a sample
  exactly on the 300th empty refill since it last played one; a failed lock or a
  queue that is not filled up yet is no empty refill. A back-off runs down by one
  each pull and starts again at 240 on every refill that brings nothing. */
  lemma PacesExactly(f: Fades, s: Source, i: Input, starved: nat)
    requires Steady(s, starved)
    ensures var t := Pulled(f, s, i);
            && t.consecutiveEmpty == EmptyNext(s, i, s.consecutiveEmpty)
            && (s.primed ==> (!t.primed <==> FindsEmpty(s, i) && s.consecutiveEmpty + 1 == 300))
            && t.cooldown == (if !i.running then s.cooldown
                              else if s.cooldown > 0 then s.cooldown - 1
                              else if RawOf(s, i) == [] then 240 else 0)
  {
  }

  /** In every run the counter is the number of empty refills since the last raw
  sample. */
  lemma {:induction false} CountsEmptyRefills(f: Fades, s: Source, ins: seq<Input>, starved: nat)
    requires Steady(s, starved)
    ensures Run(f, s, ins).consecutiveEmpty == EmptyRefills(f, s, ins, s.consecutiveEmpty)
    decreases |ins|
  {
    if ins != [] {
      PacesExactly(f, s, ins[0], starved);
      StepKeepsSteady(f, s, ins[0], starved);
      CountsEmptyRefills(f, Pulled(f, s, ins[0]), ins[1..], StarvedNext(s, ins[0], starved));
    }
  }

  /** Failed refills are at least 241 pulls apart. */
  lemma {:induction false} FailedRefillsAreApart(f: Fades, s: Source, ins: seq<Input>, starved: nat)
    requires Steady(s, starved)
    ensures (UNDERRUN_BACKOFF + 1) * FailedRefills(f, s, ins) + s.cooldown <= Pulls(ins) + Run(f, s, ins).cooldown
    decreases |ins|
  {
    if ins != [] {
      StepKeepsSteady(f, s, ins[0], starved);
      FailedRefillsAreApart(f, Pulled(f, s, ins[0]), ins[1..], StarvedNext(s, ins[0], starved));
    }
  }

  // -- Ramps ----------------------------------------------------------

  /** Every pull plays a raw sample. */
  ghost predicate AllPlay(f: Fades, s: Source, ins: seq<Input>)
    requires WellFormed(s)
    decreases |ins|
  {
    ins != [] ==> RawOf(s, ins[0]) != [] && AllPlay(f, Pulled(f, s, ins[0]), ins[1..])
  }

  /** How many more raw samples the ramp takes. */
  function RampLeft(s: Source): nat {
    var rampLen := Clamp(s.underrunSamples, MIN_RAMP, MAX_RAMP);
    if !s.inUnderrun then 0 else if s.rampPos < rampLen then rampLen - s.rampPos else 1
  }

  lemma RampStep(f: Fades, s: Source, i: Input)
    requires WellFormed(s) && RawOf(s, i) != []
    ensures RampLeft(Pulled(f, s, i)) == if RampLeft(s) == 0 then 0 else RampLeft(s) - 1
    ensures RampLeft(s) <= 1 ==> Pulled(f, s, i).last == RawOf(s, i)[0]
  {
    assert RampLeft(Prepared(s, i)) == RampLeft(s);
  }

  /** A ramp lasts at most 480 raw samples: once that many have been played in a
  row, what is played is the raw mix itself. */
  lemma {:induction false} RampEnds(f: Fades, s: Source, ins: seq<Input>, i: Input)
    requires WellFormed(s) && AllPlay(f, s, ins) && RawOf(Run(f, s, ins), i) != []
    requires |ins| + 1 >= RampLeft(s)
    ensures RampLeft(s) <= MAX_RAMP
    ensures Pulled(f, Run(f, s, ins), i).last == RawOf(Run(f, s, ins), i)[0]
    decreases |ins|
  {
    if ins == [] {
      RampStep(f, s, i);
    } else {
      RampStep(f, s, ins[0]);
      RampEnds(f, Pulled(f, s, ins[0]), ins[1..], i);
    }
  }

  // -- The exact sample -----------------------------------------------

  /** Not in an underrun and not ramping out of one. */
  ghost predicate Settled(s: Source) {
    !s.inUnderrun && s.rampPos == 0 && s.underrunSamples == 0
  }

  /** A reachable source is settled, or has had an underrun since it was. */
  ghost predicate Phased(s: Source) {
    Settled(s) || (s.inUnderrun && s.underrunSamples > 0)
  }

  lemma {:induction false} RunKeepsPhased(f: Fades, s: Source, ins: seq<Input>)
    requires WellFormed(s) && Phased(s)
    ensures Phased(Run(f, s, ins))
    decreases |ins|
  {
    if ins != [] {
      RunKeepsPhased(f, Pulled(f, s, ins[0]), ins[1..]);
    }
  }

  /** Every pull finds nothing to play. */
  ghost predicate AllStarve(f: Fades, s: Source, ins: seq<Input>)
    requires WellFormed(s)
    decreases |ins|
  {
    ins != [] ==> ins[0].running && RawOf(s, ins[0]) == [] && AllStarve(f, Pulled(f, s, ins[0]), ins[1..])
  }

  /** In the n-th sample of a fade-out from `anchor`. */
  ghost predicate Fading(f: Fades, s: Source, anchor: real, n: nat) {
    && s.inUnderrun && s.rampPos == 0 && s.fadeAnchor == anchor && s.underrunSamples == n
    && s.last == if n >= 960 then 0.0 else anchor * f.fadeOut(n)
  }

  lemma {:induction false} FadesOn(f: Fades, s: Source, ins: seq<Input>, anchor: real, n: nat)
    requires WellFormed(s) && AllStarve(f, s, ins) && Fading(f, s, anchor, n)
    ensures Fading(f, Run(f, s, ins), anchor, n + |ins|)
    decreases |ins|
  {
    if ins != [] {
      FadesOn(f, Pulled(f, s, ins[0]), ins[1..], anchor, n + 1);
    }
  }

  /** An underrun of any length fades out from the level held when it began: its
  n-th sample is that level times the n-th weight, and zero from sample 960 on. */
  lemma FadesOutExactly(f: Fades, s: Source, ins: seq<Input>)
    requires WellFormed(s) && Settled(s) && ins != [] && AllStarve(f, s, ins)
    ensures Fading(f, Run(f, s, ins), s.last, |ins|)
  {
    FadesOn(f, Pulled(f, s, ins[0]), ins[1..], s.last, 1);
  }

  /** Sample j + 1 of a ramp of n. */
  function RampedSample(f: Fades, n: nat, level: real, raw: real, j: nat): real {
    if j + 1 >= n then raw else level * (1.0 - f.rampIn(j + 1, n)) + raw * f.rampIn(j + 1, n)
  }

  /** The level after raw samples that ramp in over n, j of them played before. */
  function Ramped(f: Fades, n: nat, level: real, raws: Samples, j: nat): real
    decreases |raws|
  {
    if raws == [] then level else Ramped(f, n, RampedSample(f, n, level, raws[0], j), raws[1..], j + 1)
  }

  lemma RampedCons(f: Fades, n: nat, level: real, raw: real, rest: Samples, j: nat)
    ensures Ramped(f, n, level, [raw] + rest, j) == Ramped(f, n, RampedSample(f, n, level, raw, j), rest, j + 1)
  {
    assert ([raw] + rest)[1..] == rest;
  }

  lemma {:induction false} RampedLast(f: Fades, n: nat, level: real, raws: Samples, j: nat)
    requires raws != [] && j + |raws| >= n
    ensures Ramped(f, n, level, raws, j) == raws[|raws| - 1]
    decreases |raws|
  {
    if |raws| > 1 {
      RampedLast(f, n, RampedSample(f, n, level, raws[0], j), raws[1..], j + 1);
    } else {
      assert raws[1..] == [];
    }
  }

  /** j samples into a ramp of n, or past its end. */
  ghost predicate Ramping(s: Source, n: nat, j: nat) {
    if j < n then s.inUnderrun && s.rampPos == j && Clamp(s.underrunSamples, 48, 480) == n else Settled(s)
  }

  lemma RampOn(f: Fades, s: Source, i: Input, n: nat, j: nat)
    requires WellFormed(s) && RawOf(s, i) != [] && Ramping(s, n, j)
    ensures Ramping(Pulled(f, s, i), n, j + 1) && |RawOf(s, i)| == 1
    ensures Pulled(f, s, i).last == RampedSample(f, n, s.last, RawOf(s, i)[0], j)
  {
    assert Ramping(Prepared(s, i), n, j);
  }

  /** The samples after an underrun: each is the previous one blended with the raw
  mix, by the weights of a ramp as long as the underrun was but at least 48 and at
  most 480 samples; from there on it is the raw mix. */
  lemma {:induction false} RampsInExactly(f: Fades, s: Source, ins: seq<Input>, n: nat, j: nat)
    requires WellFormed(s) && AllPlay(f, s, ins) && Ramping(s, n, j)
    ensures Run(f, s, ins).last == Ramped(f, n, s.last, AllRaw(f, s, ins), j)
    ensures Ramping(Run(f, s, ins), n, j + |ins|) && |AllRaw(f, s, ins)| == |ins|
    decreases |ins|
  {
    if ins != [] {
      RampOn(f, s, ins[0], n, j);
      var s1 := Pulled(f, s, ins[0]);
      RampsInExactly(f, s1, ins[1..], n, j + 1);
      var raw := RawOf(s, ins[0])[0];
      assert RawOf(s, ins[0]) == [raw];
      RampedCons(f, n, s.last, raw, AllRaw(f, s1, ins[1..]), j);
    }
  }

  /** A settled source plays the raw mix and nothing else. */
  lemma SettledPlaysRaw(f: Fades, s: Source, ins: seq<Input>)
    requires WellFormed(s) && Settled(s) && AllPlay(f, s, ins) && ins != []
    ensures |AllRaw(f, s, ins)| == |ins|
    ensures Run(f, s, ins).last == AllRaw(f, s, ins)[|ins| - 1] && Settled(Run(f, s, ins))
  {
    RampsInExactly(f, s, ins, 0, 0);
    RampedLast(f, 0, s.last, AllRaw(f, s, ins), 0);
  }

  /** The first sample of an underrun is the level held before it, one step into
  the fade-out, exactly when the source is settled; an underrun that begins inside
  a ramp goes on with the fade-out that the ramp had interrupted. */
  lemma UnderrunAnchors(f: Fades, s: Source, i: Input)
    requires WellFormed(s) && Phased(s) && i.running && RawOf(s, i) == []
    ensures if Settled(s) then Fading(f, Pulled(f, s, i), s.last, 1)
            else Fading(f, Pulled(f, s, i), s.fadeAnchor, s.underrunSamples + 1)
    ensures Fading(f, Pulled(f, s, i), s.last, 1) <==> Settled(s)
  {
  }

  /** Starved, one raw sample, starved again: the level jumps back to the fade-out
  of the first underrun, whatever the raw sample was. */
  lemma InterruptedRampJumps(f: Fades, s: Source, a: Input, b: Input, c: Input)
    requires WellFormed(s) && Settled(s) && a.running && c.running
    requires RawOf(s, a) == [] && RawOf(Pulled(f, s, a), b) != []
    requires RawOf(Pulled(f, Pulled(f, s, a), b), c) == []
    ensures var t := Pulled(f, Pulled(f, s, a), b);
            && t.last == RampedSample(f, 48, s.last * f.fadeOut(1), RawOf(Pulled(f, s, a), b)[0], 0)
            && Pulled(f, t, c).last == s.last * f.fadeOut(2)
  {
    var s1 := Pulled(f, s, a);
    UnderrunAnchors(f, s, a);
    RampOn(f, s1, b, 48, 0);
    UnderrunAnchors(f, Pulled(f, s1, b), c);
  }

  // -- Giving up ------------------------------------------------------

  /** Nothing is queued and nothing stands in the way. */
  ghost predicate Silent(i: Input) {
    i.running && i.lockOk && MaxLen(i.buffers, i.buffers.Keys) == 0
  }

  ghost predicate AllSilent(ins: seq<Input>) {
    forall i <- ins :: Silent(i)
  }

  /** n pulls into a silence. */
  ghost predicate SilentFor(s: Source, n: nat) {
    && s.pos >= s.valid && s.cooldown <= UNDERRUN_BACKOFF
    && (s.primed ==> s.consecutiveEmpty < REPRIME_AFTER && (UNDERRUN_BACKOFF + 1) * s.consecutiveEmpty == n + s.cooldown)
    && (!s.primed ==> n >= 72_060)
  }

  lemma SilentStep(f: Fades, s: Source, i: Input, n: nat)
    requires WellFormed(s) && SilentFor(s, n) && Silent(i)
    ensures SilentFor(Pulled(f, s, i), n + 1)
  {
  }

  lemma {:induction false} SilentRun(f: Fades, s: Source, ins: seq<Input>, n: nat)
    requires WellFormed(s) && SilentFor(s, n) && AllSilent(ins)
    ensures SilentFor(Run(f, s, ins), n + |ins|)
    decreases |ins|
  {
    if ins != [] {
      SilentStep(f, s, ins[0], n);
      SilentRun(f, Pulled(f, s, ins[0]), ins[1..], n + 1);
    }
  }

  /** When the queues run dry under a playing source, it waits for a queue to fill
  up again from pull 72,060 on, and not before. */
  lemma GivesUpExactly(f: Fades, s: Source, ins: seq<Input>)
    requires WellFormed(s) && s.primed && s.consecutiveEmpty == 0 && s.cooldown == 0 && s.pos >= s.valid
    requires AllSilent(ins)
    ensures Run(f, s, ins).primed <==> |ins| < 72_060
  {
    SilentRun(f, s, ins, 0);
  }

  // -- The object -----------------------------------------------------

  class MumbleMixerSource {
    const fades: Fades
    const buffers: SpeakerBuffers
    var mixedChunk: Samples
    var chunkPos: nat
    var chunkValid: nat
    var primed: bool
    var consecutiveEmpty: nat
    var lastSample: real
    var inUnderrun: bool
    var rampPos: nat
    var underrunSamples: nat
    var fadeAnchor: real
    var underrunCooldown: nat

    ghost function State(): Source
      reads this
    {
      Source(mixedChunk, chunkPos, chunkValid, primed, consecutiveEmpty, lastSample, inUnderrun, rampPos,
             underrunSamples, fadeAnchor, underrunCooldown)
    }

    constructor (fades: Fades, buffers: SpeakerBuffers)
      ensures this.fades == fades && this.buffers == buffers
      ensures State() == NewSource.(chunk := Zeros(MIX_CHUNK_SIZE))
    {
      this.fades, this.buffers := fades, buffers;
      mixedChunk, chunkPos, chunkValid := Zeros(MIX_CHUNK_SIZE), 0, 0;
      primed, consecutiveEmpty, lastSample, inUnderrun := false, 0, 0.0, false;
      rampPos, underrunSamples, fadeAnchor, underrunCooldown := 0, 0, 0.0, 0;
    }

    method BackOff()
      modifies this
      ensures State() == BackedOff(old(State()))
    {
      chunkPos, chunkValid := 0, 0;
      underrunCooldown := UNDERRUN_BACKOFF;
    }

    /** The longest queue, found by looking at all of them in some order. */
    method LongestQueue() returns (m: nat)
      ensures m == MaxLen(buffers.queues, buffers.queues.Keys)
    {
      m := 0;
      var todo := buffers.queues.Keys;
      ghost var all, done := buffers.queues.Keys, {};
      while todo != {}
        invariant done <= all && todo == all - done && todo <= all
        invariant m == MaxLen(buffers.queues, done)
        decreases todo
      {
        var k :| k in todo;
        OneFewer(all, done, k);
        MaxLenPick(buffers.queues, done + {k}, k);
        m := Larger(m, |buffers.queues[k]|);
        todo, done := todo - {k}, done + {k};
      }
      assert done == all;
    }

    method RefillChunk(lockOk: bool, vols: Volumes, ghost i: Input)
      requires i.lockOk == lockOk && i.vols == vols && i.buffers == buffers.queues
      modifies this, buffers
      ensures State() == Refilled(old(State()), i)
      ensures buffers.queues ==
              if Drains(old(State()), i) then DrainAll(i.buffers, MIX_CHUNK_SIZE) else i.buffers
    {
      if !lockOk {
        BackOff();
        return;
      }
      if !primed {
        var available := LongestQueue();
        if available < PRE_BUFFER_SAMPLES {
          BackOff();
          return;
        }
        primed := true;
      }
      FillChunk(vols, i);
    }

    method DrainIntoChunk(vols: Volumes) returns (drained: bool, validCount: nat)
      modifies this`mixedChunk, buffers
      ensures mixedChunk == Mixed(old(buffers.queues), vols, MIX_CHUNK_SIZE)
      ensures buffers.queues == DrainAll(old(buffers.queues), MIX_CHUNK_SIZE)
      ensures validCount == Min(MaxLen(old(buffers.queues), old(buffers.queues).Keys), MIX_CHUNK_SIZE)
      ensures drained <==> validCount > 0
    {
      var mix, any, maxDrained, _ := BatchDrain(buffers, vols, MIX_CHUNK_SIZE);
      mixedChunk, drained, validCount := mix, any, maxDrained;
    }

    /** Drain the queues into a new chunk, or note that they are empty. */
    method FillChunk(vols: Volumes, ghost i: Input)
      requires i.vols == vols && i.buffers == buffers.queues && i.lockOk && primed
      modifies this, buffers
      ensures State() == Refilled(old(State()), i)
      ensures buffers.queues == DrainAll(i.buffers, MIX_CHUNK_SIZE)
    {
      var drained, validCount := DrainIntoChunk(vols);
      if !drained || validCount == 0 {
        consecutiveEmpty := consecutiveEmpty + 1;
        if consecutiveEmpty >= REPRIME_AFTER {
          primed := false;
        }
        BackOff();
      } else {
        consecutiveEmpty := 0;
        chunkPos, chunkValid := 0, validCount;
      }
    }

    /** One raw sample, ramped in when it ends an underrun. */
    method PlayChunkSample()
      requires chunkPos < |mixedChunk|
      modifies this
      ensures State() == PlayRaw(fades, old(State()))
    {
      var raw := mixedChunk[chunkPos];
      chunkPos := chunkPos + 1;
      if inUnderrun {
        var rampLen := Clamp(underrunSamples, MIN_RAMP, MAX_RAMP);
        rampPos := rampPos + 1;
        if rampPos >= rampLen {
          inUnderrun, rampPos, underrunSamples := false, 0, 0;
          lastSample := raw;
        } else {
          lastSample := Blend(lastSample, raw, fades.rampIn(rampPos, rampLen));
        }
      } else {
        lastSample := raw;
      }
    }

    /** One sample of the fade-out from the level where the underrun began. */
    method PlayFade()
      modifies this
      ensures State() == PlayUnderrun(fades, old(State()))
    {
      if !inUnderrun {
        fadeAnchor := lastSample;
      }
      inUnderrun, rampPos, underrunSamples := true, 0, underrunSamples + 1;
      if underrunSamples >= FADE_OUT_LEN {
        lastSample := 0.0;
      } else {
        lastSample := Scaled(fadeAnchor, fades.fadeOut(underrunSamples));
      }
    }

    method Next(running: bool, lockOk: bool, vols: Volumes, volume: real) returns (out: Option<real>)
      requires WellFormed(State())
      modifies this, buffers
      ensures var i := Input(running, lockOk, old(buffers.queues), vols, volume);
              && State() == Pulled(fades, old(State()), i)
              && buffers.queues ==
                 (if running && Refills(old(State())) && Drains(old(State()), i)
                  then DrainAll(old(buffers.queues), MIX_CHUNK_SIZE) else old(buffers.queues))
      ensures WellFormed(State())
      ensures out == if running then Some(fades.clip(Scaled(lastSample, volume))) else None
    {
      if !running {
        return None;
      }
      ghost var i := Input(running, lockOk, buffers.queues, vols, volume);
      if underrunCooldown > 0 {
        underrunCooldown := underrunCooldown - 1;
      } else if chunkPos >= chunkValid {
        RefillChunk(lockOk, vols, i);
      }
      assert State() == Prepared(old(State()), i);
      if chunkPos < chunkValid {
        PlayChunkSample();
      } else {
        PlayFade();
      }
      out := Some(fades.clip(Scaled(lastSample, volume)));
    }
  }
}
