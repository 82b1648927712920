/** What a listener hears of one stream, told by its packets and the codec alone.

The mixer keeps a handful of fields per speaker; the theorems say that after every
run these are a function of the packets of the current stream, and give each
sample that a packet adds to the queue in terms of the decoded frame. */
module SpeakerStream {
  import opened SpeakerQueue
  import opened AudioMixer

  // -- What the packets of a stream determine -------------------------

  /** The last packet that could be decoded; -1 when there is none. */
  function LastDecoded(env: Env, ps: seq<Packet>): (i: int)
    ensures -1 <= i < |ps|
    ensures i >= 0 ==> env.decode(ps[..i], ps[i]).Some?
    ensures forall j :: i < j < |ps| ==> env.decode(ps[..j], ps[j]).None?
  {
    if ps == [] then -1
    else
      var n := |ps| - 1;
      assert forall j :: 0 <= j < n ==> ps[..n][..j] == ps[..j];
      if env.decode(ps[..n], ps[n]).Some? then n else LastDecoded(env, ps[..n])
  }

  /** The sequence number after the last frame heard. */
  function Expected(env: Env, ps: seq<Packet>): Option<nat> {
    var i := LastDecoded(env, ps);
    if i < 0 then None
    else Some(ps[i].sequence + FrameUnits(|env.decode(ps[..i], ps[i]).value|, env.channels))
  }

  /** Silence for a gap was queued and no frame has followed it yet. */
  predicate AfterSilence(env: Env, ps: seq<Packet>) {
    exists j :: LastDecoded(env, ps) < j < |ps| && CertainGap(Expected(env, ps), ps[j].sequence) > 0
  }

  lemma NextPacket(env: Env, ps: seq<Packet>, p: Packet)
    ensures LastDecoded(env, ps + [p]) == if env.decode(ps, p).Some? then |ps| else LastDecoded(env, ps)
    ensures Expected(env, ps + [p]) ==
            if env.decode(ps, p).Some? then Some(p.sequence + FrameUnits(|env.decode(ps, p).value|, env.channels))
            else Expected(env, ps)
    ensures AfterSilence(env, ps + [p]) <==>
            env.decode(ps, p).None? && (AfterSilence(env, ps) || CertainGap(Expected(env, ps), p.sequence) > 0)
  {
    var all := ps + [p];
    assert all[..|ps|] == ps;
    var i := LastDecoded(env, ps);
    if i >= 0 {
      assert all[..i] == ps[..i];
    }
    if env.decode(ps, p).None? {
      SilenceStays(env, ps, p);
    }
  }

  lemma SilenceStays(env: Env, ps: seq<Packet>, p: Packet)
    requires LastDecoded(env, ps + [p]) == LastDecoded(env, ps) && Expected(env, ps + [p]) == Expected(env, ps)
    ensures AfterSilence(env, ps + [p])
       <==> AfterSilence(env, ps) || CertainGap(Expected(env, ps), p.sequence) > 0
  {
    var all := ps + [p];
    if AfterSilence(env, ps) {
      var j :| LastDecoded(env, ps) < j < |ps| && CertainGap(Expected(env, ps), ps[j].sequence) > 0;
      assert all[j] == ps[j];
    }
    if CertainGap(Expected(env, ps), p.sequence) > 0 {
      assert all[|ps|] == p;
    }
  }

  /** A frame's length in sequence units of 10 ms, rounded down, at least one. */
  lemma FrameUnitsExact(samples: nat, channels: nat)
    ensures var c, u := if channels == 0 then 1 else channels, FrameUnits(samples, channels);
            if samples < 480 * c then u == 1 else 480 * c * u <= samples < 480 * c * (u + 1)
  {
    var c := if channels == 0 then 1 else channels;
    var frames := samples / c;
    var u := frames / 480;
    assert samples == c * frames + samples % c;
    assert frames == 480 * u + frames % 480;
    ScaleUp(c, 480 * u, frames);
    ScaleUp(c, frames + 1, 480 * (u + 1));
    assert c * (480 * u) == 480 * c * u;
    assert c * (480 * (u + 1)) == 480 * c * (u + 1);
    if samples >= 480 * c && u == 0 {
      ScaleUp(c, frames + 1, 480);
      assert false;
    }
    if samples < 480 * c && u > 0 {
      ScaleUp(c, 480, frames);
      assert false;
    }
  }

  lemma ScaleUp(c: nat, a: int, b: int)
    requires a <= b
    ensures c * a <= c * b
  {
  }

  // -- The fields of a speaker ----------------------------------------

  ghost predicate Recounts(env: Env, s: Speaker) {
    && s.decoded != []
    && s.lastSeq == Some(s.decoded[|s.decoded| - 1].sequence)
    && s.expectedNext == Expected(env, s.decoded)
    && (s.needsFadeIn <==> LastDecoded(env, s.decoded) < 0)
    && s.prevLast == if AfterSilence(env, s.decoded) then Some(0.0) else None
  }

  /** The packets that the decoder has seen when a packet reaches it: none for a
  new speaker, and none when the sequence number falls by more than 10. */
  function Before(s: Option<Speaker>, sequence: nat): seq<Packet> {
    if s.None? then []
    else Continued(s.value.decoded, sequence)
  }

  function Continued(ps: seq<Packet>, sequence: nat): seq<Packet> {
    if ps != [] && ps[|ps| - 1].sequence > sequence + 10 then [] else ps
  }

  lemma NoneDecoded(env: Env)
    ensures LastDecoded(env, []) == -1 && Expected(env, []).None? && !AfterSilence(env, [])
  {
  }

  /** The speaker that a packet reaches. */
  ghost predicate Reached(env: Env, s: Speaker, ps: seq<Packet>, now: int) {
    && s.decoded == ps
    && s.expectedNext == Expected(env, ps)
    && (s.needsFadeIn <==> LastDecoded(env, ps) < 0)
    && s.prevLast == (if AfterSilence(env, ps) then Some(0.0) else None)
    && s.lastActivity == now
  }

  lemma OpenedIsReached(env: Env, o: Option<Speaker>, sequence: nat, now: int)
    requires o.Some? ==> Recounts(env, o.value)
    ensures Reached(env, Opened(Restarted(o, sequence), now), Before(o, sequence), now)
  {
    NoneDecoded(env);
  }

  /** Feeding keeps the fields a function of the packets. */
  lemma FeedRecounts(env: Env, v: Voice, packet: Packet, now: int)
    requires v.speaker.Some? ==> Recounts(env, v.speaker.value)
    ensures var s := FedSpeaker(env, v, packet, now);
            && s.decoded == Before(v.speaker, packet.sequence) + [packet]
            && s.lastActivity == now && Recounts(env, s)
  {
    OpenedIsReached(env, v.speaker, packet.sequence, now);
    NextPacket(env, Before(v.speaker, packet.sequence), packet);
  }

  // -- Whole runs -----------------------------------------------------

  /** The packets of a session's current stream, and when the last one came. */
  datatype Stream = Stream(packets: seq<Packet>, at: int)

  function StreamStep(t: Stream, op: Op, k: nat): Stream {
    match op
    case Feed(j, packet, now) =>
      if j == k then Stream(Continued(t.packets, packet.sequence) + [packet], now) else t
    case ResetSpeaker(j) => if j == k then Stream([], t.at) else t
    case RemoveInactive(now) => if now - t.at > 30_000 then Stream([], t.at) else t
    case Reset => Stream([], t.at)
    case Play(_) => t
  }

  function StreamOf(t: Stream, ops: seq<Op>, k: nat): Stream
    decreases |ops|
  {
    if ops == [] then t else StreamOf(StreamStep(t, ops[0], k), ops[1..], k)
  }

  /** What the mixer keeps of a session is its stream. */
  ghost predicate Follows(env: Env, o: Option<Speaker>, t: Stream) {
    if t.packets == [] then o.None?
    else o.Some? && o.value.decoded == t.packets && o.value.lastActivity == t.at && Recounts(env, o.value)
  }

  lemma StreamStepFollows(env: Env, m: Mixer, op: Op, k: nat, t: Stream)
    requires Follows(env, VoiceOf(m, k).speaker, t)
    ensures Follows(env, VoiceOf(Apply(env, m, op), k).speaker, StreamStep(t, op, k))
  {
    StepIsLocal(env, m, op, k);
    if op.Feed? && op.session == k {
      FeedRecounts(env, VoiceOf(m, k), op.packet, op.now);
    }
  }

  /** After every run, for every session: there is a decoder exactly when a stream
  is under way, it has seen exactly the packets of that stream, and the fields
  that steer gap and fade are those that these packets determine. */
  lemma {:induction false} MixerFollowsStreams(env: Env, m: Mixer, ops: seq<Op>, k: nat, t: Stream)
    requires Follows(env, VoiceOf(m, k).speaker, t)
    ensures Follows(env, VoiceOf(Run(env, m, ops), k).speaker, StreamOf(t, ops, k))
    decreases |ops|
  {
    if ops != [] {
      StreamStepFollows(env, m, ops[0], k, t);
      MixerFollowsStreams(env, Apply(env, m, ops[0]), ops[1..], k, StreamStep(t, ops[0], k));
    }
  }

  // -- The samples ----------------------------------------------------

  lemma {:induction false} FadeInAt(w: (nat, nat) -> real, frame: Samples, n: nat, i: nat)
    requires n <= |frame| && i < |frame|
    ensures FadeIn(w, frame, n)[i] == if i < n then frame[i] * w(i, Min(240, |frame|)) else frame[i]
  {
    if n > 0 {
      FadeInAt(w, frame, n - 1, i);
    }
  }

  lemma {:induction false} ShiftAt(decay: (nat, nat) -> real, frame: Samples, correction: real, n: nat, i: nat)
    requires n <= |frame| && i < |frame|
    ensures Shift(decay, frame, correction, n)[i] ==
            if i < n then frame[i] + correction * decay(i, Min(24, |frame|)) else frame[i]
  {
    if n > 0 {
      ShiftAt(decay, frame, correction, n - 1, i);
    }
  }

  /** The first frame of a decoder rises from silence over 240 samples. */
  ghost predicate Rises(env: Env, frame: Samples, g: Samples) {
    |g| == |frame| && forall i: nat | i < |frame| ::
      g[i] == if i < 240 then frame[i] * env.fadeIn(i, Min(240, |frame|)) else frame[i]
  }

  /** A frame after gap silence is pulled to zero at its start, over 24 samples,
  unless it starts there. */
  ghost predicate Joins(env: Env, frame: Samples, g: Samples) {
    |g| == |frame| && forall i: nat | i < |frame| ::
      g[i] == if -0.002 <= frame[0] <= 0.002 || i >= 24 then frame[i]
              else frame[i] - frame[0] * env.decay(i, Min(24, |frame|))
  }

  /** What is heard of a frame that was decoded after the packets ps. */
  ghost predicate Heard(env: Env, ps: seq<Packet>, sequence: nat, frame: Samples, g: Samples) {
    if LastDecoded(env, ps) < 0 then Rises(env, frame, g)
    else if AfterSilence(env, ps) || CertainGap(Expected(env, ps), sequence) > 0 then Joins(env, frame, g)
    else g == frame
  }

  lemma FadeInRises(env: Env, frame: Samples, n: nat)
    requires n == Min(240, |frame|)
    ensures Rises(env, frame, FadeIn(env.fadeIn, frame, n))
  {
    forall i: nat | i < |frame|
      ensures FadeIn(env.fadeIn, frame, n)[i] == if i < 240 then frame[i] * env.fadeIn(i, n) else frame[i]
    {
      FadeInAt(env.fadeIn, frame, n, i);
    }
  }

  lemma CrossfadedJoins(env: Env, frame: Samples)
    ensures Joins(env, frame, Crossfaded(env.decay, frame, 0.0))
  {
    if frame != [] && Abs(0.0 - frame[0]) > 0.002 {
      var n := Min(24, |frame|);
      forall i: nat | i < |frame|
        ensures Shift(env.decay, frame, 0.0 - frame[0], n)[i]
             == if i >= 24 then frame[i] else frame[i] - frame[0] * env.decay(i, n)
      {
        ShiftAt(env.decay, frame, 0.0 - frame[0], n, i);
        NegatedProduct(frame[0], env.decay(i, n));
      }
    }
  }

  lemma NegatedProduct(x: real, y: real)
    ensures (0.0 - x) * y == -(x * y)
  {
  }

  lemma FadedIsHeard(env: Env, s: Speaker, ps: seq<Packet>, packet: Packet, now: int, frame: Samples)
    requires Reached(env, s, ps, now)
    ensures Heard(env, ps, packet.sequence, frame, Faded(env, Noted(s, packet), frame))
  {
    FadeInRises(env, frame, Min(240, |frame|));
    CrossfadedJoins(env, frame);
  }

  /** The silence due before a packet, as far as the queue has room for it. */
  function Padding(env: Env, ps: seq<Packet>, sequence: nat, queued: nat): nat {
    Min(CertainGap(Expected(env, ps), sequence) * 480 * env.channels, if queued < 19_200 then 19_200 - queued else 0)
  }

  function Newest(s: Samples, n: nat): Samples {
    s[|s| - Min(|s|, n)..]
  }

  /** What a packet makes of its session's queue: gap silence at the end, then, if
  the packet can be decoded, the samples heard of its frame, and of all this the
  newest 19,200. */
  ghost predicate Gains(env: Env, ps: seq<Packet>, packet: Packet, q: Samples, q': Samples) {
    var padded := q + Zeros(Padding(env, ps, packet.sequence, |q|));
    match env.decode(ps, packet)
    case None => q' == padded
    case Some(frame) => exists g :: Heard(env, ps, packet.sequence, frame, g) && q' == Newest(padded + g, 19_200)
  }

  lemma GapRuns(env: Env, s: Speaker, ps: seq<Packet>, packet: Packet, now: int, q: Samples)
    requires Reached(env, s, ps, now)
    ensures RunQueue(q, GapOps(env, s, packet)) == q + Zeros(Padding(env, ps, packet.sequence, |q|))
  {
    var requested := CertainGap(s.expectedNext, packet.sequence) * 480 * env.channels;
    if requested > 0 {
      RunShort(q, Silence(requested), Discard);
    } else {
      assert q + Zeros(0) == q;
    }
  }

  lemma PushKeepsNewest(q: Samples, frame: Samples)
    ensures Pushed(q, frame) == Newest(q + frame, 19_200)
  {
  }

  lemma FeedGains(env: Env, v: Voice, packet: Packet, now: int)
    requires v.speaker.Some? ==> Recounts(env, v.speaker.value)
    ensures Gains(env, Before(v.speaker, packet.sequence), packet, v.Queued(), FedVoice(env, v, packet, now).Queued())
  {
    var ps := Before(v.speaker, packet.sequence);
    var s := Opened(Restarted(v.speaker, packet.sequence), now);
    OpenedIsReached(env, v.speaker, packet.sequence, now);
    var gap := GapOps(env, s, packet);
    GapRuns(env, s, ps, packet, now, v.Queued());
    var padded := RunQueue(v.Queued(), gap);
    StepQueue(env, v, Op.Feed(0, packet, now));
    var ops := FeedOps(env, v, packet, now);
    match env.decode(ps, packet)
    case None =>
      assert ops == gap;
    case Some(frame) =>
      var g := Faded(env, Noted(s, packet), frame);
      FadedIsHeard(env, s, ps, packet, now, frame);
      RunQueueConcat(v.Queued(), gap, [Push(g)]);
      RunShort(padded, Push(g), Discard);
      PushKeepsNewest(padded, g);
  }

  /** After every run, a packet has exactly this effect: its own session's queue
  gains the silence and the samples heard, given the packets of the stream so far,
  and the other sessions keep theirs. */
  lemma FeedExactly(env: Env, ops: seq<Op>, k: nat, packet: Packet, now: int, at: int)
    ensures var m := Run(env, EmptyMixer, ops);
            var m' := Apply(env, m, Op.Feed(k, packet, now));
            var ps := Continued(StreamOf(Stream([], at), ops, k).packets, packet.sequence);
            && Gains(env, ps, packet, VoiceOf(m, k).Queued(), VoiceOf(m', k).Queued())
            && (Decodes(env, VoiceOf(m, k), packet, now) <==> env.decode(ps, packet).Some?)
            && forall j: nat :: j != k ==> VoiceOf(m', j) == VoiceOf(m, j)
  {
    var m := Run(env, EmptyMixer, ops);
    MixerFollowsStreams(env, EmptyMixer, ops, k, Stream([], at));
    FeedGains(env, VoiceOf(m, k), packet, now);
    OpenedIsReached(env, VoiceOf(m, k).speaker, packet.sequence, now);
    forall j: nat ensures j != k ==> VoiceOf(Apply(env, m, Op.Feed(k, packet, now)), j) == VoiceOf(m, j) {
      StepIsLocal(env, m, Op.Feed(k, packet, now), j);
    }
    StepIsLocal(env, m, Op.Feed(k, packet, now), k);
  }

  // -- A stream without loss ------------------------------------------

  /** The packet continues a stream whose last packet was decoded: it decodes too,
  is at most 8 units late and has a number at most 10 below the last. */
  predicate InSequence(env: Env, done: seq<Packet>, packet: Packet) {
    && done != [] && LastDecoded(env, done) == |done| - 1
    && done[|done| - 1].sequence <= packet.sequence + 10
    && packet.sequence <= Expected(env, done).value + 8
    && env.decode(done, packet).Some?
  }

  predicate Continues(env: Env, done: seq<Packet>, ops: seq<Op>)
    decreases |ops|
  {
    ops != [] ==>
      && ops[0].Feed? && InSequence(env, done, ops[0].packet)
      && Continues(env, done + [ops[0].packet], ops[1..])
  }

  /** The decoded frames, one after the other. */
  function Frames(env: Env, done: seq<Packet>, ops: seq<Op>): Samples
    requires Continues(env, done, ops)
    decreases |ops|
  {
    if ops == [] then []
    else env.decode(done, ops[0].packet).value + Frames(env, done + [ops[0].packet], ops[1..])
  }

  lemma NewestOfFew(s: Samples, n: nat)
    requires |s| <= n
    ensures Newest(s, n) == s
  {
  }

  lemma GainsFrame(env: Env, done: seq<Packet>, packet: Packet, q: Samples, q': Samples)
    requires InSequence(env, done, packet) && Gains(env, done, packet, q, q')
    ensures q' == Newest(q + env.decode(done, packet).value, 19_200)
  {
    assert !AfterSilence(env, done);
    assert Padding(env, done, packet.sequence, |q|) == 0;
    assert q + Zeros(0) == q;
  }

  lemma ContinuesGains(env: Env, v: Voice, op: Op)
    requires v.speaker.Some? && Recounts(env, v.speaker.value)
    requires op.Feed? && InSequence(env, v.speaker.value.decoded, op.packet)
    ensures Step(env, v, op).Queued()
         == Newest(v.Queued() + env.decode(v.speaker.value.decoded, op.packet).value, 19_200)
    ensures var s := Step(env, v, op).speaker;
            s.Some? && Recounts(env, s.value) && s.value.decoded == v.speaker.value.decoded + [op.packet]
  {
    FeedGains(env, v, op.packet, op.now);
    FeedRecounts(env, v, op.packet, op.now);
    GainsFrame(env, v.speaker.value.decoded, op.packet, v.Queued(), FedVoice(env, v, op.packet, op.now).Queued());
  }

  /** An undisturbed stream goes into the queue sample for sample: while there is
  room, the queue gains the decoded frames one after the other and nothing else. */
  lemma {:induction false} ContinuousStreamIsUntouched(env: Env, v: Voice, ops: seq<Op>)
    requires v.speaker.Some? && Recounts(env, v.speaker.value)
    requires Continues(env, v.speaker.value.decoded, ops)
    requires |v.Queued()| + |Frames(env, v.speaker.value.decoded, ops)| <= 19_200
    ensures RunVoice(env, v, ops).Queued() == v.Queued() + Frames(env, v.speaker.value.decoded, ops)
    decreases |ops|
  {
    if ops != [] {
      var done, op := v.speaker.value.decoded, ops[0];
      ContinuesGains(env, v, op);
      var frame := env.decode(done, op.packet).value;
      NewestOfFew(v.Queued() + frame, 19_200);
      ContinuousStreamIsUntouched(env, Step(env, v, op), ops[1..]);
      ConcatAssociates(v.Queued(), frame, Frames(env, done + [op.packet], ops[1..]));
    }
  }
}
