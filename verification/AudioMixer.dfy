/** The per-speaker mixer: one decoder and one sample queue per session.

The Opus decoder is any deterministic codec: what it returns may depend on every
packet it has seen since it was created. Samples are reals; the cosine fades enter
as weight functions. */
module AudioMixer {
  import opened SpeakerQueue

  const SAMPLES_PER_SEQ_UNIT: nat := 480
  const GAP_TOLERANCE: nat := 8
  const MAX_SILENCE_UNITS: nat := MAX_BUFFER_SAMPLES / SAMPLES_PER_SEQ_UNIT
  const RESTART_DISTANCE: nat := 10
  const FADE_LEN: nat := 240
  const CROSSFADE_LEN: nat := 24
  const SPEAKER_TIMEOUT_MS: int := 30_000

  datatype Option<T> = None | Some(value: T)

  datatype Packet = Packet(sequence: nat, data: seq<bv8>)

  /** The frame for a packet, given the packets before it; None is a decode error. */
  type Decoder = (seq<Packet>, Packet) -> Option<Samples>

  /** What the mixer is built on: the codec, the weights of the two fades at
  sample i of n, and the channel count. */
  datatype Env = Env(decode: Decoder, fadeIn: (nat, nat) -> real, decay: (nat, nat) -> real, channels: nat)

  datatype Speaker = Speaker(
    decoded: seq<Packet>,
    lastSeq: Option<nat>,
    expectedNext: Option<nat>,
    prevLast: Option<real>,
    needsFadeIn: bool,
    lastActivity: int)

  type Buffers = map<nat, Samples>

  datatype Mixer = Mixer(speakers: map<nat, Speaker>, buffers: Buffers)

  // -- Pure parts -----------------------------------------------------

  function CertainGap(expected: Option<nat>, incoming: nat): (units: nat)
    ensures expected.Some? && incoming > expected.value + 8 ==> units == Min(incoming - expected.value, 40)
    ensures units > 0 <==> expected.Some? && incoming > expected.value + GAP_TOLERANCE
  {
    match expected
    case None => 0
    case Some(e) => if incoming <= e + GAP_TOLERANCE then 0 else Min(incoming - e, MAX_SILENCE_UNITS)
  }

  function FrameUnits(samples: nat, channels: nat): (units: nat)
    ensures units >= 1
  {
    var units := samples / (if channels > 0 then channels else 1) / SAMPLES_PER_SEQ_UNIT;
    if units > 0 then units else 1
  }

  function Scale(x: real, w: real): real {
    x * w
  }

  function FadeIn(w: (nat, nat) -> real, frame: Samples, n: nat): (r: Samples)
    requires n <= |frame|
    ensures |r| == |frame|
  {
    if n == 0 then frame
    else FadeIn(w, frame, n - 1)[n - 1 := Scale(frame[n - 1], w(n - 1, Min(FADE_LEN, |frame|)))]
  }

  function Abs(x: real): real {
    if x < 0.0 then -x else x
  }

  function Shift(decay: (nat, nat) -> real, frame: Samples, correction: real, n: nat): (r: Samples)
    requires n <= |frame|
    ensures |r| == |frame|
  {
    if n == 0 then frame
    else Shift(decay, frame, correction, n - 1)
         [n - 1 := frame[n - 1] + correction * decay(n - 1, Min(CROSSFADE_LEN, |frame|))]
  }

  /** Pull the start of a frame towards `prev`, unless it is already close. */
  function Crossfaded(decay: (nat, nat) -> real, frame: Samples, prev: real): (r: Samples)
    ensures |r| == |frame|
  {
    if frame == [] || Abs(prev - frame[0]) <= 0.002 then frame
    else Shift(decay, frame, prev - frame[0], Min(CROSSFADE_LEN, |frame|))
  }

  function Faded(env: Env, s: Speaker, frame: Samples): (r: Samples)
    ensures |r| == |frame|
  {
    if s.needsFadeIn then FadeIn(env.fadeIn, frame, Min(FADE_LEN, |frame|))
    else if s.prevLast.Some? then Crossfaded(env.decay, frame, s.prevLast.value)
    else frame
  }

  // -- One session ----------------------------------------------------

  /** What the mixer holds for one session. */
  datatype Voice = Voice(speaker: Option<Speaker>, queue: Option<Samples>) {
    function Queued(): Samples {
      if queue.Some? then queue.value else []
    }
  }

  /** A sequence number far below the last one means a new stream: the decoder goes. */
  function Restarted(s: Option<Speaker>, sequence: nat): Option<Speaker> {
    if s.Some? && s.value.lastSeq.Some? && s.value.lastSeq.value > sequence + RESTART_DISTANCE then None else s
  }

  function NewSpeaker(now: int): Speaker {
    Speaker([], None, None, None, true, now)
  }

  function Opened(s: Option<Speaker>, now: int): Speaker {
    if s.Some? then s.value.(lastActivity := now) else NewSpeaker(now)
  }

  /** The queue operations that a packet causes, given the speaker it reaches. */
  function GapOps(env: Env, s: Speaker, packet: Packet): seq<QueueOp> {
    var requested := CertainGap(s.expectedNext, packet.sequence) * SAMPLES_PER_SEQ_UNIT * env.channels;
    if requested > 0 then [Silence(requested)] else []
  }

  function Noted(s: Speaker, packet: Packet): Speaker {
    s.(lastSeq := Some(packet.sequence),
       prevLast := if CertainGap(s.expectedNext, packet.sequence) > 0 then Some(0.0) else s.prevLast,
       decoded := s.decoded + [packet])
  }

  function FeedOps(env: Env, v: Voice, packet: Packet, now: int): seq<QueueOp> {
    var s := Opened(Restarted(v.speaker, packet.sequence), now);
    var frame := env.decode(s.decoded, packet);
    GapOps(env, s, packet) + if frame.Some? then [Push(Faded(env, Noted(s, packet), frame.value))] else []
  }

  function FedSpeaker(env: Env, v: Voice, packet: Packet, now: int): Speaker {
    var s := Opened(Restarted(v.speaker, packet.sequence), now);
    var frame := env.decode(s.decoded, packet);
    var t := Noted(s, packet);
    if frame.None? then t
    else t.(expectedNext := Some(packet.sequence + FrameUnits(|frame.value|, env.channels)),
            prevLast := None, needsFadeIn := false)
  }

  /** The queue after some operations; a queue comes into being with the first one. */
  function QueueAfter(q: Option<Samples>, ops: seq<QueueOp>): Option<Samples> {
    if ops == [] then q else Some(RunQueue(if q.Some? then q.value else [], ops))
  }

  function FedVoice(env: Env, v: Voice, packet: Packet, now: int): Voice {
    Voice(Some(FedSpeaker(env, v, packet, now)), QueueAfter(v.queue, FeedOps(env, v, packet, now)))
  }

  predicate Decodes(env: Env, v: Voice, packet: Packet, now: int) {
    env.decode(Opened(Restarted(v.speaker, packet.sequence), now).decoded, packet).Some?
  }

  // -- The whole mixer ------------------------------------------------

  datatype Op =
    | Feed(session: nat, packet: Packet, now: int)
    | ResetSpeaker(session: nat)
    | RemoveInactive(now: int)
    | Reset
    | Play(needed: nat)

  function Look<T>(m: map<nat, T>, k: nat): Option<T> {
    if k in m then Some(m[k]) else None
  }

  function VoiceOf(m: Mixer, k: nat): Voice {
    Voice(Look(m.speakers, k), Look(m.buffers, k))
  }

  function Stale(s: Speaker, now: int): bool {
    now - s.lastActivity > SPEAKER_TIMEOUT_MS
  }

  function DrainAll(b: Buffers, needed: nat): Buffers {
    map k | k in b :: Drained(b[k], needed)
  }

  function Apply(env: Env, m: Mixer, op: Op): Mixer {
    match op
    case Feed(k, packet, now) =>
      var v := FedVoice(env, VoiceOf(m, k), packet, now);
      Mixer(m.speakers[k := v.speaker.value],
            if v.queue.Some? then m.buffers[k := v.queue.value] else m.buffers)
    case ResetSpeaker(k) => m.(speakers := m.speakers - {k})
    case RemoveInactive(now) =>
      var stale := set k | k in m.speakers && Stale(m.speakers[k], now);
      Mixer(m.speakers - stale, m.buffers - stale)
    case Reset => Mixer(map[], map[])
    case Play(needed) => m.(buffers := DrainAll(m.buffers, needed))
  }

  const EmptyMixer: Mixer := Mixer(map[], map[])
  const NoVoice: Voice := Voice(None, None)

  function Run(env: Env, m: Mixer, ops: seq<Op>): Mixer
    decreases |ops|
  {
    if ops == [] then m else Run(env, Apply(env, m, ops[0]), ops[1..])
  }

  // -- Isolation ------------------------------------------------------

  predicate Concerns(op: Op, k: nat) {
    match op
    case Feed(j, _, _) => j == k
    case ResetSpeaker(j) => j == k
    case _ => true
  }

  /** The same operation as one session sees it. */
  function Step(env: Env, v: Voice, op: Op): Voice {
    match op
    case Feed(_, packet, now) => FedVoice(env, v, packet, now)
    case ResetSpeaker(_) => v.(speaker := None)
    case RemoveInactive(now) => if v.speaker.Some? && Stale(v.speaker.value, now) then Voice(None, None) else v
    case Reset => Voice(None, None)
    case Play(needed) => if v.queue.Some? then v.(queue := Some(Drained(v.queue.value, needed))) else v
  }

  function RunVoice(env: Env, v: Voice, ops: seq<Op>): Voice
    decreases |ops|
  {
    if ops == [] then v else RunVoice(env, Step(env, v, ops[0]), ops[1..])
  }

  function Restrict(ops: seq<Op>, k: nat): seq<Op> {
    if ops == [] then []
    else if Concerns(ops[0], k) then [ops[0]] + Restrict(ops[1..], k)
    else Restrict(ops[1..], k)
  }

  lemma StepIsLocal(env: Env, m: Mixer, op: Op, k: nat)
    ensures VoiceOf(Apply(env, m, op), k) == if Concerns(op, k) then Step(env, VoiceOf(m, k), op) else VoiceOf(m, k)
  {
  }

  /** Speakers do not influence each other: after any interleaved run, what the
  mixer holds for a session, decoder state, restart and gap detection and queue,
  is what the operations that concern this session alone would have left. */
  lemma {:induction false} SpeakersAreIsolated(env: Env, m: Mixer, ops: seq<Op>, k: nat)
    ensures VoiceOf(Run(env, m, ops), k) == RunVoice(env, VoiceOf(m, k), Restrict(ops, k))
    decreases |ops|
  {
    if ops != [] {
      StepIsLocal(env, m, ops[0], k);
      SpeakersAreIsolated(env, Apply(env, m, ops[0]), ops[1..], k);
    }
  }

  // -- Conservation ---------------------------------------------------

  /** The queue operations that an operation causes for one session. */
  function OpsOf(env: Env, v: Voice, op: Op): seq<QueueOp> {
    match op
    case Feed(_, packet, now) => FeedOps(env, v, packet, now)
    case ResetSpeaker(_) => []
    case RemoveInactive(now) => if v.speaker.Some? && Stale(v.speaker.value, now) then [Discard] else []
    case Reset => [Discard]
    case Play(needed) => [Drain(needed)]
  }

  function AllOps(env: Env, v: Voice, ops: seq<Op>): seq<QueueOp>
    decreases |ops|
  {
    if ops == [] then [] else OpsOf(env, v, ops[0]) + AllOps(env, Step(env, v, ops[0]), ops[1..])
  }

  lemma StepQueue(env: Env, v: Voice, op: Op)
    ensures Step(env, v, op).Queued() == RunQueue(v.Queued(), OpsOf(env, v, op))
  {
  }

  lemma {:induction false} RunVoiceQueue(env: Env, v: Voice, ops: seq<Op>)
    ensures RunVoice(env, v, ops).Queued() == RunQueue(v.Queued(), AllOps(env, v, ops))
    decreases |ops|
  {
    if ops != [] {
      StepQueue(env, v, ops[0]);
      RunVoiceQueue(env, Step(env, v, ops[0]), ops[1..]);
      RunQueueConcat(v.Queued(), OpsOf(env, v, ops[0]), AllOps(env, Step(env, v, ops[0]), ops[1..]));
    }
  }

  /** From an empty mixer, over every run and for every session: all samples ever
  appended are, in order, the ones that left and the ones still queued, and the
  queue never exceeds 19,200 samples. */
  lemma SpeakerQueuesConserve(env: Env, ops: seq<Op>, k: nat)
    ensures var queueOps := AllOps(env, NoVoice, Restrict(ops, k));
            var queue := VoiceOf(Run(env, EmptyMixer, ops), k).Queued();
            && AllAdded([], queueOps) == AllRemoved([], queueOps) + queue
            && |queue| <= MAX_BUFFER_SAMPLES
  {
    SpeakersAreIsolated(env, EmptyMixer, ops, k);
    VoiceConserves(env, Restrict(ops, k));
  }

  lemma VoiceConserves(env: Env, ops: seq<Op>)
    ensures var queueOps := AllOps(env, NoVoice, ops);
            var queue := RunVoice(env, NoVoice, ops).Queued();
            && AllAdded([], queueOps) == AllRemoved([], queueOps) + queue
            && |queue| <= MAX_BUFFER_SAMPLES
  {
    RunVoiceQueue(env, NoVoice, ops);
    QueueFromEmpty(AllOps(env, NoVoice, ops));
  }

  lemma QueueFromEmpty(queueOps: seq<QueueOp>)
    ensures AllAdded([], queueOps) == AllRemoved([], queueOps) + RunQueue([], queueOps)
    ensures |RunQueue([], queueOps)| <= MAX_BUFFER_SAMPLES
  {
    QueueConserves([], queueOps);
    assert [] + AllAdded([], queueOps) == AllAdded([], queueOps);
  }

  // -- The objects ----------------------------------------------------

  /** The queues that mixer and playback share. */
  class SpeakerBuffers {
    var queues: Buffers

    constructor ()
      ensures queues == map[]
    {
      queues := map[];
    }

    method InsertSilence(session: nat, units: nat, channels: nat)
      modifies this
      ensures var requested := units * SAMPLES_PER_SEQ_UNIT * channels;
              queues == if requested == 0 then old(queues)
                        else old(queues)[session := WithSilence(if session in old(queues) then old(queues)[session] else [], requested)]
    {
      var requested := units * SAMPLES_PER_SEQ_UNIT * channels;
      if requested == 0 {
        return;
      }
      var buf := if session in queues then queues[session] else [];
      ghost var was := buf;
      var remaining := if |buf| < MAX_BUFFER_SAMPLES then MAX_BUFFER_SAMPLES - |buf| else 0;
      var toInsert := Min(requested, remaining);
      for i := 0 to toInsert
        invariant buf == was + Zeros(i)
      {
        buf := buf + [0.0];
      }
      queues := queues[session := buf];
    }

    method PushSamples(session: nat, frame: Samples)
      modifies this
      ensures queues == old(queues)[session := Pushed(if session in old(queues) then old(queues)[session] else [], frame)]
    {
      var buf := if session in queues then queues[session] else [];
      buf := buf + frame;
      if |buf| > MAX_BUFFER_SAMPLES {
        var excess := |buf| - MAX_BUFFER_SAMPLES;
        buf := buf[excess..];
      }
      queues := queues[session := buf];
    }
  }

  method ApplyFadeIn(w: (nat, nat) -> real, frame: array<real>)
    modifies frame
    ensures frame[..] == FadeIn(w, old(frame[..]), Min(FADE_LEN, frame.Length))
  {
    var n := Min(FADE_LEN, frame.Length);
    ghost var was := frame[..];
    assert n == Min(FADE_LEN, |was|);
    for i := 0 to n
      invariant frame[..] == FadeIn(w, was, i)
      invariant forall j :: i <= j < frame.Length ==> frame[j] == was[j]
    {
      frame[i] := Scale(frame[i], w(i, n));
    }
  }

  method ApplyCrossfade(decay: (nat, nat) -> real, frame: array<real>, prev: real)
    modifies frame
    ensures frame[..] == Crossfaded(decay, old(frame[..]), prev)
  {
    if frame.Length == 0 {
      return;
    }
    ghost var was := frame[..];
    var correction := prev - frame[0];
    if Abs(correction) > 0.002 {
      var n := Min(CROSSFADE_LEN, frame.Length);
      assert n == Min(CROSSFADE_LEN, |was|);
      for i := 0 to n
        invariant frame[..] == Shift(decay, was, correction, i)
        invariant forall j :: i <= j < frame.Length ==> frame[j] == was[j]
      {
        frame[i] := frame[i] + correction * decay(i, n);
      }
    }
  }

  /** Fades only lower the level when their weights lie between 0 and 1. */
  lemma {:induction false} FadeInNeverAmplifies(w: (nat, nat) -> real, frame: Samples, n: nat, i: nat)
    requires n <= |frame| && i < |frame|
    requires forall j: nat, k: nat :: 0.0 <= w(j, k) <= 1.0
    ensures Abs(FadeIn(w, frame, n)[i]) <= Abs(frame[i])
    ensures i >= n ==> FadeIn(w, frame, n)[i] == frame[i]
  {
    if n > 0 {
      FadeInNeverAmplifies(w, frame, n - 1, i);
      if i == n - 1 {
        ScaledDown(frame[i], w(i, Min(FADE_LEN, |frame|)));
      }
    }
  }

  lemma ScaledDown(x: real, w: real)
    requires 0.0 <= w <= 1.0
    ensures Abs(x * w) <= Abs(x)
  {
    if x >= 0.0 {
      assert 0.0 <= x * w <= x * 1.0;
    } else {
      assert 0.0 <= (-x) * w <= (-x) * 1.0;
      assert (-x) * w == -(x * w);
    }
  }

  lemma PushAfterGap(q: Option<Samples>, gap: seq<QueueOp>, frame: Samples)
    requires |gap| <= 1
    ensures var mid := QueueAfter(q, gap);
            QueueAfter(q, gap + [Push(frame)]) == Some(Pushed(if mid.Some? then mid.value else [], frame))
  {
    var start := if q.Some? then q.value else [];
    if gap == [] {
      assert gap + [Push(frame)] == [Push(frame)];
      RunShort(start, Push(frame), Push(frame));
    } else {
      assert gap == [gap[0]] && gap + [Push(frame)] == [gap[0], Push(frame)];
      RunShort(start, gap[0], Push(frame));
    }
  }

  lemma FeedOpsOf(env: Env, v: Voice, s: Speaker, packet: Packet, samples: Samples, now: int)
    requires s == Opened(Restarted(v.speaker, packet.sequence), now)
    requires env.decode(s.decoded, packet) == Some(samples)
    ensures FeedOps(env, v, packet, now) == GapOps(env, s, packet) + [Push(Faded(env, Noted(s, packet), samples))]
    ensures FedSpeaker(env, v, packet, now) == Noted(s, packet).(
              expectedNext := Some(packet.sequence + FrameUnits(|samples|, env.channels)), prevLast := None,
              needsFadeIn := false)
  {
  }

  lemma MapsAgree(m: Buffers, was: Buffers, k: nat)
    requires m - {k} == was - {k}
    ensures m == if k in m then was[k := m[k]] else was - {k}
  {
    forall j | j in m && j != k ensures j in was && m[j] == was[j] {
      assert j in m - {k} && (m - {k})[j] == m[j] && (was - {k})[j] == was[j];
    }
    forall j | j in was && j != k ensures j in m {
      assert j in was - {k};
    }
  }

  /** A mixer that differs from m only in one session's speaker and queue. */
  lemma FeedApplied(env: Env, m: Mixer, k: nat, packet: Packet, now: int, m': Mixer)
    requires m'.speakers == m.speakers[k := FedSpeaker(env, VoiceOf(m, k), packet, now)]
    requires Look(m'.buffers, k) == QueueAfter(Look(m.buffers, k), FeedOps(env, VoiceOf(m, k), packet, now))
    requires m'.buffers - {k} == m.buffers - {k}
    ensures m' == Apply(env, m, Op.Feed(k, packet, now))
  {
    MapsAgree(m'.buffers, m.buffers, k);
  }

  class SpeakerMixer {
    const env: Env
    const buffers: SpeakerBuffers
    var speakers: map<nat, Speaker>

    ghost function State(): Mixer
      reads this, buffers
    {
      Mixer(speakers, buffers.queues)
    }

    constructor (env: Env, buffers: SpeakerBuffers)
      ensures this.env == env && this.buffers == buffers && speakers == map[]
    {
      this.env, this.buffers, speakers := env, buffers, map[];
    }

    /** The speaker of a session, dropped first on a stream restart, created when
    there is none. */
    method TakeSpeaker(session: nat, sequence: nat, now: int) returns (speaker: Speaker)
      modifies this
      ensures speaker == Opened(Restarted(Look(old(speakers), session), sequence), now)
      ensures speakers == old(speakers)[session := speaker]
    {
      if session in speakers {
        var last := speakers[session].lastSeq;
        if last.Some? && last.value > sequence && last.value - sequence > RESTART_DISTANCE {
          speakers := speakers - {session};
        }
      }
      if session !in speakers {
        speakers := speakers[session := NewSpeaker(now)];
      }
      speaker := speakers[session].(lastActivity := now);
      speakers := speakers[session := speaker];
    }

    method FadeFrame(speaker: Speaker, samples: Samples) returns (faded: Samples)
      ensures faded == Faded(env, speaker, samples)
    {
      var frame := new real[|samples|](i requires 0 <= i < |samples| => samples[i]);
      assert frame[..] == samples;
      if speaker.needsFadeIn {
        ApplyFadeIn(env.fadeIn, frame);
      } else if speaker.prevLast.Some? {
        ApplyCrossfade(env.decay, frame, speaker.prevLast.value);
      }
      faded := frame[..];
    }

    method FillGap(session: nat, s: Speaker, packet: Packet) returns (silenceUnits: nat)
      modifies buffers
      ensures silenceUnits == CertainGap(s.expectedNext, packet.sequence)
      ensures Look(buffers.queues, session) == QueueAfter(Look(old(buffers.queues), session), GapOps(env, s, packet))
      ensures buffers.queues - {session} == old(buffers.queues) - {session}
    {
      silenceUnits := CertainGap(s.expectedNext, packet.sequence);
      if silenceUnits > 0 {
        buffers.InsertSilence(session, silenceUnits, env.channels);
      }
      ghost var requested := silenceUnits * SAMPLES_PER_SEQ_UNIT * env.channels;
      ghost var q := if session in old(buffers.queues) then old(buffers.queues)[session] else [];
      if requested > 0 {
        assert GapOps(env, s, packet) == [Silence(requested)];
        RunShort(q, Silence(requested), Discard);
      }
    }

    /** Fill a certain gap with silence and note the packet. */
    method NotePacket(session: nat, s: Speaker, packet: Packet) returns (speaker: Speaker)
      modifies buffers
      ensures speaker == Noted(s, packet)
      ensures Look(buffers.queues, session) == QueueAfter(Look(old(buffers.queues), session), GapOps(env, s, packet))
      ensures buffers.queues - {session} == old(buffers.queues) - {session}
    {
      var silenceUnits := FillGap(session, s, packet);
      speaker := s.(lastSeq := Some(packet.sequence));
      if silenceUnits > 0 {
        speaker := speaker.(prevLast := Some(0.0));
      }
      speaker := speaker.(decoded := speaker.decoded + [packet]);
    }

    /** Decode a packet and queue its samples; false on a decode error. */
    method Feed(session: nat, packet: Packet, now: int) returns (ok: bool)
      modifies this, buffers
      ensures State() == Apply(env, old(State()), Op.Feed(session, packet, now))
      ensures ok <==> Decodes(env, VoiceOf(old(State()), session), packet, now)
    {
      ghost var m := State();
      ghost var v := VoiceOf(m, session);
      var s := TakeSpeaker(session, packet.sequence, now);
      var speaker := NotePacket(session, s, packet);
      var decoded := env.decode(s.decoded, packet);
      ok := decoded.Some?;
      if decoded.None? {
        speakers := speakers[session := speaker];
        assert FeedOps(env, v, packet, now) == GapOps(env, s, packet);
      } else {
        QueueFrame(session, v, s, speaker, packet, decoded.value, now);
      }
      FeedApplied(env, m, session, packet, now, State());
    }

    /** Fade a decoded frame, queue it, and expect the packet after it. */
    method QueueFrame(session: nat, ghost v: Voice, ghost s: Speaker, noted: Speaker, packet: Packet,
                      samples: Samples, ghost now: int)
      requires s == Opened(Restarted(v.speaker, packet.sequence), now) && noted == Noted(s, packet)
      requires env.decode(s.decoded, packet) == Some(samples)
      requires Look(buffers.queues, session) == QueueAfter(v.queue, GapOps(env, s, packet))
      modifies this, buffers
      ensures speakers == old(speakers)[session := FedSpeaker(env, v, packet, now)]
      ensures Look(buffers.queues, session) == QueueAfter(v.queue, FeedOps(env, v, packet, now))
      ensures buffers.queues - {session} == old(buffers.queues) - {session}
    {
      var frame := FadeFrame(noted, samples);
      var units := FrameUnits(|samples|, env.channels);
      var speaker := noted.(expectedNext := Some(packet.sequence + units), needsFadeIn := false, prevLast := None);
      speakers := speakers[session := speaker];
      FeedOpsOf(env, v, s, packet, samples, now);
      PushAfterGap(v.queue, GapOps(env, s, packet), frame);
      buffers.PushSamples(session, frame);
    }

    method ResetSpeaker(session: nat)
      modifies this
      ensures State() == Apply(env, old(State()), Op.ResetSpeaker(session))
      ensures speakers == old(speakers) - {session}
    {
      speakers := speakers - {session};
    }

    method RemoveInactiveSpeakers(now: int)
      modifies this, buffers
      ensures State() == Apply(env, old(State()), RemoveInactive(now))
      ensures var stale := set k | k in old(speakers) && now - old(speakers)[k].lastActivity > 30_000;
              speakers == old(speakers) - stale && buffers.queues == old(buffers.queues) - stale
    {
      var stale := set k | k in speakers && now - speakers[k].lastActivity > SPEAKER_TIMEOUT_MS;
      speakers := speakers - stale;
      buffers.queues := buffers.queues - stale;
    }

    method Reset()
      modifies this, buffers
      ensures State() == Apply(env, old(State()), Op.Reset)
      ensures speakers == map[] && buffers.queues == map[]
    {
      speakers := map[];
      buffers.queues := map[];
    }
  }
}
