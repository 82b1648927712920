/** TCP control frames: a 2-byte type, a 4-byte length, the payload, and a reader
that collects bytes until a frame is complete.

The payload format is any serialiser; the network may cut the byte stream at any
point. */
module TcpFraming {
  import opened Bytes

  const MAX_PAYLOAD_SIZE: nat := 0x80_0000
  const HEADER_SIZE: nat := 6

  /** Message to type and payload, and back; None is a payload error. */
  datatype Serde<!M> = Serde(serialize: M -> (nat, Octets), deserialize: (nat, Octets) -> Option<M>)

  datatype Option<+T> = None | Some(value: T)

  ghost predicate Faithful<M(!new)>(s: Serde<M>) {
    forall m: M :: s.serialize(m).0 < 0x1_0000
                && s.deserialize(s.serialize(m).0, s.serialize(m).1) == Some(m)
  }

  // -- Numbers on the wire --------------------------------------------

  function U16Bytes(n: nat): (s: Octets)
    ensures |s| == 2
  {
    [Byte(n / 0x100), Byte(n)]
  }

  /** The low 32 bits of n, big-endian. */
  function U32Bytes(n: nat): (s: Octets)
    ensures |s| == 4
  {
    [Byte(n / 0x100 / 0x100 / 0x100), Byte(n / 0x100 / 0x100), Byte(n / 0x100), Byte(n)]
  }

  function U16(a: Octet, b: Octet): nat {
    0x100 * Num(a) + Num(b)
  }

  function U32(a: Octet, b: Octet, c: Octet, d: Octet): nat {
    0x100_0000 * Num(a) + 0x1_0000 * Num(b) + 0x100 * Num(c) + Num(d)
  }

  /** Numbers on the wire have their most significant byte first. */
  lemma NumbersAreBigEndian(a: Octet, b: Octet, c: Octet, d: Octet)
    ensures U16(a, b) == BigValue([a, b]) && U32(a, b, c, d) == BigValue([a, b, c, d])
  {
    assert [a, b, c, d][..3] == [a, b, c] && [a, b, c][..2] == [a, b] && [a, b][..1] == [a] && [a][..0] == [];
  }

  lemma BytesAreBigEndian(n: nat)
    ensures U16Bytes(n) == BigEndian(n, 2) && U32Bytes(n) == BigEndian(n, 4)
  {
    var a := n / 0x100;
    var b := a / 0x100;
    assert BigEndian(b / 0x100, 1) == [Byte(b / 0x100)];
    assert BigEndian(b, 2) == BigEndian(b / 0x100, 1) + [Byte(b)];
    assert BigEndian(a, 3) == BigEndian(b, 2) + [Byte(a)];
    assert BigEndian(a, 1) == [Byte(a)];
  }

  lemma U16RoundTrip(n: nat)
    requires n < 0x1_0000
    ensures var s := U16Bytes(n); U16(s[0], s[1]) == n
  {
  }

  lemma U32RoundTrip(n: nat)
    ensures var s := U32Bytes(n); U32(s[0], s[1], s[2], s[3]) == n % 0x1_0000_0000
  {
    var a := n / 0x100;
    var b := a / 0x100;
    var c := b / 0x100;
    FourDigits(n, a, b, c);
    U32OfDigits(Byte(c), Byte(b), Byte(a), Byte(n), c % 0x100, b % 0x100, a % 0x100, n % 0x100);
  }

  lemma U32OfDigits(p: Octet, q: Octet, r: Octet, s: Octet, p': nat, q': nat, r': nat, s': nat)
    requires Num(p) == p' && Num(q) == q' && Num(r) == r' && Num(s) == s'
    ensures U32(p, q, r, s) == 0x100_0000 * p' + 0x1_0000 * q' + 0x100 * r' + s'
  {
  }

  lemma SmallModulo(n: nat)
    requires n < 0x1_0000_0000
    ensures n % 0x1_0000_0000 == n
  {
  }

  lemma FourDigits(n: nat, a: nat, b: nat, c: nat)
    requires a == n / 0x100 && b == a / 0x100 && c == b / 0x100
    ensures n % 0x1_0000_0000 == 0x100_0000 * (c % 0x100) + 0x1_0000 * (b % 0x100) + 0x100 * (a % 0x100) + n % 0x100
  {
    var q, r := c / 0x100, 0x100_0000 * (c % 0x100) + 0x1_0000 * (b % 0x100) + 0x100 * (a % 0x100) + n % 0x100;
    assert n == 0x1_0000_0000 * q + r;
    UniqueRemainder(n, 0x1_0000_0000, q, r);
  }

  // -- Frames ---------------------------------------------------------

  function Encode<M>(s: Serde<M>, m: M): Octets {
    var (typeId, payload) := s.serialize(m);
    U16Bytes(typeId) + U32Bytes(|payload|) + payload
  }

  datatype Outcome<+M> = Incomplete | Message(message: M) | TooLarge | Malformed

  function PayloadLength(buf: Octets): nat
    requires |buf| >= HEADER_SIZE
  {
    U32(buf[2], buf[3], buf[4], buf[5])
  }

  /** Take one frame off the buffer: what is left, and what was found. */
  function Decode<M>(s: Serde<M>, buf: Octets): (r: (Octets, Outcome<M>))
    ensures r.1.Message? || r.1.Malformed? ==> |r.0| + HEADER_SIZE <= |buf|
    ensures r.1.Incomplete? || r.1.TooLarge? ==> r.0 == buf
  {
    if |buf| < HEADER_SIZE then (buf, Incomplete)
    else
      var len := PayloadLength(buf);
      if len > MAX_PAYLOAD_SIZE then (buf, TooLarge)
      else if |buf| < HEADER_SIZE + len then (buf, Incomplete)
      else
        var m := s.deserialize(U16(buf[0], buf[1]), buf[HEADER_SIZE..HEADER_SIZE + len]);
        (buf[HEADER_SIZE + len..], if m.Some? then Message(m.value) else Malformed)
  }

  /** What a buffer already shows does not change when more bytes follow. */
  lemma DecodeIsStable<M>(s: Serde<M>, buf: Octets, more: Octets)
    requires !Decode(s, buf).1.Incomplete?
    ensures Decode(s, buf + more) == (Decode(s, buf).0 + more, Decode(s, buf).1)
  {
    assert PayloadLength(buf + more) == PayloadLength(buf);
    var len := PayloadLength(buf);
    if len <= MAX_PAYLOAD_SIZE {
      assert (buf + more)[HEADER_SIZE..HEADER_SIZE + len] == buf[HEADER_SIZE..HEADER_SIZE + len];
      assert (buf + more)[HEADER_SIZE + len..] == buf[HEADER_SIZE + len..] + more;
    }
  }

  lemma HeaderBytes(t: Octets, l: Octets, payload: Octets, more: Octets)
    requires |t| == 2 && |l| == 4
    ensures var buf := t + l + payload + more;
            && buf[0] == t[0] && buf[1] == t[1]
            && buf[2] == l[0] && buf[3] == l[1] && buf[4] == l[2] && buf[5] == l[3]
            && buf[HEADER_SIZE..] == payload + more
  {
  }

  lemma EncodedHeader<M(!new)>(s: Serde<M>, m: M, more: Octets)
    requires Faithful(s)
    ensures var buf := Encode(s, m) + more;
            var (typeId, payload) := s.serialize(m);
            && |buf| >= HEADER_SIZE && U16(buf[0], buf[1]) == typeId
            && PayloadLength(buf) == |payload| % 0x1_0000_0000
            && (|payload| <= MAX_PAYLOAD_SIZE ==> PayloadLength(buf) == |payload|)
            && buf[HEADER_SIZE..] == payload + more
  {
    var (typeId, payload) := s.serialize(m);
    U16RoundTrip(typeId);
    U32RoundTrip(|payload|);
    if |payload| <= MAX_PAYLOAD_SIZE {
      SmallModulo(|payload|);
    }
    var t, l := U16Bytes(typeId), U32Bytes(|payload|);
    HeaderBytes(t, l, payload, more);
  }

  lemma DecodeWhole<M>(s: Serde<M>, buf: Octets, m: M, typeId: nat, payload: Octets, more: Octets)
    requires |buf| >= HEADER_SIZE && U16(buf[0], buf[1]) == typeId
    requires PayloadLength(buf) == |payload| <= MAX_PAYLOAD_SIZE && buf[HEADER_SIZE..] == payload + more
    requires s.deserialize(typeId, payload) == Some(m)
    ensures Decode(s, buf) == (more, Message(m))
  {
    var body, len := buf[HEADER_SIZE..], |payload|;
    assert buf[HEADER_SIZE..HEADER_SIZE + len] == body[..len] == payload;
    assert buf[HEADER_SIZE + len..] == body[len..] == more;
  }

  lemma ShortFrameRoundTrip<M(!new)>(s: Serde<M>, m: M, more: Octets)
    requires Faithful(s) && |s.serialize(m).1| <= MAX_PAYLOAD_SIZE
    ensures Decode(s, Encode(s, m) + more) == (more, Message(m))
  {
    EncodedHeader(s, m, more);
    var buf := Encode(s, m) + more;
    var (typeId, payload) := s.serialize(m);
    assert s.deserialize(typeId, payload) == Some(m);
    DecodeWhole(s, buf, m, typeId, payload, more);
  }

  lemma LongFrameIsNotRead<M(!new)>(s: Serde<M>, m: M, more: Octets)
    requires Faithful(s) && |s.serialize(m).1| > MAX_PAYLOAD_SIZE
    ensures var (rest, o) := Decode(s, Encode(s, m) + more); rest != more
  {
    EncodedHeader(s, m, more);
    var buf := Encode(s, m) + more;
    var payload := s.serialize(m).1;
    assert |buf| == HEADER_SIZE + |payload| + |more|;
  }

  /** A frame is read back, and nothing after it is touched, exactly when its
  payload has at most 8 MiB: the encoder does not refuse longer ones. */
  lemma FrameRoundTrip<M(!new)>(s: Serde<M>, m: M, more: Octets)
    requires Faithful(s)
    ensures Decode(s, Encode(s, m) + more) == (more, Message(m)) <==> |s.serialize(m).1| <= MAX_PAYLOAD_SIZE
  {
    if |s.serialize(m).1| <= MAX_PAYLOAD_SIZE {
      ShortFrameRoundTrip(s, m, more);
    } else {
      LongFrameIsNotRead(s, m, more);
    }
  }

  /** Every buffer that starts with a header: an announced payload over 8 MiB is
  refused at once and nothing is consumed; a shorter one is waited for; when it is
  there, it is consumed with its header, whether or not it can be deserialised. */
  lemma DecodeExactly<M>(s: Serde<M>, typeId: nat, len: nat, body: Octets)
    requires typeId < 0x1_0000 && len < 0x1_0000_0000
    ensures var buf := BigEndian(typeId, 2) + BigEndian(len, 4) + body;
            Decode(s, buf) ==
            if len > 0x80_0000 then (buf, TooLarge)
            else if |body| < len then (buf, Incomplete)
            else
              var m := s.deserialize(typeId, body[..len]);
              (body[len..], if m.Some? then Message(m.value) else Malformed)
  {
    HeaderReads(typeId, len, body);
    var buf := BigEndian(typeId, 2) + BigEndian(len, 4) + body;
    if len <= |body| {
      assert buf[HEADER_SIZE..HEADER_SIZE + len] == buf[HEADER_SIZE..][..len];
      assert buf[HEADER_SIZE + len..] == buf[HEADER_SIZE..][len..];
    }
  }

  lemma HeaderReads(typeId: nat, len: nat, body: Octets)
    requires typeId < 0x1_0000 && len < 0x1_0000_0000
    ensures var buf := BigEndian(typeId, 2) + BigEndian(len, 4) + body;
            U16(buf[0], buf[1]) == typeId && PayloadLength(buf) == len && buf[HEADER_SIZE..] == body
  {
    BytesAreBigEndian(typeId);
    BytesAreBigEndian(len);
    U16RoundTrip(typeId);
    U32RoundTrip(len);
    SmallModulo(len);
    HeaderBytes(U16Bytes(typeId), U32Bytes(len), body, []);
    var buf := BigEndian(typeId, 2) + BigEndian(len, 4) + body;
    assert buf + [] == buf && body + [] == body;
  }

  /** Every buffer of at least 6 bytes starts with a header; a shorter one is kept. */
  lemma EveryBufferIsCovered<M>(s: Serde<M>, buf: Octets)
    ensures |buf| < 6 ==> Decode(s, buf) == (buf, Incomplete)
    ensures |buf| >= 6 ==>
              var typeId, len := BigValue(buf[..2]), BigValue(buf[2..6]);
              && typeId < 0x1_0000 && len < 0x1_0000_0000
              && buf == BigEndian(typeId, 2) + BigEndian(len, 4) + buf[6..]
  {
    if |buf| >= 6 {
      BigEndianOfValue(buf[..2]);
      BigEndianOfValue(buf[2..6]);
      RadixValues();
    }
  }

  lemma RadixValues()
    ensures Radix(2) == 0x1_0000 && Radix(4) == 0x1_0000_0000
  {
    assert Radix(1) == 256 * Radix(0);
    assert Radix(3) == 256 * Radix(2);
  }

  lemma EncodedLayout<M>(s: Serde<M>, m: M)
    ensures Encode(s, m) == BigEndian(s.serialize(m).0, 2) + BigEndian(|s.serialize(m).1|, 4) + s.serialize(m).1
  {
    BytesAreBigEndian(s.serialize(m).0);
    BytesAreBigEndian(|s.serialize(m).1|);
  }

  // -- The reader -----------------------------------------------------

  /** One read from the socket; an empty one means the peer has closed. */
  datatype Read = Data(bytes: Octets) | Broken

  datatype Received<+M> = Got(message: M) | Oversized | BadPayload | Closed | IoError

  datatype Reading<+M> = Reading(buf: Octets, stream: seq<Read>, received: Received<M>)

  function Recv<M>(s: Serde<M>, buf: Octets, stream: seq<Read>): Reading<M>
    decreases |stream|
  {
    var (rest, o) := Decode(s, buf);
    match o
    case Message(m) => Reading(rest, stream, Got(m))
    case TooLarge => Reading(rest, stream, Oversized)
    case Malformed => Reading(rest, stream, BadPayload)
    case Incomplete =>
      if stream == [] then Reading(buf, [], Closed)
      else match stream[0]
        case Broken => Reading(buf, stream[1..], IoError)
        case Data(bytes) =>
          if bytes == [] then Reading(buf, stream[1..], Closed) else Recv(s, buf + bytes, stream[1..])
  }

  function Joined(stream: seq<Read>): Octets {
    if stream == [] then []
    else (if stream[0].Data? then stream[0].bytes else []) + Joined(stream[1..])
  }

  /** The bytes still to come shrink with every message. */
  lemma {:induction false} RecvShrinks<M>(s: Serde<M>, buf: Octets, stream: seq<Read>)
    ensures var r := Recv(s, buf, stream);
            |r.buf| + |Joined(r.stream)| <= |buf| + |Joined(stream)|
            && (r.received.Got? ==> |r.buf| + |Joined(r.stream)| < |buf| + |Joined(stream)|)
    decreases |stream|
  {
    if Decode(s, buf).1.Incomplete? && stream != [] && stream[0].Data? && stream[0].bytes != [] {
      RecvShrinks(s, buf + stream[0].bytes, stream[1..]);
    }
  }

  /** The messages of successive calls, up to and including the first failure. */
  function RecvAll<M>(s: Serde<M>, buf: Octets, stream: seq<Read>): (seq<M>, Reading<M>)
    decreases |buf| + |Joined(stream)|
  {
    var r := Recv(s, buf, stream);
    if !r.received.Got? then ([], r)
    else
      RecvShrinks(s, buf, stream);
      var (ms, last) := RecvAll(s, r.buf, r.stream);
      ([r.received.message] + ms, last)
  }

  /** The frames of a complete byte string, and where and why reading them stops. */
  function Parse<M>(s: Serde<M>, bytes: Octets): (seq<M>, Octets, Outcome<M>)
    decreases |bytes|
  {
    var (rest, o) := Decode(s, bytes);
    if !o.Message? then ([], rest, o)
    else
      var (ms, left, stop) := Parse(s, rest);
      ([o.message] + ms, left, stop)
  }

  ghost predicate NonEmptyChunks(stream: seq<Read>) {
    forall r <- stream :: r.Data? && r.bytes != []
  }

  function StopOf<M>(o: Outcome<M>): Received<M>
    requires !o.Message?
  {
    match o
    case Incomplete => Closed
    case TooLarge => Oversized
    case Malformed => BadPayload
  }

  lemma RecvReadsOn<M>(s: Serde<M>, buf: Octets, stream: seq<Read>)
    requires Decode(s, buf).1.Incomplete? && stream != [] && stream[0].Data? && stream[0].bytes != []
    ensures Recv(s, buf, stream) == Recv(s, buf + stream[0].bytes, stream[1..])
  {
  }

  lemma JoinedReadsOn(buf: Octets, stream: seq<Read>)
    requires stream != [] && stream[0].Data?
    ensures buf + Joined(stream) == (buf + stream[0].bytes) + Joined(stream[1..])
  {
  }

  /** One call finds the first frame of the whole stream, however it is cut. */
  lemma {:induction false} RecvFindsFirst<M>(s: Serde<M>, buf: Octets, stream: seq<Read>)
    requires NonEmptyChunks(stream)
    ensures var r := Recv(s, buf, stream);
            var (rest, o) := Decode(s, buf + Joined(stream));
            && NonEmptyChunks(r.stream) && r.buf + Joined(r.stream) == rest
            && r.received == (if o.Message? then Got(o.message) else StopOf(o))
            && (o.Incomplete? ==> r.stream == [])
    decreases |stream|
  {
    if !Decode(s, buf).1.Incomplete? {
      DecodeIsStable(s, buf, Joined(stream));
    } else if stream != [] {
      assert stream[0] in stream;
      RecvReadsOn(s, buf, stream);
      JoinedReadsOn(buf, stream);
      RecvFindsFirst(s, buf + stream[0].bytes, stream[1..]);
    } else {
      assert buf + Joined(stream) == buf;
    }
  }

  /** Chunking does not matter: for every byte stream, well-formed or not, cut into
  non-empty chunks in any way, successive calls return exactly the frames of the
  uncut stream and then stop for the same reason; at the end of the stream the
  buffer holds the incomplete rest. */
  lemma {:induction false} ChunkingDoesNotMatter<M>(s: Serde<M>, buf: Octets, stream: seq<Read>)
    requires NonEmptyChunks(stream)
    ensures var (ms, last) := RecvAll(s, buf, stream);
            var (ms', left, stop) := Parse(s, buf + Joined(stream));
            && ms == ms' && !stop.Message? && last.received == StopOf(stop)
            && last.buf + Joined(last.stream) == left
            && (stop.Incomplete? ==> last.buf == left)
    decreases |buf| + |Joined(stream)|
  {
    RecvFindsFirst(s, buf, stream);
    var r := Recv(s, buf, stream);
    if r.received.Got? {
      RecvShrinks(s, buf, stream);
      ChunkingDoesNotMatter(s, r.buf, r.stream);
    } else if r.received.Closed? {
      assert r.buf + [] == r.buf;
    }
  }

  /** A frame that is complete within some chunks is returned without a look at what
  comes after them. */
  lemma {:induction false} RecvLooksNoFurther<M>(s: Serde<M>, buf: Octets, good: seq<Read>, after: seq<Read>)
    requires NonEmptyChunks(good) && !Decode(s, buf + Joined(good)).1.Incomplete?
    ensures Recv(s, buf, good + after)
         == Recv(s, buf, good).(stream := Recv(s, buf, good).stream + after)
    decreases |good|
  {
    assert good == [] ==> buf + Joined(good) == buf;
    if Decode(s, buf).1.Incomplete? {
      assert good[0] in good;
      assert (good + after)[1..] == good[1..] + after;
      JoinedReadsOn(buf, good);
      RecvReadsOn(s, buf, good);
      RecvReadsOn(s, buf, good + after);
      RecvLooksNoFurther(s, buf + good[0].bytes, good[1..], after);
    }
  }

  /** When the connection ends or breaks inside a frame, the call says which, and the
  bytes that had come stay in the buffer. */
  lemma {:induction false} RecvStopsAt<M>(s: Serde<M>, buf: Octets, good: seq<Read>, bad: Read, after: seq<Read>)
    requires NonEmptyChunks(good) && Decode(s, buf + Joined(good)).1.Incomplete?
    requires bad.Broken? || bad.bytes == []
    ensures Recv(s, buf, good + [bad] + after)
         == Reading(buf + Joined(good), after, if bad.Broken? then IoError else Closed)
    decreases |good|
  {
    var stream := good + [bad] + after;
    if good == [] {
      assert buf + Joined(good) == buf;
      assert stream[0] == bad && stream[1..] == after;
    } else {
      assert good[0] in good;
      assert stream[0] == good[0] && stream[1..] == good[1..] + [bad] + after;
      JoinedReadsOn(buf, good);
      if !Decode(s, buf).1.Incomplete? {
        DecodeIsStable(s, buf, Joined(good));
        assert false;
      }
      RecvReadsOn(s, buf, stream);
      RecvStopsAt(s, buf + good[0].bytes, good[1..], bad, after);
    }
  }

  function EncodeAll<M>(s: Serde<M>, ms: seq<M>): Octets {
    if ms == [] then [] else Encode(s, ms[0]) + EncodeAll(s, ms[1..])
  }

  lemma {:induction false} ParseEncodeAll<M(!new)>(s: Serde<M>, ms: seq<M>)
    requires Faithful(s) && forall m <- ms :: |s.serialize(m).1| <= MAX_PAYLOAD_SIZE
    ensures Parse(s, EncodeAll(s, ms)) == (ms, [], Incomplete)
  {
    if ms != [] {
      assert ms[0] in ms;
      var rest := EncodeAll(s, ms[1..]);
      ShortFrameRoundTrip(s, ms[0], rest);
      ParseFirst(s, EncodeAll(s, ms), ms[0], rest);
      ParseEncodeAll(s, ms[1..]);
      assert ms == [ms[0]] + ms[1..];
    }
  }

  lemma ParseFirst<M>(s: Serde<M>, bytes: Octets, m: M, rest: Octets)
    requires Decode(s, bytes) == (rest, Message(m))
    ensures Parse(s, bytes) == ([m] + Parse(s, rest).0, Parse(s, rest).1, Parse(s, rest).2)
  {
  }

  /** Every list of messages of up to 8 MiB each, sent as frames and cut into
  non-empty chunks in any way, is received as exactly that list in order; then the
  stream is at its end and the buffer empty. */
  lemma StreamRoundTrip<M(!new)>(s: Serde<M>, ms: seq<M>, stream: seq<Read>)
    requires Faithful(s) && (forall m <- ms :: |s.serialize(m).1| <= MAX_PAYLOAD_SIZE)
    requires NonEmptyChunks(stream) && Joined(stream) == EncodeAll(s, ms)
    ensures RecvAll(s, [], stream).0 == ms
    ensures RecvAll(s, [], stream).1.received == Closed && RecvAll(s, [], stream).1.buf == []
  {
    assert [] + Joined(stream) == Joined(stream);
    ChunkingDoesNotMatter(s, [], stream);
    ParseEncodeAll(s, ms);
  }

  class TcpReader<!M> {
    const serde: Serde<M>
    var readBuf: Octets
    /** What the socket has yet to deliver. */
    var stream: seq<Read>

    constructor (serde: Serde<M>, stream: seq<Read>)
      ensures this.serde == serde && this.stream == stream && readBuf == []
    {
      this.serde, this.stream, readBuf := serde, stream, [];
    }

    /** Decode in place: a complete frame is consumed from the buffer, whether or
    not its payload can be deserialised. */
    method DecodeFrame() returns (o: Outcome<M>)
      modifies this`readBuf
      ensures (readBuf, o) == Decode(serde, old(readBuf))
    {
      if |readBuf| < HEADER_SIZE {
        return Incomplete;
      }
      var msgType := U16(readBuf[0], readBuf[1]);
      var payloadLen := U32(readBuf[2], readBuf[3], readBuf[4], readBuf[5]);
      if payloadLen > MAX_PAYLOAD_SIZE {
        return TooLarge;
      }
      if |readBuf| < HEADER_SIZE + payloadLen {
        return Incomplete;
      }
      readBuf := readBuf[HEADER_SIZE..];
      var payload := readBuf[..payloadLen];
      readBuf := readBuf[payloadLen..];
      var m := serde.deserialize(msgType, payload);
      assert payload == old(readBuf)[HEADER_SIZE..HEADER_SIZE + payloadLen];
      assert readBuf == old(readBuf)[HEADER_SIZE + payloadLen..];
      o := if m.Some? then Message(m.value) else Malformed;
    }

    method Receive() returns (r: Received<M>)
      modifies this
      ensures Reading(readBuf, stream, r) == Recv(serde, old(readBuf), old(stream))
    {
      ghost var goal := Recv(serde, readBuf, stream);
      while true
        invariant goal == Recv(serde, readBuf, stream)
        decreases |stream|
      {
        var o := DecodeFrame();
        match o
        case Message(m) => return Got(m);
        case TooLarge => return Oversized;
        case Malformed => return BadPayload;
        case Incomplete =>
          if stream == [] {
            return Closed;
          }
          var next := stream[0];
          stream := stream[1..];
          match next
          case Broken => return IoError;
          case Data(bytes) =>
            if bytes == [] {
              return Closed;
            }
            readBuf := readBuf + bytes;
      }
    }
  }
}
