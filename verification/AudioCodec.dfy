/** The Mumble variable-length integer and the legacy audio packet. */
module AudioCodec {
  import opened Bytes

  const U64_LIMIT: nat := 0x1_0000_0000_0000_0000
  const U32_LIMIT: nat := 0x1_0000_0000

  datatype Result<+T> = Ok(value: T) | Err

  datatype Varint = Varint(value: nat, length: nat)

  // -- Splitting off the low octets -----------------------------------

  /** v shifted right by 8k bits. */
  function Shifted(v: nat, k: nat): nat {
    if k == 0 then v else Shifted(v / 256, k - 1)
  }

  /** `high` above k octets of value t. */
  function Composed(high: nat, k: nat, t: nat): nat {
    Radix(k) * high + t
  }

  lemma {:induction false} ShiftedSplit(v: nat, k: nat)
    ensures Composed(Shifted(v, k), k, v % Radix(k)) == v
  {
    if k > 0 {
      ShiftedSplit(v / 256, k - 1);
      SplitOnce(v, Radix(k - 1), Shifted(v, k));
    }
  }

  lemma SplitOnce(v: nat, m: nat, q: nat)
    requires m > 0 && v / 256 == m * q + (v / 256) % m
    ensures v == (256 * m) * q + v % (256 * m)
  {
    ModByProduct(v, m);
    RegroupProduct(m, q);
  }

  lemma RegroupProduct(m: nat, q: nat)
    ensures (256 * m) * q == 256 * (m * q)
  {
  }

  lemma ShiftedBound(v: nat, k: nat, m: nat)
    requires v < Radix(k) * m
    ensures Shifted(v, k) < m
  {
    ShiftedSplit(v, k);
    if Shifted(v, k) >= m {
      MulMonotone(Radix(k), m, Shifted(v, k));
    }
  }

  lemma MulMonotone(d: nat, p: nat, q: nat)
    requires p <= q
    ensures d * p <= d * q
  {
    if p < q {
      Stretch(d, p, q);
    }
  }

  // -- Prefix bytes ---------------------------------------------------

  /** The bit tests of the reader, on numbers. */
  lemma PrefixByNumbers(b: Octet)
    ensures b & 0x80 == 0 <==> Num(b) < 0x80
    ensures b & 0xC0 == 0x80 <==> 0x80 <= Num(b) < 0xC0
    ensures b & 0xE0 == 0xC0 <==> 0xC0 <= Num(b) < 0xE0
    ensures b & 0xF0 == 0xE0 <==> 0xE0 <= Num(b) < 0xF0
  {
    CountIsConversion(b);
  }

  lemma MaskByNumbers(b: Octet)
    ensures 0x80 <= Num(b) < 0xC0 ==> Num(b & 0x3F) == Num(b) - 0x80
    ensures 0xC0 <= Num(b) < 0xE0 ==> Num(b & 0x1F) == Num(b) - 0xC0
    ensures 0xE0 <= Num(b) < 0xF0 ==> Num(b & 0x0F) == Num(b) - 0xE0
  {
    CountIsConversion(b);
    CountIsConversion(b & 0x3F);
    CountIsConversion(b & 0x1F);
    CountIsConversion(b & 0x0F);
  }

  // -- Varints --------------------------------------------------------

  function Take(buf: Octets, high: nat, k: nat): Result<Varint> {
    if |buf| < k + 1 then Err else Ok(Varint(Composed(high, k, BigValue(buf[1..k + 1])), k + 1))
  }

  function Read(buf: Octets): Result<Varint> {
    if buf == [] then Err
    else
      var first := buf[0];
      if first & 0x80 == 0 then Ok(Varint(Num(first), 1))
      else if first & 0xC0 == 0x80 then Take(buf, Num(first & 0x3F), 1)
      else if first & 0xE0 == 0xC0 then Take(buf, Num(first & 0x1F), 2)
      else if first & 0xF0 == 0xE0 then Take(buf, Num(first & 0x0F), 3)
      else if first == 0xF0 then Take(buf, 0, 4)
      else if first == 0xF4 then Take(buf, 0, 8)
      else Err
  }

  /** Every byte string, well-formed or not: the ranges of the first byte tell how
  many bytes follow and what they add up to, most significant first. */
  lemma ReadExactly(buf: Octets)
    ensures var f := if buf == [] then 0 else Num(buf[0]);
            Read(buf) ==
            if buf == [] then Err
            else if f < 0x80 then Ok(Varint(f, 1))
            else if f < 0xC0 then ReadTail(buf, f - 0x80, 1)
            else if f < 0xE0 then ReadTail(buf, f - 0xC0, 2)
            else if f < 0xF0 then ReadTail(buf, f - 0xE0, 3)
            else if f == 0xF0 then ReadTail(buf, 0, 4)
            else if f == 0xF4 then ReadTail(buf, 0, 8)
            else Err
  {
    if buf != [] {
      var f := Num(buf[0]);
      AnnouncedByNumbers(buf[0]);
      if f < 0x80 {
        AnnouncedRead(buf, f, 0);
      } else if f < 0xC0 {
        AnnouncedRead(buf, f - 0x80, 1);
      } else if f < 0xE0 {
        AnnouncedRead(buf, f - 0xC0, 2);
      } else if f < 0xF0 {
        AnnouncedRead(buf, f - 0xE0, 3);
      } else if f == 0xF0 {
        AnnouncedRead(buf, 0, 4);
      } else if f == 0xF4 {
        AnnouncedRead(buf, 0, 8);
      } else {
        NothingAnnounced(buf);
      }
    }
  }

  lemma AnnouncedByNumbers(b: Octet)
    ensures var f := Num(b);
            if f < 0x80 then Announces(b, f, 0)
            else if f < 0xC0 then Announces(b, f - 0x80, 1)
            else if f < 0xE0 then Announces(b, f - 0xC0, 2)
            else if f < 0xF0 then Announces(b, f - 0xE0, 3)
            else (f == 0xF0 ==> Announces(b, 0, 4)) && (f == 0xF4 ==> Announces(b, 0, 8))
  {
    PrefixByNumbers(b);
    MaskByNumbers(b);
    LongPrefixes(b);
  }

  lemma NothingAnnounced(buf: Octets)
    requires buf != [] && Num(buf[0]) > 0xF0 && Num(buf[0]) != 0xF4
    ensures Read(buf) == Err
  {
    PrefixByNumbers(buf[0]);
    LongPrefixes(buf[0]);
  }

  lemma LongPrefixes(b: Octet)
    ensures b == 0xF0 <==> Num(b) == 0xF0
    ensures b == 0xF4 <==> Num(b) == 0xF4
  {
    CountIsConversion(b);
  }

  /** The number whose digits to the base 256 are `high` and the next k bytes. */
  function ReadTail(buf: Octets, high: nat, k: nat): Result<Varint> {
    if |buf| < k + 1 then Err else Ok(Varint(Radix(k) * high + BigValue(buf[1..k + 1]), k + 1))
  }

  /** How many bytes follow the first one. */
  function TailLength(v: nat): nat {
    if v < 0x80 then 0 else if v < 0x4000 then 1 else if v < 0x20_0000 then 2
    else if v < 0x1000_0000 then 3 else if v < U32_LIMIT then 4 else 8
  }

  /** The first byte before k more: the prefix bits and the bits above the tail. */
  function FirstByte(v: nat, k: nat): Octet {
    var b := Byte(Shifted(v, k));
    if k == 0 then b
    else if k == 1 then 0x80 | (b & 0x3F)
    else if k == 2 then 0xC0 | (b & 0x1F)
    else if k == 3 then 0xE0 | (b & 0x0F)
    else if k == 4 then 0xF0
    else 0xF4
  }

  function Write(v: nat): (s: Octets)
    ensures |s| == TailLength(v) + 1
  {
    var k := TailLength(v);
    [FirstByte(v, k)] + BigEndian(v, k)
  }

  lemma TailAt(first: Octet, t: Octets, rest: Octets)
    ensures ([first] + t + rest)[1..|t| + 1] == t
  {
  }

  lemma TakeIs(buf: Octets, high: nat, k: nat, t: Octets)
    requires |buf| >= k + 1 && buf[1..k + 1] == t
    ensures Take(buf, high, k) == Ok(Varint(Composed(high, k, BigValue(t)), k + 1))
  {
  }

  lemma TakeBack(first: Octet, v: nat, k: nat, rest: Octets)
    ensures Take([first] + BigEndian(v, k) + rest, Shifted(v, k), k) == Ok(Varint(v, k + 1))
  {
    var t := BigEndian(v, k);
    TailAt(first, t, rest);
    TakeIs([first] + t + rest, Shifted(v, k), k, t);
    BigEndianRoundTrip(v, k);
    ShiftedSplit(v, k);
  }

  /** The prefix bits of a written first byte are the ones that the reader tests,
  and the rest of it is the number put there. */
  lemma TwoBytePrefix(b: Octet)
    requires Num(b) < 0x40
    ensures var f := 0x80 | (b & 0x3F); f & 0x80 != 0 && f & 0xC0 == 0x80 && f & 0x3F == b
  {
    CountIsConversion(b);
  }

  lemma ThreeBytePrefix(b: Octet)
    requires Num(b) < 0x20
    ensures var f := 0xC0 | (b & 0x1F); f & 0x80 != 0 && f & 0xC0 != 0x80 && f & 0xE0 == 0xC0 && f & 0x1F == b
  {
    CountIsConversion(b);
  }

  lemma FourBytePrefix(b: Octet)
    requires Num(b) < 0x10
    ensures var f := 0xE0 | (b & 0x0F);
            f & 0x80 != 0 && f & 0xC0 != 0x80 && f & 0xE0 != 0xC0 && f & 0xF0 == 0xE0 && f & 0x0F == b
  {
    CountIsConversion(b);
  }

  /** First byte f announces k more bytes and holds the bits above them. */
  predicate Announces(f: Octet, high: nat, k: nat) {
    || (k == 0 && f & 0x80 == 0 && Num(f) == high)
    || (k == 1 && f & 0x80 != 0 && f & 0xC0 == 0x80 && Num(f & 0x3F) == high)
    || (k == 2 && f & 0x80 != 0 && f & 0xC0 != 0x80 && f & 0xE0 == 0xC0 && Num(f & 0x1F) == high)
    || (k == 3 && f & 0x80 != 0 && f & 0xC0 != 0x80 && f & 0xE0 != 0xC0 && f & 0xF0 == 0xE0 && Num(f & 0x0F) == high)
    || (k == 4 && f == 0xF0 && high == 0)
    || (k == 8 && f == 0xF4 && high == 0)
  }

  lemma AnnouncedRead(buf: Octets, high: nat, k: nat)
    requires buf != [] && Announces(buf[0], high, k)
    ensures Read(buf) == Take(buf, high, k)
  {
    if k == 0 {
      assert buf[1..1] == [];
    }
  }

  lemma FirstByteAnnounces(v: nat, k: nat)
    requires k == TailLength(v) && v < U64_LIMIT
    ensures Announces(FirstByte(v, k), Shifted(v, k), k)
  {
    ShiftedFits(v, k);
    var b := Byte(Shifted(v, k));
    if k == 0 {
      PrefixByNumbers(b);
    } else if k == 1 {
      TwoBytePrefix(b);
    } else if k == 2 {
      ThreeBytePrefix(b);
    } else if k == 3 {
      FourBytePrefix(b);
    }
  }

  lemma ShiftedFits(v: nat, k: nat)
    requires k == TailLength(v) && v < U64_LIMIT
    ensures Shifted(v, k) < if k == 0 then 0x80 else if k == 1 then 0x40 else if k == 2 then 0x20 else if k == 3 then 0x10 else 1
  {
    if k == 1 {
      ShiftedBound(v, 1, 0x40);
    } else if k == 2 {
      ShiftedBound(v, 2, 0x20);
    } else if k == 3 {
      ShiftedBound(v, 3, 0x10);
    } else if k == 4 {
      ShiftedBound(v, 4, 1);
    } else if k == 8 {
      ShiftedBound(v, 8, 1);
    }
  }

  /** For every 64-bit value and whatever bytes follow, reading what was written
  gives the value and the number of bytes written. */
  lemma VarintRoundTrip(v: nat, rest: Octets)
    requires v < U64_LIMIT
    ensures Read(Write(v) + rest) == Ok(Varint(v, |Write(v)|))
  {
    var k := TailLength(v);
    var f := FirstByte(v, k);
    FirstByteAnnounces(v, k);
    TakeBack(f, v, k, rest);
    AnnouncedRead([f] + BigEndian(v, k) + rest, Shifted(v, k), k);
  }

  lemma TakeBound(buf: Octets, high: nat, k: nat, m: nat)
    requires high < m && Take(buf, high, k).Ok?
    ensures Take(buf, high, k).value.value < Radix(k) * m
  {
    var d, t := Radix(k), BigValue(buf[1..k + 1]);
    assert t < d;
    Stretch(d, high, m);
    assert Take(buf, high, k).value.value == d * high + t;
  }

  /** No accepted encoding of a value is shorter than the one written. */
  lemma WriteIsShortest(buf: Octets)
    requires Read(buf).Ok?
    ensures Read(buf).value.value < U64_LIMIT
    ensures TailLength(Read(buf).value.value) + 1 <= Read(buf).value.length <= |buf|
  {
    var first := buf[0];
    PrefixByNumbers(first);
    MaskByNumbers(first);
    if first & 0x80 == 0 {
    } else if first & 0xC0 == 0x80 {
      TakeBound(buf, Num(first & 0x3F), 1, 0x40);
    } else if first & 0xE0 == 0xC0 {
      TakeBound(buf, Num(first & 0x1F), 2, 0x20);
    } else if first & 0xF0 == 0xE0 {
      TakeBound(buf, Num(first & 0x0F), 3, 0x10);
    } else if first == 0xF0 {
      TakeBound(buf, 0, 4, 1);
    } else {
      TakeBound(buf, 0, 8, 1);
    }
  }

  /** The writer, pushing byte by byte. */
  method WriteVarint(buf: Octets, v: nat) returns (out: Octets)
    ensures out == buf + Write(v)
  {
    var first, k;
    if v < 0x80 {
      first, k := Byte(v), 0;
    } else if v < 0x4000 {
      first, k := 0x80 | (Byte(Shifted(v, 1)) & 0x3F), 1;
    } else if v < 0x20_0000 {
      first, k := 0xC0 | (Byte(Shifted(v, 2)) & 0x1F), 2;
    } else if v < 0x1000_0000 {
      first, k := 0xE0 | (Byte(Shifted(v, 3)) & 0x0F), 3;
    } else if v < U32_LIMIT {
      first, k := 0xF0, 4;
    } else {
      first, k := 0xF4, 8;
    }
    assert k == TailLength(v) && first == FirstByte(v, k);
    out := PushTail(buf + [first], v, k);
  }

  lemma {:induction false} TailSplit(v: nat, k: nat, j: nat)
    requires j < k
    ensures BigEndian(Shifted(v, j), k - j) == BigEndian(Shifted(v, j + 1), k - j - 1) + [Byte(Shifted(v, j))]
  {
    ShiftedStep(v, j);
  }

  lemma {:induction false} ShiftedStep(v: nat, j: nat)
    ensures Shifted(v, j + 1) == Shifted(v, j) / 256
  {
    if j > 0 {
      ShiftedStep(v / 256, j - 1);
    }
  }

  method PushTail(buf: Octets, v: nat, k: nat) returns (out: Octets)
    ensures out == buf + BigEndian(v, k)
  {
    out := buf;
    var shift := k;
    assert BigEndian(Shifted(v, k), 0) == [];
    while shift > 0
      invariant 0 <= shift <= k
      invariant out == buf + BigEndian(Shifted(v, shift), k - shift)
    {
      TailSplit(v, k, shift - 1);
      shift := shift - 1;
      out := out + [Byte(Shifted(v, shift))];
    }
  }

  // -- The legacy audio packet ----------------------------------------

  /** The fields that the packet carries; the sender's session only comes in on
  the way from the server. */
  datatype Audio = Audio(target: nat, session: nat, frame: nat, opus: Octets, terminator: bool)

  function LengthField(opus: nat, terminator: bool): nat {
    opus % 0x2000 + if terminator then 0x2000 else 0
  }

  /** Client to server: no session. */
  function Encode(a: Audio): Octets {
    [0x80 | (Byte(a.target) & 0x1F)] + Write(a.frame) + Write(LengthField(|a.opus|, a.terminator)) + a.opus
  }

  /** A varint at the front: its value and what follows it. */
  function Next(s: Octets): Result<(nat, Octets)> {
    var v := Read(s);
    if v.Err? || v.value.length > |s| then Err else Ok((v.value.value, s[v.value.length..]))
  }

  function DecodePayload(target: nat, session: nat, frame: nat, s: Octets): Result<Audio> {
    var field := Next(s);
    if field.Err? then Err
    else
      var (lenTerm, body) := field.value;
      var n := lenTerm % 0x2000;
      if n > |body| then Err
      else Ok(Audio(target, session, frame, body[..n], lenTerm / 0x2000 % 2 == 1))
  }

  function DecodeFrame(target: nat, session: nat, s: Octets): Result<Audio> {
    var frame := Next(s);
    if frame.Err? then Err else DecodePayload(target, session, frame.value.0, frame.value.1)
  }

  function Decode(data: Octets): Result<Audio> {
    if data == [] || data[0] >> 5 != 4 then Err
    else
      var session := Next(data[1..]);
      if session.Err? then Err
      else DecodeFrame(Num(data[0] & 0x1F), session.value.0 % U32_LIMIT, session.value.1)
  }

  /** What the server makes of a client's packet: the session goes in after the
  header. */
  function Relay(data: Octets, session: nat): Octets
    requires data != []
  {
    [data[0]] + Write(session) + data[1..]
  }

  /** Octets that read as v, whatever follows them. */
  ghost predicate ReadsAs(w: Octets, v: nat) {
    forall rest: Octets :: Read(w + rest) == Ok(Varint(v, |w|))
  }

  lemma WrittenReadsAs(v: nat)
    requires v < U64_LIMIT
    ensures ReadsAs(Write(v), v)
  {
    forall rest: Octets ensures Read(Write(v) + rest) == Ok(Varint(v, |Write(v)|)) {
      VarintRoundTrip(v, rest);
    }
  }

  lemma HeaderBits(b: Octet)
    ensures (0x80 | (b & 0x1F)) >> 5 == 4
    ensures (0x80 | (b & 0x1F)) & 0x1F == b & 0x1F
    ensures Num(b & 0x1F) == Num(b) % 0x20
  {
    CountIsConversion(b);
    CountIsConversion(b & 0x1F);
  }

  lemma LengthFieldParts(n: nat, terminator: bool)
    ensures var f := LengthField(n, terminator);
            f < 0x4000 && f % 0x2000 == n % 0x2000 && (f / 0x2000 % 2 == 1 <==> terminator)
  {
  }

  lemma NextReads(w: Octets, v: nat, rest: Octets)
    requires ReadsAs(w, v)
    ensures Next(w + rest) == Ok((v, rest))
  {
    assert (w + rest)[|w|..] == rest;
  }

  lemma SmallSession(session: nat)
    requires session < U32_LIMIT
    ensures session % U32_LIMIT == session
  {
  }

  /** Decoding goes by what the three varints read as. */
  lemma DecodeParts(h: Octet, ws: Octets, wf: Octets, wl: Octets, session: nat, frame: nat, field: nat, body: Octets)
    requires ReadsAs(ws, session) && ReadsAs(wf, frame) && ReadsAs(wl, field)
    requires h >> 5 == 4
    ensures Decode([h] + (ws + (wf + (wl + body)))) ==
            if field % 0x2000 > |body| then Err
            else Ok(Audio(Num(h & 0x1F), session % U32_LIMIT, frame, body[..field % 0x2000], field / 0x2000 % 2 == 1))
  {
    var at0 := ws + (wf + (wl + body));
    assert ([h] + at0)[1..] == at0;
    NextReads(ws, session, wf + (wl + body));
    NextReads(wf, frame, wl + body);
    NextReads(wl, field, body);
  }

  lemma Regroup(h: Octet, ws: Octets, wf: Octets, wl: Octets, opus: Octets)
    ensures var e := [h] + wf + wl + opus;
            [e[0]] + ws + e[1..] == [h] + (ws + (wf + (wl + opus)))
  {
    var e := [h] + wf + wl + opus;
    assert e == [h] + (wf + (wl + opus));
    assert e[1..] == wf + (wl + opus);
    assert [h] + ws + (wf + (wl + opus)) == [h] + (ws + (wf + (wl + opus)));
  }

  lemma DecodeRelayed(h: Octet, ws: Octets, wf: Octets, wl: Octets, session: nat, frame: nat, opus: Octets, term: bool)
    requires ReadsAs(ws, session) && ReadsAs(wf, frame) && ReadsAs(wl, LengthField(|opus|, term))
    requires session < U32_LIMIT && h >> 5 == 4
    ensures var e := [h] + wf + wl + opus;
            Decode([e[0]] + ws + e[1..]) == Ok(Audio(Num(h & 0x1F), session, frame, opus[..|opus| % 0x2000], term))
  {
    LengthFieldParts(|opus|, term);
    SmallSession(session);
    Regroup(h, ws, wf, wl, opus);
    DecodeParts(h, ws, wf, wl, session, frame, LengthField(|opus|, term), opus);
  }

  /** A packet that the server passes on with the sender's session is decoded to
  the same frame number, payload and terminator, and to the target's low five
  bits, exactly when the payload has fewer than 8192 bytes; a longer payload is
  cut to its length modulo 8192. */
  lemma RelayedRoundTrip(a: Audio, session: nat)
    requires session < U32_LIMIT && a.frame < U64_LIMIT
    ensures Decode(Relay(Encode(a), session))
         == Ok(Audio(a.target % 0x20, session, a.frame, a.opus[..|a.opus| % 0x2000], a.terminator))
    ensures a.opus[..|a.opus| % 0x2000] == a.opus <==> |a.opus| < 0x2000
  {
    var field := LengthField(|a.opus|, a.terminator);
    assert field < U64_LIMIT by {
      LengthFieldParts(|a.opus|, a.terminator);
    }
    var ws := WrittenAs(session);
    var wf := WrittenAs(a.frame);
    var wl := WrittenAs(field);
    HeaderBits(Byte(a.target));
    TargetBits(a.target);
    DecodeRelayed(0x80 | (Byte(a.target) & 0x1F), ws, wf, wl, session, a.frame, a.opus, a.terminator);
    PayloadCut(a.opus);
  }

  lemma WrittenAs(v: nat) returns (w: Octets)
    requires v < U64_LIMIT
    ensures w == Write(v) && ReadsAs(w, v)
  {
    w := Write(v);
    WrittenReadsAs(v);
  }

  lemma PayloadCut(opus: Octets)
    ensures opus[..|opus| % 0x2000] == opus <==> |opus| < 0x2000
  {
    var n := |opus| % 0x2000;
    assert n == |opus| <==> |opus| < 0x2000;
    assert |opus[..n]| == n;
  }

  lemma TargetBits(target: nat)
    ensures Num(Byte(target)) % 0x20 == target % 0x20
  {
    var q, r := target / 0x100, target % 0x100;
    UniqueRemainder(target, 0x20, 8 * q + r / 0x20, r % 0x20);
  }

  lemma ReadKeepsReading(buf: Octets)
    requires Read(buf).Ok?
    ensures Read(buf).value.length <= |buf|
    ensures ReadsAs(buf[..Read(buf).value.length], Read(buf).value.value)
  {
    WriteIsShortest(buf);
    var n := Read(buf).value.length;
    forall rest: Octets ensures Read(buf[..n] + rest) == Read(buf) {
      ReadExactly(buf);
      ReadExactly(buf[..n] + rest);
      assert (buf[..n] + rest)[1..n] == buf[1..n];
    }
    assert |buf[..n]| == n;
  }

  /** The layout of a packet from the server: the header h, the session, the frame
  number and the length field as varints, and the rest. */
  ghost predicate LaidOut(data: Octets, h: Octet, session: nat, frame: nat, field: nat, body: Octets) {
    exists ws, wf, wl ::
      && data == [h] + (ws + (wf + (wl + body)))
      && ReadsAs(ws, session) && ReadsAs(wf, frame) && ReadsAs(wl, field)
  }

  lemma NextSplits(s: Octets) returns (w: Octets)
    requires Next(s).Ok?
    ensures s == w + Next(s).value.1 && ReadsAs(w, Next(s).value.0)
  {
    ReadKeepsReading(s);
    w := s[..Read(s).value.length];
  }

  lemma DecodedIsLaidOut(data: Octets) returns (session: nat, frame: nat, field: nat, body: Octets)
    requires Decode(data).Ok?
    ensures LaidOut(data, data[0], session, frame, field, body) && field % 0x2000 <= |body|
  {
    var at0 := data[1..];
    var ws := NextSplits(at0);
    var at1 := Next(at0).value.1;
    var wf := NextSplits(at1);
    var at2 := Next(at1).value.1;
    var wl := NextSplits(at2);
    session, frame, field, body := Next(at0).value.0, Next(at1).value.0, Next(at2).value.0, Next(at2).value.1;
    assert data == [data[0]] + (ws + (wf + (wl + body)));
  }

  /** Which byte strings are packets, and what they mean: type 4 in the top three
  bits of the header and the target below; a session kept to 32 bits; a frame
  number; and a length field whose low 13 bits count the payload, which must be
  there in full, and whose next bit marks the last packet. */
  lemma DecodeExactly(h: Octet, ws: Octets, wf: Octets, wl: Octets, session: nat, frame: nat, field: nat, body: Octets)
    requires ReadsAs(ws, session) && ReadsAs(wf, frame) && ReadsAs(wl, field)
    ensures Decode([h] + (ws + (wf + (wl + body)))) ==
            if Num(h) / 0x20 != 4 || field % 0x2000 > |body| then Err
            else Ok(Audio(Num(h) % 0x20, session % U32_LIMIT, frame, body[..field % 0x2000], field / 0x2000 % 2 == 1))
  {
    HeaderByNumbers(h);
    if h >> 5 == 4 {
      DecodeParts(h, ws, wf, wl, session, frame, field, body);
    }
  }

  lemma HeaderByNumbers(h: Octet)
    ensures h >> 5 == 4 <==> Num(h) / 0x20 == 4
    ensures Num(h & 0x1F) == Num(h) % 0x20
  {
    CountIsConversion(h);
    CountIsConversion(h & 0x1F);
  }

  /** Nothing else is a packet. */
  lemma OnlyLaidOutDecodes(data: Octets)
    requires Decode(data).Ok?
    ensures exists h, session: nat, frame: nat, field: nat, body ::
              LaidOut(data, h, session, frame, field, body) && field % 0x2000 <= |body|
  {
    var session, frame, field, body := DecodedIsLaidOut(data);
  }

  method EncodePacket(a: Audio) returns (buf: Octets)
    ensures buf == Encode(a)
  {
    buf := [0x80 | (Byte(a.target) & 0x1F)];
    buf := WriteVarint(buf, a.frame);
    var lenTerm := |a.opus| % 0x2000;
    if a.terminator {
      lenTerm := lenTerm + 0x2000;
    }
    buf := WriteVarint(buf, lenTerm);
    buf := buf + a.opus;
  }

  /** The decoder, advancing a position over the packet. */
  method DecodePacket(data: Octets) returns (r: Result<Audio>)
    ensures r == Decode(data)
  {
    if data == [] || data[0] >> 5 != 4 {
      return Err;
    }
    var pos := 1;
    var session := Read(data[pos..]);
    if session.Err? {
      return Err;
    }
    WriteIsShortest(data[pos..]);
    ghost var at0 := data[1..];
    pos := pos + session.value.length;
    assert data[pos..] == at0[session.value.length..];
    var frame := Read(data[pos..]);
    if frame.Err? {
      return Err;
    }
    WriteIsShortest(data[pos..]);
    ghost var at1 := data[pos..];
    pos := pos + frame.value.length;
    assert data[pos..] == at1[frame.value.length..];
    var lenTerm := Read(data[pos..]);
    if lenTerm.Err? {
      return Err;
    }
    WriteIsShortest(data[pos..]);
    ghost var at2 := data[pos..];
    pos := pos + lenTerm.value.length;
    assert data[pos..] == at2[lenTerm.value.length..];
    var opusLen := lenTerm.value.value % 0x2000;
    if pos + opusLen > |data| {
      return Err;
    }
    assert data[pos..pos + opusLen] == data[pos..][..opusLen];
    r := Ok(Audio(Num(data[0] & 0x1F), session.value.value % U32_LIMIT, frame.value.value,
                  data[pos..pos + opusLen], lenTerm.value.value / 0x2000 % 2 == 1));
  }
}
