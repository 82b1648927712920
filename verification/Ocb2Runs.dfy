/** Whole runs of the cipher state: what a receiver makes of any sequence of
datagrams, honest or not, lost, late or repeated.

Nonces are followed as unbounded counters: a receiver whose nonce is `Nonce(n)`
stands at counter n, and n grows past 2^128 while the 16 bytes wrap. */
module Ocb2Runs {
  import opened Bytes
  import opened Gf128
  import opened Ocb2Mode
  import opened Ocb2State

  // -- Nonces as counters ---------------------------------------------

  function Nonce(n: nat): Block {
    Digits(n, 16)
  }

  /** Nonce byte 0, as an index into the history. */
  function Slot(n: int): nat {
    n % 256
  }

  /** How often nonce byte 0 has wrapped. */
  function Lap(n: nat): nat {
    n / 256
  }

  /** Nonce byte 1. */
  function LapByte(n: nat): Octet {
    Byte(n / 256)
  }

  function Max(m: nat, n: nat): nat {
    if m < n then n else m
  }

  lemma NonceBytes(n: nat)
    ensures Nonce(n) == [Byte(n)] + Digits(Lap(n), 15)
    ensures Nonce(n)[0] == Byte(n) && Num(Nonce(n)[0]) == Slot(n)
    ensures Nonce(n)[1] == LapByte(n)
    ensures Nonce(n)[1..] == Digits(Lap(n), 15)
  {
    assert Digits(n / 256, 15)[0] == Byte(n / 256);
  }

  lemma NonceOfValue(iv: Block)
    ensures Nonce(Value(iv)) == iv
  {
    DigitsOfValue(iv);
  }

  lemma LapBytesDiffer(m: nat, n: nat)
    requires Lap(m) % 256 != Lap(n) % 256
    ensures LapByte(m) != LapByte(n)
  {
    assert Num(LapByte(m)) != Num(LapByte(n));
  }

  lemma ByteIs(n: nat, b: Octet)
    ensures b == Byte(n) <==> Num(b) == n % 256
  {
    if Num(b) == n % 256 {
      ByteOf(n, b);
    }
  }

  lemma BytesEqual(m: nat, n: nat)
    ensures Byte(m) == Byte(n) <==> m % 256 == n % 256
  {
    if m % 256 == n % 256 {
      ByteOf(m, Byte(n));
    }
  }

  // -- Rebuilding a nonce from one byte -------------------------------

  /** The packets a receiver at counter n can place: the next one, or one at most
  29 away on the same lap of nonce byte 0. */
  predicate InWindow(n: nat, v: nat) {
    v == n + 1 || (Lap(v) == Lap(n) && v != n && -30 < v - n < 30)
  }

  /** The counter that a receiver at n reads into nonce byte b. */
  function Placed(n: nat, b: Octet): nat {
    if b == Byte(n + 1) then n + 1 else 256 * Lap(n) + Num(b)
  }

  lemma LocateSuccessor(iv: Block)
    ensures Increment(iv)[0] == iv[0] + 1
    ensures Locate(iv, iv[0] + 1) == InOrder(Increment(iv))
  {
    NumSuccessor(iv[0]);
  }

  lemma LocateNext(n: nat)
    ensures Locate(Nonce(n), Byte(n + 1)) == InOrder(Nonce(n + 1))
  {
    LocateSuccessor(Nonce(n));
    IncrementCounts(n, 16);
    NonceBytes(n + 1);
  }

  lemma LocateSameLap(n: nat, v: nat)
    requires InWindow(n, v) && v != n + 1
    ensures Locate(Nonce(n), Byte(v)) == if v < n then Late(Nonce(v)) else Skipped(Nonce(v), v - n - 1)
  {
    NonceBytes(n);
    NonceBytes(v);
    SlotDistance(n, v);
    assert Slot(v) != (Slot(n) + 1) % 256;
  }

  lemma LocateInWindow(n: nat, v: nat)
    requires InWindow(n, v)
    ensures Locate(Nonce(n), Byte(v)) ==
            if v == n + 1 then InOrder(Nonce(v))
            else if v < n then Late(Nonce(v))
            else Skipped(Nonce(v), v - n - 1)
  {
    if v == n + 1 {
      LocateNext(n);
    } else {
      LocateSameLap(n, v);
    }
  }

  lemma LapOfNext(n: nat)
    ensures Slot(n + 1) == (Slot(n) + 1) % 256
    ensures Lap(n + 1) == if Slot(n) == 255 then Lap(n) + 1 else Lap(n)
  {
  }

  lemma SlotDistance(n: nat, v: nat)
    requires Lap(n) == Lap(v)
    ensures Slot(v) - Slot(n) == v - n
  {
  }

  lemma PlacedInWindow(n: nat, b: Octet)
    requires !Locate(Nonce(n), b).Unplaced?
    ensures InWindow(n, Placed(n, b)) && Byte(Placed(n, b)) == b
  {
    NonceBytes(n);
    LapOfNext(n);
    var v := Placed(n, b);
    ByteIs(n + 1, b);
    if b != Byte(n + 1) {
      assert Lap(v) == Lap(n) && Slot(v) == Num(b);
      SlotDistance(n, v);
      ByteOf(v, b);
    }
  }

  lemma SameLapBelow(n: nat, v: nat, m: nat)
    requires Lap(v) == Lap(n) && n < 256 * m
    ensures v < 256 * m
  {
  }

  lemma NonceInjective(m: nat, n: nat)
    requires m < Radix(16) && n < Radix(16) && Nonce(m) == Nonce(n)
    ensures m == n
  {
    DigitsEqual(m, n, 16);
    UniqueRemainder(m, Radix(16), 0, m);
    UniqueRemainder(n, Radix(16), 0, n);
  }

  /** A receiver rebuilds the sender's full 16-byte nonce exactly for the packets
  in its window, and for no other packet before the counter wraps. */
  lemma RebuildsExactlyInWindow(n: nat, v: nat)
    requires n + 1 < Radix(16) && v < Radix(16)
    ensures var a := Locate(Nonce(n), Byte(v));
            (!a.Unplaced? && a.iv == Nonce(v)) <==> InWindow(n, v)
  {
    var a := Locate(Nonce(n), Byte(v));
    if InWindow(n, v) {
      LocateInWindow(n, v);
    }
    if !a.Unplaced? && a.iv == Nonce(v) {
      PlacedInWindow(n, Byte(v));
      var w := Placed(n, Byte(v));
      LocateInWindow(n, w);
      if w != n + 1 {
        SameLapBelow(n, w, Radix(15));
      }
      NonceInjective(v, w);
    }
  }

  // -- One step, for any datagram -------------------------------------

  /** One call of the receiver, as a function value. */
  type Step = (Receiver, Octets) -> (Receiver, Result<Octets>)

  function StepOf(open: Opener): Step {
    (r: Receiver, data: Octets) => Receive(open, r, data)
  }

  /** The counter of an accepted datagram. */
  function CounterOf(n: nat, data: Octets): nat
    requires data != []
  {
    Placed(n, data[0])
  }

  /** A datagram that a receiver at counter n must take as packet v: long enough,
  its byte that of v in the window, v not on record, and its three tag bytes those
  that decryption under the nonce of v computes. */
  predicate Authentic(open: Opener, n: nat, h: History, data: Octets, v: nat) {
    && |data| >= 4 && InWindow(n, v) && data[0] == Byte(v)
    && h[Slot(v)] != LapByte(v)
    && open(Nonce(v), data[4..]).tag[..3] == data[1..4]
  }

  /** What one datagram does to a receiver at counter n: one that is authentic
  under no counter nothing; an authentic one is decrypted under its own nonce, put
  on record, moves the nonce only forward, and is counted. */
  ghost predicate StepLaw(open: Opener, step: Step, n: nat, r: Receiver, data: Octets) {
    var (r', o) := step(r, data);
    if o.Err? then r' == r && forall v: nat :: !Authentic(open, n, r.history, data, v)
    else
      && data != []
      && var v := CounterOf(n, data);
      && Authentic(open, n, r.history, data, v)
      && o.value == open(Nonce(v), data[4..]).text
      && r'.history == r.history[Slot(v) := LapByte(v)]
      && r'.iv == Nonce(Max(n, v))
      && r'.stats.good == r.stats.good + 1
      && r'.stats.lost == r.stats.lost + (if v > n then v - n - 1 else 0)
      && r'.stats.late == (if v < n && r.stats.late == 0 then 1 else r.stats.late)
      && r'.stats.resync == r.stats.resync
  }

  ghost predicate Lawful(open: Opener, step: Step) {
    forall n: nat, r: Receiver, data: Octets | r.iv == Nonce(n) :: StepLaw(open, step, n, r, data)
  }

  lemma AcceptedStep(open: Opener, n: nat, r: Receiver, data: Octets)
    requires r.iv == Nonce(n) && Receive(open, r, data).1.Ok?
    ensures |data| >= 4
    ensures Receive(open, r, data).1 == Ok(open(Nonce(CounterOf(n, data)), data[4..]).text)
    ensures StepLaw(open, StepOf(open), n, r, data)
  {
    var v := CounterOf(n, data);
    PlacedInWindow(n, data[0]);
    LocateInWindow(n, v);
    NonceBytes(v);
    ReceiveAs(open, n, r, data, v);
  }

  lemma TagByBytes(tag: Block, data: Octets)
    requires |data| >= 4
    ensures TagMatches(tag, data) <==> tag[..3] == data[1..4]
  {
    assert |tag[..3]| == |data[1..4]| == 3;
    assert tag[..3][0] == tag[0] && tag[..3][1] == tag[1] && tag[..3][2] == tag[2];
    assert data[1..4][0] == data[1] && data[1..4][1] == data[2] && data[1..4][2] == data[3];
  }

  /** A datagram whose byte is that of a packet in the window: it is checked as
  that packet, the history first and the tag second. */
  lemma ReceiveAs(open: Opener, n: nat, r: Receiver, data: Octets, v: nat)
    requires r.iv == Nonce(n) && |data| >= 4 && InWindow(n, v) && data[0] == Byte(v)
    ensures var s := open(Nonce(v), data[4..]);
            Receive(open, r, data).1 ==
            if r.history[Slot(v)] == LapByte(v) then Err(Replay)
            else if s.tag[..3] != data[1..4] then Err(AuthenticationFailed)
            else Ok(s.text)
  {
    LocateInWindow(n, v);
    NonceBytes(v);
    TagByBytes(open(Nonce(v), data[4..]).tag, data);
  }

  /** The byte b is that of packet v in the window, and v is already on record. */
  predicate OnRecordAs(n: nat, h: History, b: Octet, v: nat) {
    InWindow(n, v) && b == Byte(v) && h[Slot(v)] == LapByte(v)
  }

  /** The outcome of every datagram. It is accepted exactly when it is authentic
  under some counter, and then it yields that packet's text; a short one, one whose
  byte no packet in the window has, and one on record are each told apart, and
  what is left fails the tag. */
  lemma ReceiveExactly(open: Opener, n: nat, r: Receiver, data: Octets)
    requires r.iv == Nonce(n)
    ensures var o := Receive(open, r, data).1;
            && (o.Ok? <==> exists v: nat :: Authentic(open, n, r.history, data, v))
            && (forall v: nat :: Authentic(open, n, r.history, data, v) ==>
                  o == Ok(open(Nonce(v), data[4..]).text))
            && (o == Err(TooShort) <==> |data| < 4)
            && (o == Err(OutOfRange) <==> |data| >= 4 && forall v: nat | InWindow(n, v) :: data[0] != Byte(v))
            && (o == Err(Replay) <==> |data| >= 4 && exists v: nat :: OnRecordAs(n, r.history, data[0], v))
            && (o.Err? ==> o.error in {TooShort, OutOfRange, Replay, AuthenticationFailed})
  {
    if |data| >= 4 {
      if v: nat :| InWindow(n, v) && data[0] == Byte(v) {
        ReceiveAs(open, n, r, data, v);
        assert Receive(open, r, data).1.Ok? ==> Authentic(open, n, r.history, data, v);
        assert Receive(open, r, data).1 == Err(Replay) ==> OnRecordAs(n, r.history, data[0], v);
        forall w: nat | InWindow(n, w) && data[0] == Byte(w) ensures w == v {
          PlacedBack(n, v);
          PlacedBack(n, w);
        }
      } else if !Locate(Nonce(n), data[0]).Unplaced? {
        PlacedInWindow(n, data[0]);
      }
    }
  }

  /** The receiver obeys the step law for every datagram, whatever its decryption
  function returns. */
  lemma ReceiverIsLawful(open: Opener)
    ensures Lawful(open, StepOf(open))
  {
    forall n: nat, r: Receiver, data: Octets | r.iv == Nonce(n) ensures StepLaw(open, StepOf(open), n, r, data) {
      if Receive(open, r, data).1.Ok? {
        AcceptedStep(open, n, r, data);
      } else {
        RejectedStep(open, r, data);
        ReceiveExactly(open, n, r, data);
      }
    }
  }

  lemma RejectedStep(open: Opener, r: Receiver, data: Octets)
    requires Receive(open, r, data).1.Err?
    ensures Receive(open, r, data).0 == r
  {
  }

  /** A packet of the honest sender, inside the window: it is decrypted to what
  was sent unless its history slot already holds its second nonce byte. */
  lemma Delivered(open: Opener, seal: Sealer, n: nat, r: Receiver, v: nat, plain: Octets)
    requires Undoes(open, seal) && r.iv == Nonce(n) && InWindow(n, v)
    ensures Receive(open, r, Wire(seal, Nonce(v), plain)).1
         == if r.history[Slot(v)] == LapByte(v) then Err(Replay) else Ok(plain)
    ensures CounterOf(n, Wire(seal, Nonce(v), plain)) == v
  {
    PlacedBack(n, v);
    LocateInWindow(n, v);
    NonceBytes(v);
    AdmitHonest(open, seal, r, Locate(Nonce(n), Byte(v)), plain);
  }

  lemma AdmitHonest(open: Opener, seal: Sealer, r: Receiver, a: Arrival, plain: Octets)
    requires Undoes(open, seal) && !a.Unplaced?
    ensures Admit(open, r, a, Wire(seal, a.iv, plain)).1
         == if r.history[Num(a.iv[0])] == a.iv[1] then Err(Replay) else Ok(plain)
  {
    assert Wire(seal, a.iv, plain)[4..] == seal(a.iv, plain).text;
  }

  lemma PlacedBack(n: nat, v: nat)
    requires InWindow(n, v)
    ensures Placed(n, Byte(v)) == v
  {
    BytesEqual(v, n + 1);
    if v != n + 1 {
      SlotDistance(n, v);
      LapOfNext(n);
    }
  }

  // -- Runs -----------------------------------------------------------

  function ReceiveAll(step: Step, r: Receiver, ds: seq<Octets>): (res: (Receiver, seq<Result<Octets>>))
    ensures |res.1| == |ds|
    decreases |ds|
  {
    if ds == [] then (r, [])
    else
      var (r1, o) := step(r, ds[0]);
      var (r2, os) := ReceiveAll(step, r1, ds[1..]);
      (r2, [o] + os)
  }

  /** The counters of the accepted datagrams of a run, in order of arrival. */
  function Counters(step: Step, n: nat, r: Receiver, ds: seq<Octets>): seq<nat>
    decreases |ds|
  {
    if ds == [] then []
    else
      var (r1, o) := step(r, ds[0]);
      if o.Err? || ds[0] == [] then Counters(step, n, r1, ds[1..])
      else
        var v := CounterOf(n, ds[0]);
        [v] + Counters(step, Max(n, v), r1, ds[1..])
  }

  function Newest(n: nat, vs: seq<nat>): (m: nat)
    ensures m >= n
    decreases |vs|
  {
    if vs == [] then n else Newest(Max(n, vs[0]), vs[1..])
  }

  /** How many packets arrived behind a newer one. */
  function LateCount(n: nat, vs: seq<nat>): nat
    decreases |vs|
  {
    if vs == [] then 0
    else (if vs[0] < n then 1 else 0) + LateCount(Max(n, vs[0]), vs[1..])
  }

  /** Conservation over every run without a resync: good plus lost is the distance
  the nonce has advanced plus the accepted late packets. `good` counts exactly
  the accepted packets, `late` only whether there was one at all. */
  lemma {:induction false} PacketsConserved(open: Opener, step: Step, n: nat, r: Receiver, ds: seq<Octets>)
    requires Lawful(open, step) && r.iv == Nonce(n)
    ensures var r' := ReceiveAll(step, r, ds).0;
            var vs := Counters(step, n, r, ds);
            && r'.iv == Nonce(Newest(n, vs))
            && r'.stats.good == r.stats.good + |vs|
            && r'.stats.good + r'.stats.lost
               == r.stats.good + r.stats.lost + (Newest(n, vs) - n) + LateCount(n, vs)
            && r'.stats.late == (if r.stats.late == 0 && LateCount(n, vs) > 0 then 1 else r.stats.late)
            && r'.stats.resync == r.stats.resync
    decreases |ds|
  {
    if ds != [] {
      var (r1, o) := step(r, ds[0]);
      assert StepLaw(open, step, n, r, ds[0]);
      if o.Err? {
        PacketsConserved(open, step, n, r, ds[1..]);
      } else {
        PacketsConserved(open, step, Max(n, CounterOf(n, ds[0])), r1, ds[1..]);
      }
    }
  }

  /** So from a fresh start `late` is the number of late packets exactly as long as
  there is at most one. */
  lemma LateCounterExact(open: Opener, step: Step, n: nat, r: Receiver, ds: seq<Octets>)
    requires Lawful(open, step) && r.iv == Nonce(n) && r.stats.late == 0
    ensures ReceiveAll(step, r, ds).0.stats.late == LateCount(n, Counters(step, n, r, ds))
        <==> LateCount(n, Counters(step, n, r, ds)) <= 1
  {
    PacketsConserved(open, step, n, r, ds);
  }

  /** The accepted counters known so far: none is ahead of n, and those of the
  current lap are on record in the history. */
  ghost predicate OnRecord(n: nat, h: History, seen: set<nat>) {
    forall v <- seen :: v <= n && (Lap(v) == Lap(n) ==> h[Slot(v)] == LapByte(v))
  }

  ghost predicate Distinct(vs: seq<nat>) {
    forall i, j :: 0 <= i < j < |vs| ==> vs[i] != vs[j]
  }

  lemma OnRecordStep(n: nat, h: History, seen: set<nat>, v: nat)
    requires OnRecord(n, h, seen) && InWindow(n, v) && h[Slot(v)] != LapByte(v)
    ensures v !in seen
    ensures OnRecord(Max(n, v), h[Slot(v) := LapByte(v)], seen + {v})
  {
    var n', h' := Max(n, v), h[Slot(v) := LapByte(v)];
    forall w <- seen + {v}
      ensures w <= n' && (Lap(w) == Lap(n') ==> h'[Slot(w)] == LapByte(w))
    {
      if w != v && Lap(w) == Lap(n') {
        assert Lap(v) == Lap(n') && Lap(n) == Lap(w);
        assert Slot(w) != Slot(v);
      }
    }
  }

  /** No counter is accepted twice, whatever datagrams arrive. */
  lemma {:induction false} NoCounterTwice(open: Opener, step: Step, n: nat, r: Receiver, ds: seq<Octets>, seen: set<nat>)
    requires Lawful(open, step) && r.iv == Nonce(n) && OnRecord(n, r.history, seen)
    ensures var vs := Counters(step, n, r, ds);
            Distinct(vs) && forall i :: 0 <= i < |vs| ==> vs[i] !in seen && vs[i] <= Newest(n, vs)
    decreases |ds|
  {
    if ds != [] {
      var (r1, o) := step(r, ds[0]);
      assert StepLaw(open, step, n, r, ds[0]);
      if o.Err? {
        NoCounterTwice(open, step, n, r, ds[1..], seen);
      } else {
        var v := CounterOf(n, ds[0]);
        OnRecordStep(n, r.history, seen, v);
        NoCounterTwice(open, step, Max(n, v), r1, ds[1..], seen + {v});
      }
    }
  }

  /** No full nonce is accepted twice between resyncs, whatever datagrams arrive,
  until the 128-bit counter wraps. */
  lemma NoNonceTwice(open: Opener, step: Step, r: Receiver, ds: seq<Octets>)
    requires Lawful(open, step)
    requires Newest(Value(r.iv), Counters(step, Value(r.iv), r, ds)) < Radix(16)
    ensures var vs := Counters(step, Value(r.iv), r, ds);
            forall i, j :: 0 <= i < j < |vs| ==> Nonce(vs[i]) != Nonce(vs[j])
  {
    var n := Value(r.iv);
    NonceOfValue(r.iv);
    NoCounterTwice(open, step, n, r, ds, {});
    var vs := Counters(step, n, r, ds);
    forall i, j | 0 <= i < j < |vs| ensures Nonce(vs[i]) != Nonce(vs[j]) {
      if Nonce(vs[i]) == Nonce(vs[j]) {
        NonceInjective(vs[i], vs[j]);
      }
    }
  }

  // -- Rejected datagrams leave no trace ------------------------------

  function Kept(step: Step, r: Receiver, ds: seq<Octets>): seq<Octets>
    decreases |ds|
  {
    if ds == [] then []
    else
      var (r1, o) := step(r, ds[0]);
      var rest := Kept(step, r1, ds[1..]);
      if o.Ok? then [ds[0]] + rest else rest
  }

  function Accepted(os: seq<Result<Octets>>): seq<Result<Octets>> {
    if os == [] then []
    else if os[0].Ok? then [os[0]] + Accepted(os[1..])
    else Accepted(os[1..])
  }

  /** Deleting every rejected datagram changes neither the plaintexts handed on
  nor the final state. */
  lemma {:induction false} RejectedLeaveNoTrace(open: Opener, step: Step, r: Receiver, ds: seq<Octets>)
    requires Lawful(open, step)
    ensures ReceiveAll(step, r, Kept(step, r, ds))
         == (ReceiveAll(step, r, ds).0, Accepted(ReceiveAll(step, r, ds).1))
    decreases |ds|
  {
    if ds != [] {
      var (r1, o) := step(r, ds[0]);
      NonceOfValue(r.iv);
      assert StepLaw(open, step, Value(r.iv), r, ds[0]);
      RejectedLeaveNoTrace(open, step, r1, ds[1..]);
    }
  }

  /** A datagram that fails the tag under every nonce. */
  ghost predicate Forged(open: Opener, data: Octets) {
    |data| < 4 || forall v: nat :: open(Nonce(v), data[4..]).tag[..3] != data[1..4]
  }

  ghost function WithoutForgeries(open: Opener, ds: seq<Octets>): seq<Octets> {
    if ds == [] then []
    else if Forged(open, ds[0]) then WithoutForgeries(open, ds[1..])
    else [ds[0]] + WithoutForgeries(open, ds[1..])
  }

  /** Forged datagrams mixed into a run at any places are without effect: the
  plaintexts handed on and the final state are those of the run without them. */
  lemma {:induction false} ForgeriesHaveNoEffect(open: Opener, step: Step, r: Receiver, ds: seq<Octets>)
    requires Lawful(open, step)
    ensures var (r1, os1) := ReceiveAll(step, r, ds);
            var (r2, os2) := ReceiveAll(step, r, WithoutForgeries(open, ds));
            r1 == r2 && Accepted(os1) == Accepted(os2)
    decreases |ds|
  {
    if ds != [] {
      var (r1, o) := step(r, ds[0]);
      NonceOfValue(r.iv);
      assert StepLaw(open, step, Value(r.iv), r, ds[0]);
      ForgeriesHaveNoEffect(open, step, r1, ds[1..]);
    }
  }
}
