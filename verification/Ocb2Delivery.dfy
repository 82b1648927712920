/** An honest sender and a receiver over a network that loses, delays, reorders
and repeats packets.

The `Window` keeps only the newest counter and the history; the theorems say that
the receiver refines it, that a loss-free run delivers everything, and that inside
the first laps every packet is delivered exactly once. */
module Ocb2Delivery {
  import opened Bytes
  import opened Gf128
  import opened Ocb2Mode
  import opened Ocb2State
  import opened Ocb2Runs

  // -- The receiver without cryptography ------------------------------

  datatype Window = Window(newest: nat, history: History)

  predicate Recorded(w: Window, v: nat) {
    w.history[Slot(v)] == LapByte(v)
  }

  function Record(w: Window, v: nat): Window {
    Window(Max(w.newest, v), w.history[Slot(v) := LapByte(v)])
  }

  function Advance(w: Window, v: nat): Window {
    if Recorded(w, v) then w else Record(w, v)
  }

  /** Every packet arrives while it is in the window. */
  ghost predicate Schedule(w: Window, vs: seq<nat>)
    decreases |vs|
  {
    vs != [] ==> InWindow(w.newest, vs[0]) && Schedule(Advance(w, vs[0]), vs[1..])
  }

  function Final(w: Window, vs: seq<nat>): Window
    decreases |vs|
  {
    if vs == [] then w else Final(Advance(w, vs[0]), vs[1..])
  }

  /** Which arrivals are accepted. */
  function Accepts(w: Window, vs: seq<nat>): (bs: seq<bool>)
    ensures |bs| == |vs|
    decreases |vs|
  {
    if vs == [] then [] else [!Recorded(w, vs[0])] + Accepts(Advance(w, vs[0]), vs[1..])
  }

  ghost predicate Tracks(r: Receiver, w: Window) {
    r.iv == Nonce(w.newest) && r.history == w.history
  }

  /** The packets with the given counters, where packet v carries `plain(v)`. */
  function Packets(seal: Sealer, plain: nat -> Octets, vs: seq<nat>): (ds: seq<Octets>)
    ensures |ds| == |vs|
  {
    if vs == [] then [] else [Wire(seal, Nonce(vs[0]), plain(vs[0]))] + Packets(seal, plain, vs[1..])
  }

  /** What an honest packet in the window does: it is decrypted to what was sent
  and put on record, or refused because its slot already holds its second byte. */
  ghost predicate DeliveryLaw(step: Step, seal: Sealer, w: Window, r: Receiver, v: nat, plain: Octets) {
    var (r', o) := step(r, Wire(seal, Nonce(v), plain));
    Tracks(r', Advance(w, v)) && o == if Recorded(w, v) then Err(Replay) else Ok(plain)
  }

  ghost predicate Delivers(step: Step, seal: Sealer) {
    forall w: Window, r: Receiver, v: nat, plain: Octets | Tracks(r, w) && InWindow(w.newest, v) ::
      DeliveryLaw(step, seal, w, r, v, plain)
  }

  /** The receiver obeys the delivery law when opening undoes sealing. */
  lemma ReceiverDelivers(open: Opener, seal: Sealer)
    requires Undoes(open, seal)
    ensures Delivers(StepOf(open), seal)
  {
    forall w: Window, r: Receiver, v: nat, plain: Octets | Tracks(r, w) && InWindow(w.newest, v)
      ensures DeliveryLaw(StepOf(open), seal, w, r, v, plain)
    {
      Delivered(open, seal, w.newest, r, v, plain);
      ReceiverIsLawful(open);
      assert StepLaw(open, StepOf(open), w.newest, r, Wire(seal, Nonce(v), plain));
    }
  }

  /** So the theorems below hold of OCB2 over any block permutation. */
  lemma OcbDelivers(c: Cipher)
    requires IsPermutation(c)
    ensures Delivers(StepOf(OpenerOf(c)), SealerOf(c))
  {
    OcbUndoes(c);
    ReceiverDelivers(OpenerOf(c), SealerOf(c));
  }

  /** For every schedule of losses, delays, reorderings and repeats inside the
  window: each delivered packet gives back what was sent, unless its history slot
  already holds its second nonce byte, and the receiver ends at the nonce of the
  newest accepted packet. */
  lemma {:induction false} WindowDelivery(step: Step, seal: Sealer, w: Window, r: Receiver, vs: seq<nat>,
                                          plain: nat -> Octets)
    requires Delivers(step, seal) && Tracks(r, w) && Schedule(w, vs)
    ensures var (r', os) := ReceiveAll(step, r, Packets(seal, plain, vs));
            && Tracks(r', Final(w, vs))
            && forall i :: 0 <= i < |vs| ==> os[i] == if Accepts(w, vs)[i] then Ok(plain(vs[i])) else Err(Replay)
    decreases |vs|
  {
    if vs != [] {
      var ds := Packets(seal, plain, vs);
      var v := vs[0];
      assert DeliveryLaw(step, seal, w, r, v, plain(v));
      var (r1, o) := step(r, ds[0]);
      assert ds[1..] == Packets(seal, plain, vs[1..]);
      WindowDelivery(step, seal, Advance(w, v), r1, vs[1..], plain);
      var os' := ReceiveAll(step, r1, ds[1..]).1;
      var bs' := Accepts(Advance(w, v), vs[1..]);
      forall i | 0 <= i < |vs|
        ensures ([o] + os')[i] == if ([!Recorded(w, v)] + bs')[i] then Ok(plain(vs[i])) else Err(Replay)
      {
        if i > 0 {
          assert vs[i] == vs[1..][i - 1];
        }
      }
    }
  }

  // -- Exactly once ---------------------------------------------------

  /** The laps until the second nonce byte reaches the byte that fills a fresh
  history: an odd number, so at least one. */
  function CleanLaps(s: nat): (l: nat)
    ensures 1 <= l < 256
  {
    (255 - 2 * (Lap(s) % 256)) % 256
  }

  predicate InCleanLaps(s: nat, v: nat) {
    Lap(s) <= Lap(v) < Lap(s) + CleanLaps(s)
  }

  ghost predicate OnlySeen(s: nat, h: History, seen: set<nat>) {
    forall x | 0 <= x < 256 :: h[x] == !LapByte(s) || RecordedBySeen(h, x, seen)
  }

  ghost predicate RecordedBySeen(h: History, x: nat, seen: set<nat>)
    requires x < 256
  {
    exists u <- seen :: Slot(u) == x && h[x] == LapByte(u)
  }

  /** Counting up from x, the complement of x is met after (255 - 2x) mod 256. */
  lemma ComplementIsFar(x: nat, d: nat)
    requires d < (255 - 2 * (x % 256)) % 256
    ensures (x + d) % 256 != 255 - x % 256
  {
    var b := x % 256;
    assert (x + d) % 256 == (b + d) % 256;
    if b < 128 {
      assert (255 - 2 * b) % 256 == 255 - 2 * b;
    } else {
      assert (255 - 2 * b) % 256 == 511 - 2 * b;
    }
  }

  lemma FillIsFar(s: nat, v: nat)
    requires InCleanLaps(s, v)
    ensures LapByte(v) != !LapByte(s)
  {
    NumComplement(LapByte(s));
    ComplementIsFar(Lap(s), Lap(v) - Lap(s));
  }

  lemma CloseAndCongruent(x: nat, y: nat)
    requires x % 256 == y % 256 && -256 < x - y < 256
    ensures x == y
  {
  }

  lemma SameRecordSameCounter(s: nat, u: nat, v: nat)
    requires InCleanLaps(s, u) && InCleanLaps(s, v) && Slot(u) == Slot(v) && LapByte(u) == LapByte(v)
    ensures u == v
  {
    assert Num(LapByte(u)) == Lap(u) % 256 && Num(LapByte(v)) == Lap(v) % 256;
    CloseAndCongruent(Lap(u), Lap(v));
    assert u == 256 * Lap(u) + Slot(u) && v == 256 * Lap(v) + Slot(v);
  }

  lemma RecordedMeansSeen(s: nat, w: Window, seen: set<nat>, v: nat)
    requires OnRecord(w.newest, w.history, seen) && OnlySeen(s, w.history, seen)
    requires (forall u <- seen :: InCleanLaps(s, u)) && InCleanLaps(s, v) && InWindow(w.newest, v)
    ensures Recorded(w, v) <==> v in seen
  {
    FillIsFar(s, v);
    if Recorded(w, v) {
      assert RecordedBySeen(w.history, Slot(v), seen);
      var u :| u in seen && Slot(u) == Slot(v) && w.history[Slot(v)] == LapByte(u);
      SameRecordSameCounter(s, u, v);
    }
  }

  lemma OnlySeenStep(s: nat, h: History, seen: set<nat>, v: nat)
    requires OnlySeen(s, h, seen)
    ensures OnlySeen(s, h[Slot(v) := LapByte(v)], seen + {v})
  {
    var h' := h[Slot(v) := LapByte(v)];
    forall x | 0 <= x < 256 ensures h'[x] == !LapByte(s) || RecordedBySeen(h', x, seen + {v}) {
      if x == Slot(v) {
        assert v in seen + {v};
      } else if h[x] != !LapByte(s) {
        var u :| u in seen && Slot(u) == x && h[x] == LapByte(u);
        assert u in seen + {v};
      }
    }
  }

  lemma ExactlyOnceStep(s: nat, w: Window, seen: set<nat>, v: nat)
    requires OnRecord(w.newest, w.history, seen) && OnlySeen(s, w.history, seen)
    requires (forall u <- seen :: InCleanLaps(s, u)) && InCleanLaps(s, v) && InWindow(w.newest, v)
    ensures Recorded(w, v) <==> v in seen
    ensures OnRecord(Advance(w, v).newest, Advance(w, v).history, seen + {v})
    ensures OnlySeen(s, Advance(w, v).history, seen + {v})
  {
    RecordedMeansSeen(s, w, seen, v);
    if Recorded(w, v) {
      assert seen + {v} == seen;
    } else {
      OnRecordStep(w.newest, w.history, seen, v);
      OnlySeenStep(s, w.history, seen, v);
    }
  }

  /** Accepted arrivals are the first ones. */
  ghost predicate FirstArrivals(bs: seq<bool>, seen: set<nat>, vs: seq<nat>)
    requires |bs| == |vs|
  {
    forall i :: 0 <= i < |vs| ==> (bs[i] <==> vs[i] !in seen && vs[i] !in vs[..i])
  }

  lemma FirstArrivalsCons(b: bool, bs: seq<bool>, seen: set<nat>, v: nat, vs: seq<nat>)
    requires |bs| == |vs| && FirstArrivals(bs, seen + {v}, vs) && (b <==> v !in seen)
    ensures FirstArrivals([b] + bs, seen, [v] + vs)
  {
    forall i | 0 <= i < |vs| + 1
      ensures ([b] + bs)[i] <==> ([v] + vs)[i] !in seen && ([v] + vs)[i] !in ([v] + vs)[..i]
    {
      if i > 0 {
        assert ([v] + vs)[..i] == [v] + vs[..i - 1];
      }
    }
  }

  lemma {:induction false} ExactlyOnceFrom(s: nat, w: Window, seen: set<nat>, vs: seq<nat>)
    requires OnRecord(w.newest, w.history, seen) && OnlySeen(s, w.history, seen) && Schedule(w, vs)
    requires (forall u <- seen :: InCleanLaps(s, u)) && (forall v <- vs :: InCleanLaps(s, v))
    ensures FirstArrivals(Accepts(w, vs), seen, vs)
    decreases |vs|
  {
    if vs != [] {
      var v := vs[0];
      ExactlyOnceStep(s, w, seen, v);
      ExactlyOnceFrom(s, Advance(w, v), seen + {v}, vs[1..]);
      FirstArrivalsCons(!Recorded(w, v), Accepts(Advance(w, v), vs[1..]), seen, v, vs[1..]);
      assert vs == [v] + vs[1..];
    }
  }

  /** From a fresh key, as long as the second nonce byte has not reached the byte
  that fills the history: a packet that arrives in the window is accepted exactly
  when it has not arrived before. */
  lemma ExactlyOnce(s: nat, vs: seq<nat>)
    requires Schedule(Window(s, Filled(!LapByte(s))), vs) && forall v <- vs :: InCleanLaps(s, v)
    ensures forall i :: 0 <= i < |vs| ==>
              (Accepts(Window(s, Filled(!LapByte(s))), vs)[i] <==> vs[i] !in vs[..i])
  {
    ExactlyOnceFrom(s, Window(s, Filled(!LapByte(s))), {}, vs);
  }

  // -- Loss-free runs -------------------------------------------------

  /** The sender's nonce after, and the packets of, consecutive plaintexts. */
  function SendAll(seal: Sealer, iv: Block, plains: seq<Octets>): (res: (Block, seq<Octets>))
    ensures |res.1| == |plains|
    decreases |plains|
  {
    if plains == [] then (iv, [])
    else
      var iv1: Block := Increment(iv);
      var (iv2, ds) := SendAll(seal, iv1, plains[1..]);
      (iv2, [Wire(seal, iv1, plains[0])] + ds)
  }

  ghost predicate AllDelivered(os: seq<Result<Octets>>, plains: seq<Octets>) {
    |os| == |plains| && forall i :: 0 <= i < |os| ==> os[i] == Ok(plains[i])
  }

  /** The history after packets s+1 to n: each slot holds the second byte of the
  last packet that used it, or the fill. */
  ghost predicate Rolling(s: nat, n: nat, h: History) {
    forall v: int :: n - 256 < v <= n ==> h[Slot(v)] == if v > s then LapByte(v) else !LapByte(s)
  }

  lemma RollingStep(s: nat, n: nat, h: History)
    requires Rolling(s, n, h) && s <= n
    ensures Rolling(s, n + 1, h[Slot(n + 1) := LapByte(n + 1)])
  {
    var h' := h[Slot(n + 1) := LapByte(n + 1)];
    forall v: int | n + 1 - 256 < v <= n + 1
      ensures h'[Slot(v)] == if v > s then LapByte(v) else !LapByte(s)
    {
      if v != n + 1 {
        assert Slot(v) != Slot(n + 1);
      }
    }
  }

  /** The start bytes for which the fill is the second byte of the next lap. */
  predicate FillIsNextLap(s: nat) {
    Lap(s) % 128 == 127
  }

  lemma ComplementIsNext(x: nat)
    ensures x % 256 != 255 - x % 256
    ensures (x + 1) % 256 == 255 - x % 256 <==> x % 128 == 127
  {
    var b := x % 256;
    SuccessorModulo(x);
    HalfModulo(x);
    if b < 128 {
      assert x % 128 == b;
    } else {
      assert x % 128 == b - 128;
    }
  }

  lemma SuccessorModulo(x: nat)
    ensures (x + 1) % 256 == if x % 256 == 255 then 0 else x % 256 + 1
  {
  }

  lemma HalfModulo(x: nat)
    ensures x % 128 == (x % 256) % 128
  {
    var q, r := x / 256, x % 256;
    UniqueRemainder(x, 128, 2 * q + r / 128, r % 128);
  }

  /** The first counter of the lap after the start. */
  function NextLap(s: nat): nat {
    256 * (Lap(s) + 1)
  }

  /** In a loss-free run the next packet is refused exactly when it is on the lap
  after the first and the fill is that lap's byte. */
  lemma NextRefused(s: nat, n: nat, h: History)
    requires Rolling(s, n, h) && s <= n
    ensures h[Slot(n + 1)] == LapByte(n + 1)
        <==> n + 1 <= s + 256 && Lap(n + 1) == Lap(s) + 1 && FillIsNextLap(s)
  {
    var u: int := n + 1 - 256;
    SlotOneLapBack(n + 1);
    if u > s {
      LapBytesDiffer(u, n + 1);
    } else {
      assert h[Slot(u)] == !LapByte(s);
      LapsBetween(s, n + 1);
      FillMeets(s, Lap(n + 1));
    }
  }

  lemma SlotOneLapBack(v: nat)
    ensures Slot(v - 256) == Slot(v)
    ensures v >= 256 ==> Lap(v) == Lap(v - 256) + 1
  {
  }

  lemma LapsBetween(s: nat, v: nat)
    requires s < v <= s + 256
    ensures Lap(v) == Lap(s) || Lap(v) == Lap(s) + 1
  {
  }

  /** The fill is the byte of lap l, at most one after the start, exactly when l is
  the next one and the start byte is 127 or 255. */
  lemma FillMeets(s: nat, l: nat)
    requires l == Lap(s) || l == Lap(s) + 1
    ensures !LapByte(s) == Byte(l) <==> l == Lap(s) + 1 && FillIsNextLap(s)
  {
    NumComplement(LapByte(s));
    ByteIs(l, !LapByte(s));
    ComplementIsNext(Lap(s));
  }

  lemma LossFreeStep(step: Step, seal: Sealer, s: nat, n: nat, r: Receiver, plain: Octets)
    requires Delivers(step, seal) && s <= n && r.iv == Nonce(n) && Rolling(s, n, r.history)
    requires n < NextLap(s) || !FillIsNextLap(s)
    ensures var (r1, o) := step(r, Wire(seal, Nonce(n + 1), plain));
            if FillIsNextLap(s) && n + 1 == NextLap(s) then o == Err(Replay)
            else o == Ok(plain) && r1.iv == Nonce(n + 1) && Rolling(s, n + 1, r1.history)
  {
    assert DeliveryLaw(step, seal, Window(n, r.history), r, n + 1, plain);
    NextRefused(s, n, r.history);
    RollingStep(s, n, r.history);
  }

  /** All packets from counter n on are delivered. */
  ghost predicate LossFree(step: Step, seal: Sealer, n: nat, r: Receiver, plains: seq<Octets>) {
    AllDelivered(ReceiveAll(step, r, SendAll(seal, Nonce(n), plains).1).1, plains)
  }

  /** The receiver's nonce after the packets from counter n on. */
  ghost function FinalIv(step: Step, seal: Sealer, n: nat, r: Receiver, plains: seq<Octets>): Block {
    ReceiveAll(step, r, SendAll(seal, Nonce(n), plains).1).0.iv
  }

  lemma LossFreeCons(step: Step, seal: Sealer, n: nat, r: Receiver, plains: seq<Octets>)
    requires plains != []
    ensures var (r1, o) := step(r, Wire(seal, Nonce(n + 1), plains[0]));
            && (LossFree(step, seal, n, r, plains) <==> o == Ok(plains[0]) && LossFree(step, seal, n + 1, r1, plains[1..]))
            && FinalIv(step, seal, n, r, plains) == FinalIv(step, seal, n + 1, r1, plains[1..])
  {
    IncrementCounts(n, 16);
    var ds := SendAll(seal, Nonce(n), plains).1;
    var ds1 := SendAll(seal, Nonce(n + 1), plains[1..]).1;
    assert ds == [Wire(seal, Nonce(n + 1), plains[0])] + ds1;
    var (r1, o) := step(r, ds[0]);
    DeliveredSplit(o, ReceiveAll(step, r1, ds1).1, plains);
  }

  lemma {:induction false} LossFreeFrom(step: Step, seal: Sealer, s: nat, n: nat, r: Receiver, plains: seq<Octets>)
    requires Delivers(step, seal) && s <= n && r.iv == Nonce(n) && Rolling(s, n, r.history)
    requires n < NextLap(s) || !FillIsNextLap(s)
    ensures LossFree(step, seal, n, r, plains) <==> !FillIsNextLap(s) || n + |plains| < NextLap(s)
    ensures LossFree(step, seal, n, r, plains) ==> FinalIv(step, seal, n, r, plains) == Nonce(n + |plains|)
    decreases |plains|
  {
    if plains != [] {
      LossFreeStep(step, seal, s, n, r, plains[0]);
      LossFreeCons(step, seal, n, r, plains);
      if !(FillIsNextLap(s) && n + 1 == NextLap(s)) {
        var r1 := step(r, Wire(seal, Nonce(n + 1), plains[0])).0;
        LossFreeFrom(step, seal, s, n + 1, r1, plains[1..]);
      }
    }
  }

  lemma DeliveredSplit(o: Result<Octets>, os: seq<Result<Octets>>, plains: seq<Octets>)
    requires plains != []
    ensures AllDelivered([o] + os, plains) <==> o == Ok(plains[0]) && AllDelivered(os, plains[1..])
  {
    var all := [o] + os;
    if AllDelivered(all, plains) {
      assert all[0] == o;
      forall i | 0 <= i < |os| ensures os[i] == Ok(plains[1..][i]) {
        assert all[i + 1] == os[i];
      }
    }
  }

  lemma {:induction false} SenderCounts(seal: Sealer, n: nat, plains: seq<Octets>)
    ensures SendAll(seal, Nonce(n), plains).0 == Nonce(n + |plains|)
    decreases |plains|
  {
    if plains != [] {
      IncrementCounts(n, 16);
      SenderCounts(seal, n + 1, plains[1..]);
    }
  }

  /** A loss-free run of any length after a key exchange, through every carry and
  past the 128-bit wrap. All packets are delivered and the two nonces end equal,
  except when the complement of the second start byte is that byte plus one and
  the run leaves its first lap: then the first packet of the next lap is refused. */
  lemma LossFreeRun(step: Step, seal: Sealer, serverNonce: Block, stats: PacketStats, plains: seq<Octets>)
    requires Delivers(step, seal)
    ensures var (iv', ds) := SendAll(seal, serverNonce, plains);
            var (r', os) := ReceiveAll(step, Fresh(serverNonce, stats), ds);
            && (AllDelivered(os, plains)
                <==> !(!serverNonce[1] == serverNonce[1] + 1 && Num(serverNonce[0]) + |plains| >= 256))
            && (AllDelivered(os, plains) ==> r'.iv == iv')
  {
    var s := Value(serverNonce);
    NonceOfValue(serverNonce);
    NonceBytes(s);
    FillByBytes(serverNonce[1], Lap(s));
    var r := Fresh(serverNonce, stats);
    assert Rolling(s, s, r.history);
    LossFreeFrom(step, seal, s, s, r, plains);
    SenderCounts(seal, s, plains);
  }

  lemma FillByBytes(b: Octet, lap: nat)
    requires b == Byte(lap)
    ensures !b == b + 1 <==> lap % 128 == 127
  {
    NumComplement(b);
    NumSuccessor(b);
    ByteIs(lap + 1, b + 1);
    ByteIs(lap + 1, !b);
    ComplementIsNext(lap);
  }

  // -- Resync ---------------------------------------------------------

  /** After a resync to the sender's current nonce, whatever happened before, the
  sender's next packet is decrypted unless its history slot holds its second byte. */
  lemma ResyncRecovers(step: Step, seal: Sealer, r: Receiver, senderIv: Block, plain: Octets)
    requires Delivers(step, seal)
    ensures var next: Block := Increment(senderIv);
            var (r', o) := step(r.(iv := senderIv), Wire(seal, next, plain));
            if r.history[Num(next[0])] == next[1] then o == Err(Replay) && r'.iv == senderIv
            else o == Ok(plain) && r'.iv == next
  {
    var n := Value(senderIv);
    NonceOfValue(senderIv);
    IncrementCounts(n, 16);
    NonceBytes(n + 1);
    assert DeliveryLaw(step, seal, Window(n, r.history), r.(iv := senderIv), n + 1, plain);
  }

  // -- Two inputs on which the documentation does not hold ------------

  /** With start bytes 255 and 127 the very first packet after a key exchange is
  refused as a replay: it carries into the lap whose byte fills the history. */
  lemma FirstPacketRefused(step: Step, seal: Sealer, stats: PacketStats, plain: Octets)
    requires Delivers(step, seal)
    ensures var nonce: Block := [0xFF, 0x7F] + ZeroBlock[2..];
            ReceiveAll(step, Fresh(nonce, stats), SendAll(seal, nonce, [plain]).1).1 == [Err(Replay)]
  {
    var nonce: Block := [0xFF, 0x7F] + ZeroBlock[2..];
    var s := Value(nonce);
    NonceOfValue(nonce);
    NonceBytes(s);
    FillByBytes(nonce[1], Lap(s));
    assert !nonce[1] == nonce[1] + 1;
    CountIsConversion(0xFF);
    var r := Fresh(nonce, stats);
    LossFreeStep(step, seal, s, s, r, plain);
    IncrementCounts(s, 16);
    var ds := SendAll(seal, nonce, [plain]).1;
    assert ds == [Wire(seal, Nonce(s + 1), plain)];
    assert ds[1..] == [];
  }

  lemma FreshStep(open: Opener, step: Step, seal: Sealer, w: Window, r: Receiver, v: nat, plain: Octets, rest: seq<Octets>)
    requires Delivers(step, seal) && Lawful(open, step) && Tracks(r, w) && InWindow(w.newest, v) && !Recorded(w, v)
    ensures var d := Wire(seal, Nonce(v), plain);
            var r1 := step(r, d).0;
            && Tracks(r1, Record(w, v))
            && Counters(step, w.newest, r, [d] + rest) == [v] + Counters(step, Max(w.newest, v), r1, rest)
            && ReceiveAll(step, r, [d] + rest).0 == ReceiveAll(step, r1, rest).0
  {
    var d := Wire(seal, Nonce(v), plain);
    assert DeliveryLaw(step, seal, w, r, v, plain);
    NonceBytes(v);
    PlacedBack(w.newest, v);
    assert ([d] + rest)[1..] == rest;
  }

  lemma LateCountExample()
    ensures LateCount(10, [13, 11, 12]) == 2
  {
    assert [13, 11, 12][1..] == [11, 12] && [11, 12][1..] == [12] && [12][1..] == [];
    assert LateCount(13, [12]) == 1 + LateCount(13, []);
    assert LateCount(13, [11, 12]) == 1 + LateCount(13, [12]);
  }

  lemma TwoLateCounters(open: Opener, step: Step, seal: Sealer, r: Receiver, plain: Octets)
    requires Delivers(step, seal) && Lawful(open, step) && Tracks(r, Window(10, Filled(!LapByte(10))))
    ensures var ds := [Wire(seal, Nonce(13), plain), Wire(seal, Nonce(11), plain), Wire(seal, Nonce(12), plain)];
            Counters(step, 10, r, ds) == [13, 11, 12]
  {
    ByteOf(0, 0);
    var w := Window(10, r.history);
    var d13, d11, d12 := Wire(seal, Nonce(13), plain), Wire(seal, Nonce(11), plain), Wire(seal, Nonce(12), plain);
    FreshStep(open, step, seal, w, r, 13, plain, [d11, d12]);
    var r1, w1 := step(r, d13).0, Record(w, 13);
    FreshStep(open, step, seal, w1, r1, 11, plain, [d12]);
    var r2, w2 := step(r1, d11).0, Record(w1, 11);
    FreshStep(open, step, seal, w2, r2, 12, plain, []);
    assert [d13, d11, d12] == [d13] + [d11, d12] && [d11, d12] == [d11] + [d12] && [d12] == [d12] + [];
  }

  /** Two late packets leave the `late` counter at one. */
  lemma TwoLateCountAsOne(open: Opener, step: Step, seal: Sealer, plain: Octets)
    requires Delivers(step, seal) && Lawful(open, step)
    ensures var r := Fresh(Nonce(10), PacketStats(0, 0, 0, 0));
            var ds := [Wire(seal, Nonce(13), plain), Wire(seal, Nonce(11), plain), Wire(seal, Nonce(12), plain)];
            LateCount(10, Counters(step, 10, r, ds)) == 2 && ReceiveAll(step, r, ds).0.stats.late == 1
  {
    NonceBytes(10);
    var r := Fresh(Nonce(10), PacketStats(0, 0, 0, 0));
    var ds := [Wire(seal, Nonce(13), plain), Wire(seal, Nonce(11), plain), Wire(seal, Nonce(12), plain)];
    TwoLateCounters(open, step, seal, r, plain);
    LateCountExample();
    PacketsConserved(open, step, 10, r, ds);
  }
}
