/** The per-connection cipher state: the sender's and the receiver's nonce, the
256-slot replay history and the packet counters.

`Receive` and `Wire` are the reference form of one call on values; the class
below updates its arrays in place and is proved against them. */
module Ocb2State {
  import opened Bytes
  import opened Gf128
  import opened Ocb2Mode

  datatype Error =
    | NotInitialized
    | BadKeyLength
    | BadNonceLength
    | TooShort
    | OutOfRange
    | Replay
    | AuthenticationFailed

  datatype Result<T> = Ok(value: T) | Err(error: Error)

  datatype PacketStats = PacketStats(good: nat, late: nat, lost: nat, resync: nat)

  type History = h: Octets | |h| == 256 witness seq(256, _ => 0)

  datatype Receiver = Receiver(iv: Block, history: History, stats: PacketStats)

  /** Where the one nonce byte of a datagram puts it relative to the newest
  accepted packet, with the full nonce rebuilt. */
  datatype Arrival =
    | InOrder(iv: Block)
    | Late(iv: Block)
    | Skipped(iv: Block, lost: nat)
    | Unplaced

  /** A datagram is placed when its byte is the next one (carrying when that
  wraps), or less than 30 away without a wrap. */
  function Locate(iv: Block, b: Octet): Arrival {
    var x, y := Num(iv[0]), Num(b);
    if y == (x + 1) % 256 then InOrder([b] + if y < x then Increment(iv[1..]) else iv[1..])
    else if y < x < y + 30 then Late([b] + iv[1..])
    else if x < y < x + 30 then Skipped([b] + iv[1..], y - x - 1)
    else Unplaced
  }

  /** The distance from x to y, read as a signed step around the byte circle. */
  function SignedDistance(x: Octet, y: Octet): int {
    var diff := Num(y) - Num(x);
    if diff > 128 then diff - 256 else if diff < -128 then diff + 256 else diff
  }

  /** The comparisons of the decoder, on numbers. */
  lemma BranchesByNumbers(x: Octet, y: Octet)
    ensures x + 1 == y <==> Num(y) == (Num(x) + 1) % 256
    ensures y < x <==> Num(y) < Num(x)
    ensures y < x && -30 < SignedDistance(x, y) < 0 <==> Num(y) < Num(x) < Num(y) + 30
    ensures y > x && 0 < SignedDistance(x, y) < 30 <==> Num(x) < Num(y) < Num(x) + 30
  {
    NumSuccessor(x);
    if Num(y) == (Num(x) + 1) % 256 {
      NumInjective(x + 1, y);
    }
    NumOrder(x, y);
    NumOrder(y, x);
  }

  /** The counters after an accepted packet. A late packet raises `late` and then
  lowers it again when it was already above zero. */
  function Credit(s: PacketStats, a: Arrival): PacketStats
    requires !a.Unplaced?
  {
    var late := if a.Late? then s.late + 1 else s.late;
    var taken := if a.Late? then 1 else 0;
    if a.Skipped? && a.lost > 0 then s.(good := s.good + 1, lost := s.lost + a.lost)
    else s.(good := s.good + 1, late := if late > taken then late - taken else late)
  }

  predicate TagMatches(tag: Block, data: Octets)
    requires |data| >= 4
  {
    tag[0] == data[1] && tag[1] == data[2] && tag[2] == data[3]
  }

  /** What accepting an arrival makes of the receiver. */
  function Accept(r: Receiver, a: Arrival): Receiver
    requires !a.Unplaced?
  {
    Receiver(if a.Late? then r.iv else a.iv, r.history[Num(a.iv[0]) := a.iv[1]], Credit(r.stats, a))
  }

  /** Encryption under a fixed key, and decryption: nonce and text to text and
  tag. What sender and receiver keep track of does not depend on which functions
  these are. */
  type Sealer = (Block, Octets) -> Sealed
  type Opener = (Block, Octets) -> Sealed

  function SealerOf(c: Cipher): Sealer {
    (iv: Block, plain: Octets) => Seal(c, iv, plain)
  }

  function OpenerOf(c: Cipher): Opener {
    (iv: Block, text: Octets) => Open(c, iv, text)
  }

  /** Opening undoes sealing and finds the same tag. */
  ghost predicate Undoes(open: Opener, seal: Sealer) {
    forall iv: Block, plain: Octets ::
      open(iv, seal(iv, plain).text) == Sealed(plain, seal(iv, plain).tag)
  }

  lemma OcbUndoes(c: Cipher)
    requires IsPermutation(c)
    ensures Undoes(OpenerOf(c), SealerOf(c))
  {
    forall iv: Block, plain: Octets
      ensures OpenerOf(c)(iv, SealerOf(c)(iv, plain).text) == Sealed(plain, SealerOf(c)(iv, plain).tag)
    {
      OpenAfterSeal(c, iv, plain);
    }
  }

  /** The checks on a datagram whose nonce has been rebuilt. */
  function Admit(open: Opener, r: Receiver, a: Arrival, data: Octets): (Receiver, Result<Octets>)
    requires !a.Unplaced? && |data| >= 4
  {
    if r.history[Num(a.iv[0])] == a.iv[1] then (r, Err(Replay))
    else
      var s := open(a.iv, data[4..]);
      if !TagMatches(s.tag, data) then (r, Err(AuthenticationFailed))
      else (Accept(r, a), Ok(s.text))
  }

  /** One datagram: the receiver afterwards and the plaintext or the reason why not. */
  function Receive(open: Opener, r: Receiver, data: Octets): (Receiver, Result<Octets>) {
    if |data| < 4 then (r, Err(TooShort))
    else
      var a := Locate(r.iv, data[0]);
      if a.Unplaced? then (r, Err(OutOfRange)) else Admit(open, r, a, data)
  }

  /** The datagram that carries `plain` under nonce `iv`: one nonce byte, three
  tag bytes, the ciphertext. */
  function Wire(seal: Sealer, iv: Block, plain: Octets): (w: Octets)
    ensures |w| >= 4
  {
    var s := seal(iv, plain);
    [iv[0], s.tag[0], s.tag[1], s.tag[2]] + s.text
  }

  /** The receiver that a key exchange sets up. */
  function Fresh(serverNonce: Block, stats: PacketStats): Receiver {
    Receiver(serverNonce, Filled(!serverNonce[1]), stats)
  }

  function Filled(b: Octet): (h: History)
    ensures forall i :: 0 <= i < 256 ==> h[i] == b
  {
    seq(256, _ => b)
  }

  /** Bumping octet i of a half-incremented string either finishes the increment
  or moves the carry on. */
  lemma IncrementStep(s: Octets, i: nat)
    requires i < |s|
    ensures var t := s[i := s[i] + 1];
            s[..i] + Increment(s[i..]) == if s[i] + 1 != 0 then t else t[..i + 1] + Increment(t[i + 1..])
  {
    var t := s[i := s[i] + 1];
    assert s[i..][1..] == s[i + 1..] == t[i + 1..];
    if s[i] + 1 != 0 {
      assert Increment(s[i..]) == [t[i]] + t[i + 1..];
      assert t == s[..i] + ([t[i]] + t[i + 1..]);
    } else {
      assert Increment(s[i..]) == [t[i]] + Increment(t[i + 1..]);
      assert t[..i + 1] == s[..i] + [t[i]];
      assert s[..i] + ([t[i]] + Increment(t[i + 1..])) == t[..i + 1] + Increment(t[i + 1..]);
    }
  }

  method Bump(iv: array<Octet>, i: nat)
    requires i < iv.Length
    modifies iv
    ensures iv[..] == old(iv[..])[i := old(iv[i]) + 1]
  {
    iv[i] := iv[i] + 1;
  }

  /** Add one to iv[from..], carrying upwards. */
  method IncrementInPlace(iv: array<Octet>, from: nat)
    requires from <= iv.Length
    modifies iv
    ensures iv[..] == old(iv[..from]) + Increment(old(iv[from..]))
  {
    var i := from;
    ghost var s := iv[..];
    ghost var goal := s[..from] + Increment(s[from..]);
    while i < iv.Length
      invariant from <= i <= iv.Length
      invariant s == iv[..] && goal == s[..i] + Increment(s[i..])
    {
      IncrementStep(s, i);
      Bump(iv, i);
      if iv[i] != 0 {
        return;
      }
      s := iv[..];
      i := i + 1;
    }
    assert s[..i] == s;
  }

  class Ocb2CryptState {
    /** The AES-128 key schedule. */
    const aes: Block -> Cipher
    var cipher: Cipher
    var rawKey: Block
    const encryptIv: array<Octet>
    const decryptIv: array<Octet>
    const decryptHistory: array<Octet>
    var stats: PacketStats
    var initialized: bool

    /** The buffers never move, so this holds for the object's whole life. */
    ghost predicate Valid() {
      && encryptIv.Length == decryptIv.Length == 16 && decryptHistory.Length == 256
      && encryptIv != decryptIv && encryptIv != decryptHistory && decryptIv != decryptHistory
    }

    ghost function Rx(): Receiver
      requires Valid()
      reads this, decryptIv, decryptHistory
    {
      Receiver(decryptIv[..], decryptHistory[..], stats)
    }

    constructor (aes: Block -> Cipher)
      ensures Valid() && !initialized && this.aes == aes
      ensures fresh(encryptIv) && fresh(decryptIv) && fresh(decryptHistory)
      ensures stats == PacketStats(0, 0, 0, 0)
    {
      this.aes := aes;
      cipher := aes(ZeroBlock);
      rawKey := ZeroBlock;
      var e := ToArray(ZeroBlock);
      var d := ToArray(ZeroBlock);
      encryptIv, decryptIv := e, d;
      decryptHistory := new Octet[256](_ => 0);
      stats := PacketStats(0, 0, 0, 0);
      initialized := false;
    }

    method SetKey(key: Octets, clientNonce: Octets, serverNonce: Octets) returns (r: Result<()>)
      requires Valid()
      modifies this, encryptIv, decryptIv, decryptHistory
      ensures stats == old(stats)
      ensures r.Ok? <==> |key| == 16 && |clientNonce| == 16 && |serverNonce| == 16
      ensures r.Ok? ==>
                && initialized && cipher == aes(key) && encryptIv[..] == clientNonce
                && Rx() == Fresh(serverNonce, stats)
      ensures r.Err? ==>
                && r.error == (if |key| != 16 then BadKeyLength else BadNonceLength)
                && initialized == old(initialized) && cipher == old(cipher)
                && encryptIv[..] == old(encryptIv[..]) && Rx() == old(Rx())
    {
      if |key| != 16 {
        return Err(BadKeyLength);
      }
      if |clientNonce| != 16 || |serverNonce| != 16 {
        return Err(BadNonceLength);
      }
      rawKey := key;
      CopyInto(encryptIv, 0, clientNonce);
      CopyInto(decryptIv, 0, serverNonce);
      assert encryptIv[..] == encryptIv[..16] && decryptIv[..] == decryptIv[..16];
      cipher := aes(key);
      var fill := !serverNonce[1];
      for i := 0 to 256
        modifies decryptHistory
        invariant forall j :: 0 <= j < i ==> decryptHistory[j] == fill
      {
        decryptHistory[i] := fill;
      }
      initialized := true;
      r := Ok(());
      assert decryptHistory[..] == Filled(fill);
    }

    /** Apply a nonce resync; a nonce of the wrong length is ignored. */
    method SetDecryptIv(serverNonce: Octets)
      requires Valid()
      modifies decryptIv
      ensures Rx() == if |serverNonce| == 16 then old(Rx()).(iv := serverNonce) else old(Rx())
    {
      if |serverNonce| == 16 {
        CopyInto(decryptIv, 0, serverNonce);
        assert decryptIv[..] == decryptIv[..16];
      }
    }

    method Encrypt(plaintext: Octets) returns (r: Result<Octets>)
      requires Valid()
      modifies encryptIv
      ensures !initialized ==> r == Err(NotInitialized) && encryptIv[..] == old(encryptIv[..])
      ensures initialized ==>
                && encryptIv[..] == Increment(old(encryptIv[..]))
                && r == Ok(Wire(SealerOf(cipher), encryptIv[..], plaintext))
    {
      if !initialized {
        return Err(NotInitialized);
      }
      assert old(encryptIv[0..]) == old(encryptIv[..]);
      IncrementInPlace(encryptIv, 0);
      var nonce := encryptIv[..];
      var tag := new Octet[16];
      var ciphertext := new Octet[|plaintext|];
      OcbEncrypt(cipher, plaintext, ciphertext, nonce, tag);
      var t: Block := tag[..];
      r := Ok([nonce[0], t[0], t[1], t[2]] + ciphertext[..]);
    }

    /** Put the rebuilt nonce of a datagram into `decryptIv`. */
    method Place(ivByte: Octet) returns (ghost a: Arrival, ok: bool, late: nat, lost: int)
      requires Valid()
      modifies decryptIv
      ensures a == Locate(old(decryptIv[..]), ivByte)
      ensures ok <==> !a.Unplaced?
      ensures decryptIv[..] == if ok then a.iv else old(decryptIv[..])
      ensures late == if a.Late? then 1 else 0
      ensures lost == if a.Late? then -1 else if a.Skipped? then a.lost else 0
    {
      ghost var was: Block := decryptIv[..];
      a, ok, late, lost := Locate(was, ivByte), true, 0, 0;
      var first := decryptIv[0];
      BranchesByNumbers(first, ivByte);
      if first + 1 == ivByte {
        decryptIv[0] := ivByte;
        assert decryptIv[..] == [ivByte] + was[1..];
        if ivByte < first {
          assert decryptIv[1..] == was[1..] && decryptIv[..1] == [ivByte];
          IncrementInPlace(decryptIv, 1);
        }
      } else {
        var diff := SignedDistance(first, ivByte);
        if ivByte < first && -30 < diff < 0 {
          late, lost := 1, -1;
          decryptIv[0] := ivByte;
        } else if ivByte > first && 0 < diff < 30 {
          lost := Num(ivByte) - Num(first) - 1;
          decryptIv[0] := ivByte;
        } else {
          ok := false;
        }
        assert ok ==> decryptIv[..] == [ivByte] + was[1..];
      }
    }

    /** Count an accepted packet, in the order of the original updates. */
    method Count(late: nat, lost: int, ghost a: Arrival)
      requires !a.Unplaced?
      requires late == if a.Late? then 1 else 0
      requires lost == if a.Late? then -1 else if a.Skipped? then a.lost else 0
      modifies this`stats
      ensures stats == Credit(old(stats), a)
    {
      stats := stats.(good := stats.good + 1);
      if late > 0 {
        stats := stats.(late := stats.late + late);
      }
      if lost > 0 {
        stats := stats.(lost := stats.lost + lost);
      } else if stats.late > -lost {
        stats := stats.(late := stats.late + lost);
      }
    }

    /** Verify and decrypt under the rebuilt nonce; false when the tag differs. */
    method OpenCurrent(data: Octets) returns (ok: bool, plaintext: Octets)
      requires Valid() && |data| >= 4
      ensures var s := Open(cipher, decryptIv[..], data[4..]);
              plaintext == s.text && (ok <==> TagMatches(s.tag, data))
    {
      var tag := new Octet[16];
      var plain := new Octet[|data| - 4];
      OcbDecrypt(cipher, data[4..], plain, decryptIv[..], tag);
      var t: Block := tag[..];
      ok := t[0] == data[1] && t[1] == data[2] && t[2] == data[3];
      plaintext := plain[..];
    }

    /** Record an authentic packet: its history slot, the nonce and the counters. */
    method Commit(saveIv: Block, late: nat, lost: int, ghost a: Arrival)
      requires Valid() && !a.Unplaced? && decryptIv[..] == a.iv
      requires late == if a.Late? then 1 else 0
      requires lost == if a.Late? then -1 else if a.Skipped? then a.lost else 0
      modifies this`stats, decryptIv, decryptHistory
      ensures Rx() == Accept(old(Rx()).(iv := saveIv), a)
    {
      var slot := Num(decryptIv[0]);
      decryptHistory[slot] := decryptIv[1];
      assert decryptHistory[..] == old(decryptHistory[..])[slot := a.iv[1]];
      if late > 0 {
        SetDecryptIv(saveIv);
      }
      Count(late, lost, a);
    }

    /** The checks after the nonce is in place; `saveIv` is what to roll back to. */
    method Check(data: Octets, saveIv: Block, late: nat, lost: int, ghost a: Arrival) returns (r: Result<Octets>)
      requires Valid() && |data| >= 4 && !a.Unplaced? && decryptIv[..] == a.iv
      requires late == if a.Late? then 1 else 0
      requires lost == if a.Late? then -1 else if a.Skipped? then a.lost else 0
      modifies this`stats, decryptIv, decryptHistory
      ensures (Rx(), r) == Admit(OpenerOf(cipher), old(Rx()).(iv := saveIv), a, data)
    {
      var slot := Num(decryptIv[0]);
      if decryptHistory[slot] == decryptIv[1] {
        SetDecryptIv(saveIv);
        return Err(Replay);
      }
      var authentic, plaintext := OpenCurrent(data);
      if !authentic {
        SetDecryptIv(saveIv);
        return Err(AuthenticationFailed);
      }
      Commit(saveIv, late, lost, a);
      r := Ok(plaintext);
    }

    method Decrypt(data: Octets) returns (r: Result<Octets>)
      requires Valid()
      modifies this`stats, decryptIv, decryptHistory
      ensures !initialized ==> r == Err(NotInitialized) && Rx() == old(Rx())
      ensures initialized ==> (Rx(), r) == Receive(OpenerOf(cipher), old(Rx()), data)
    {
      if !initialized {
        return Err(NotInitialized);
      }
      if |data| < 4 {
        return Err(TooShort);
      }
      var saveIv := decryptIv[..];
      ghost var a;
      var placed, late, lost;
      a, placed, late, lost := Place(data[0]);
      if !placed {
        return Err(OutOfRange);
      }
      r := Check(data, saveIv, late, lost, a);
    }
  }
}
