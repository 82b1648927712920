/** Two cipher states talking over a loss-free link, as objects. */
module Ocb2Session {
  import opened Bytes
  import opened Gf128
  import opened Ocb2Mode
  import opened Ocb2State
  import opened Ocb2Runs
  import opened Ocb2Delivery

  /** Sender's nonce, receiver and results after sending all plaintexts in turn. */
  ghost function Session(step: Step, seal: Sealer, iv: Block, r: Receiver, plains: seq<Octets>)
    : (Block, Receiver, seq<Result<Octets>>)
    decreases |plains|
  {
    if plains == [] then (iv, r, [])
    else
      var iv1: Block := Increment(iv);
      var (r1, o) := step(r, Wire(seal, iv1, plains[0]));
      var (iv2, r2, os) := Session(step, seal, iv1, r1, plains[1..]);
      (iv2, r2, [o] + os)
  }

  /** Sending packet by packet is sending all and receiving all. */
  lemma {:induction false} SessionIsRun(step: Step, seal: Sealer, iv: Block, r: Receiver, plains: seq<Octets>)
    ensures var (iv', ds) := SendAll(seal, iv, plains);
            var (r', os) := ReceiveAll(step, r, ds);
            Session(step, seal, iv, r, plains) == (iv', r', os)
    decreases |plains|
  {
    if plains != [] {
      var iv1: Block := Increment(iv);
      var r1 := step(r, Wire(seal, iv1, plains[0])).0;
      SessionIsRun(step, seal, iv1, r1, plains[1..]);
      var ds := SendAll(seal, iv, plains).1;
      assert ds[1..] == SendAll(seal, iv1, plains[1..]).1;
    }
  }

  /** One packet from sender to receiver. */
  method SendOne(sender: Ocb2CryptState, receiver: Ocb2CryptState, plain: Octets, ghost step: Step, ghost seal: Sealer)
    returns (o: Result<Octets>)
    requires sender.Valid() && receiver.Valid() && sender.initialized && receiver.initialized
    requires sender.encryptIv != receiver.decryptIv && sender.encryptIv != receiver.decryptHistory
    requires step == StepOf(OpenerOf(receiver.cipher)) && seal == SealerOf(sender.cipher)
    modifies sender.encryptIv, receiver`stats, receiver.decryptIv, receiver.decryptHistory
    ensures sender.encryptIv[..] == Increment(old(sender.encryptIv[..]))
    ensures (receiver.Rx(), o) == step(old(receiver.Rx()), Wire(seal, sender.encryptIv[..], plain))
  {
    var packet := sender.Encrypt(plain);
    o := receiver.Decrypt(packet.value);
  }

  method Rounds(sender: Ocb2CryptState, receiver: Ocb2CryptState, plains: seq<Octets>, ghost step: Step, ghost seal: Sealer)
    returns (os: seq<Result<Octets>>)
    requires sender.Valid() && receiver.Valid() && sender.initialized && receiver.initialized
    requires sender.encryptIv != receiver.decryptIv && sender.encryptIv != receiver.decryptHistory
    requires step == StepOf(OpenerOf(receiver.cipher)) && seal == SealerOf(sender.cipher)
    modifies sender.encryptIv, receiver`stats, receiver.decryptIv, receiver.decryptHistory
    ensures (sender.encryptIv[..], receiver.Rx(), os)
         == Session(step, seal, old(sender.encryptIv[..]), old(receiver.Rx()), plains)
    decreases |plains|
  {
    if plains == [] {
      os := [];
    } else {
      var o := SendOne(sender, receiver, plains[0], step, seal);
      var rest := Rounds(sender, receiver, plains[1..], step, seal);
      os := [o] + rest;
    }
  }

  lemma SessionDelivers(step: Step, seal: Sealer, iv0: Block, stats: PacketStats, plains: seq<Octets>)
    requires Delivers(step, seal)
    ensures var (iv, r, os) := Session(step, seal, iv0, Fresh(iv0, stats), plains);
            && (AllDelivered(os, plains) <==> !(!iv0[1] == iv0[1] + 1 && Num(iv0[0]) + |plains| >= 256))
            && (AllDelivered(os, plains) ==> r.iv == iv)
  {
    LossFreeRun(step, seal, iv0, stats, plains);
    SessionIsRun(step, seal, iv0, Fresh(iv0, stats), plains);
  }

  /** The sender encrypts and the receiver decrypts, one packet after the other. All
  plaintexts come out and the two nonces end equal, whatever the number of packets,
  unless the run leaves the first lap and the history was filled with the second
  byte of the next lap. */
  method Exchange(sender: Ocb2CryptState, receiver: Ocb2CryptState, plains: seq<Octets>)
    returns (os: seq<Result<Octets>>)
    requires sender.Valid() && receiver.Valid() && sender.initialized && receiver.initialized
    requires sender.cipher == receiver.cipher && IsPermutation(sender.cipher)
    requires sender.encryptIv != receiver.decryptIv && sender.encryptIv != receiver.decryptHistory
    requires receiver.Rx() == Fresh(sender.encryptIv[..], receiver.stats)
    modifies sender.encryptIv, receiver`stats, receiver.decryptIv, receiver.decryptHistory
    ensures var iv := old(sender.encryptIv[..]);
            AllDelivered(os, plains) <==> !(!iv[1] == iv[1] + 1 && Num(iv[0]) + |plains| >= 256)
    ensures AllDelivered(os, plains) ==> receiver.decryptIv[..] == sender.encryptIv[..]
  {
    ghost var step, seal := StepOf(OpenerOf(sender.cipher)), SealerOf(sender.cipher);
    OcbDelivers(sender.cipher);
    os := Rounds(sender, receiver, plains, step, seal);
    SessionDelivers(step, seal, old(sender.encryptIv[..]), old(receiver.stats), plains);
  }
}
