/** The OCB2 block mode over an arbitrary 16-byte block permutation.

The reference form is indexed: block i of the ciphertext depends on the i-th
offset and the i-th plaintext block only, and the tag on the xor of all blocks.
The two in-place routines are proved against it. */
module Ocb2Mode {
  import opened Bytes
  import opened Gf128

  /** AES-128 under one key: encryption and decryption of a block. */
  datatype Cipher = Cipher(enc: Block -> Block, dec: Block -> Block)

  ghost predicate IsPermutation(c: Cipher) {
    && (forall b: Block :: c.dec(c.enc(b)) == b)
    && (forall b: Block :: c.enc(c.dec(b)) == b)
  }

  datatype Sealed = Sealed(text: Octets, tag: Block)

  // -- Cutting a string into blocks -----------------------------------

  /** Whole blocks, and a rest of up to 16 bytes that is empty only when the
  whole string is. */
  datatype Parts = Parts(blocks: seq<Block>, rest: Octets) {
    predicate Valid() {
      |rest| <= 16 && (rest == [] ==> blocks == [])
    }
  }

  function FullBlocks(n: nat): (m: nat)
    ensures 16 * m <= n <= 16 * m + 16
    ensures n > 0 ==> 16 * m < n
  {
    if n == 0 then 0 else (n - 1) / 16
  }

  lemma FullBlocksIs(n: nat, k: nat)
    requires 16 * k <= n <= 16 * k + 16 && (k > 0 ==> 16 * k < n)
    ensures k == FullBlocks(n)
  {
  }

  function BlockAt(s: Octets, i: nat): Block
    requires 16 * i + 16 <= |s|
  {
    s[16 * i..16 * i + 16]
  }

  function BlocksOf(s: Octets, k: nat): (bs: seq<Block>)
    requires 16 * k <= |s|
    ensures |bs| == k
  {
    if k == 0 then [] else BlocksOf(s, k - 1) + [BlockAt(s, k - 1)]
  }

  function Join(bs: seq<Block>): (s: Octets)
    ensures |s| == 16 * |bs|
  {
    if bs == [] then [] else Join(bs[..|bs| - 1]) + bs[|bs| - 1]
  }

  function Cut(s: Octets): (p: Parts)
    ensures p.Valid()
  {
    var m := FullBlocks(|s|);
    Parts(BlocksOf(s, m), s[16 * m..])
  }

  function Glue(p: Parts): Octets {
    Join(p.blocks) + p.rest
  }

  lemma {:induction false} JoinBlocksOf(s: Octets, k: nat)
    requires 16 * k <= |s|
    ensures Join(BlocksOf(s, k)) == s[..16 * k]
  {
    if k > 0 {
      JoinBlocksOf(s, k - 1);
      var bs := BlocksOf(s, k);
      assert bs[..k - 1] == BlocksOf(s, k - 1);
      assert s[..16 * k] == s[..16 * (k - 1)] + BlockAt(s, k - 1);
    }
  }

  lemma {:induction false} BlocksOfJoin(bs: seq<Block>, rest: Octets)
    ensures BlocksOf(Join(bs) + rest, |bs|) == bs
  {
    if bs != [] {
      var k := |bs| - 1;
      var front, last := bs[..k], bs[k];
      assert Join(bs) + rest == Join(front) + (last + rest);
      BlocksOfJoin(front, last + rest);
      assert BlockAt(Join(bs) + rest, k) == last;
    }
  }

  lemma GlueCut(s: Octets)
    ensures Glue(Cut(s)) == s
  {
    JoinBlocksOf(s, FullBlocks(|s|));
  }

  lemma CutGlue(p: Parts)
    requires p.Valid()
    ensures Cut(Glue(p)) == p
  {
    var s := Glue(p);
    assert FullBlocks(|s|) == |p.blocks|;
    BlocksOfJoin(p.blocks, p.rest);
  }

  // -- Reference form -------------------------------------------------

  /** The i-th offset: x^(i+1) times the encrypted nonce. */
  function Offset(c: Cipher, nonce: Block, i: nat): Block {
    if i == 0 then Double(c.enc(nonce)) else Double(Offset(c, nonce, i - 1))
  }

  function SealBlock(c: Cipher, offset: Block, p: Block): Block {
    Xor(offset, c.enc(Xor(offset, p)))
  }

  function OpenBlock(c: Cipher, offset: Block, x: Block): Block {
    Xor(offset, c.dec(Xor(offset, x)))
  }

  function SealBlocks(c: Cipher, nonce: Block, bs: seq<Block>): (r: seq<Block>)
    ensures |r| == |bs|
  {
    seq(|bs|, i requires 0 <= i < |bs| => SealBlock(c, Offset(c, nonce, i), bs[i]))
  }

  function OpenBlocks(c: Cipher, nonce: Block, bs: seq<Block>): (r: seq<Block>)
    ensures |r| == |bs|
  {
    seq(|bs|, i requires 0 <= i < |bs| => OpenBlock(c, Offset(c, nonce, i), bs[i]))
  }

  function Checksum(bs: seq<Block>): Block {
    if bs == [] then ZeroBlock else Xor(Checksum(bs[..|bs| - 1]), bs[|bs| - 1])
  }

  /** The bit length of the last block as a big-endian 32-bit number at the end
  of a zero block. */
  function LengthBlock(remaining: nat): Block {
    var bits := remaining * 8;
    ZeroBlock[..12] + [Byte(bits / 0x100_0000), Byte(bits / 0x1_0000), Byte(bits / 0x100), Byte(bits)]
  }

  function Pad(c: Cipher, nonce: Block, m: nat, remaining: nat): Block {
    c.enc(Xor(LengthBlock(remaining), Offset(c, nonce, m)))
  }

  /** The last bytes, filled up to a block from `filler`. */
  function Fill(rest: Octets, filler: Block): Block
    requires |rest| <= 16
  {
    rest + filler[|rest|..]
  }

  /** The tag covers the xor of all plaintext blocks, the filled last one included. */
  function Tag(c: Cipher, nonce: Block, bs: seq<Block>, final: Block): Block {
    c.enc(Xor(Xor(Checksum(bs), final), Triple(Offset(c, nonce, |bs|))))
  }

  function SealRest(pad: Block, rest: Octets): (r: Octets)
    requires |rest| <= 16
    ensures |r| == |rest|
  {
    Xor(pad, Fill(rest, pad))[..|rest|]
  }

  function Seal(c: Cipher, nonce: Block, plain: Octets): (s: Sealed)
    ensures |s.text| == |plain|
  {
    var p := Cut(plain);
    var pad := Pad(c, nonce, |p.blocks|, |p.rest|);
    Sealed(Glue(Parts(SealBlocks(c, nonce, p.blocks), SealRest(pad, p.rest))),
           Tag(c, nonce, p.blocks, Fill(p.rest, pad)))
  }

  /** Decryption: the plaintext and the tag it ought to carry. */
  function Open(c: Cipher, nonce: Block, text: Octets): (s: Sealed)
    ensures |s.text| == |text|
  {
    var p := Cut(text);
    var pad := Pad(c, nonce, |p.blocks|, |p.rest|);
    var blocks := OpenBlocks(c, nonce, p.blocks);
    var final := Xor(Fill(p.rest, ZeroBlock), pad);
    Sealed(Glue(Parts(blocks, final[..|p.rest|])), Tag(c, nonce, blocks, final))
  }

  // -- The mode is a bijection ----------------------------------------

  lemma OpenSealBlock(c: Cipher, offset: Block, p: Block)
    requires IsPermutation(c)
    ensures OpenBlock(c, offset, SealBlock(c, offset, p)) == p
    ensures SealBlock(c, offset, OpenBlock(c, offset, p)) == p
  {
    XorCancels(offset, c.enc(Xor(offset, p)));
    XorCancels(offset, p);
    XorCancels(offset, c.dec(Xor(offset, p)));
  }

  lemma OpenSealBlocks(c: Cipher, nonce: Block, bs: seq<Block>)
    requires IsPermutation(c)
    ensures OpenBlocks(c, nonce, SealBlocks(c, nonce, bs)) == bs
    ensures SealBlocks(c, nonce, OpenBlocks(c, nonce, bs)) == bs
  {
    forall i | 0 <= i < |bs|
      ensures OpenBlocks(c, nonce, SealBlocks(c, nonce, bs))[i] == bs[i]
      ensures SealBlocks(c, nonce, OpenBlocks(c, nonce, bs))[i] == bs[i]
    {
      OpenSealBlock(c, Offset(c, nonce, i), bs[i]);
    }
  }

  lemma OpenSealRest(rest: Octets, pad: Block)
    requires |rest| <= 16
    ensures Xor(Fill(SealRest(pad, rest), ZeroBlock), pad) == Fill(rest, pad)
  {
    forall i | 0 <= i < 16
      ensures Xor(Fill(SealRest(pad, rest), ZeroBlock), pad)[i] == Fill(rest, pad)[i]
    {
      OpenSealRestAt(rest, pad, i);
    }
  }

  lemma OpenSealRestAt(rest: Octets, pad: Block, i: nat)
    requires |rest| <= 16 && i < 16
    ensures Xor(Fill(SealRest(pad, rest), ZeroBlock), pad)[i] == Fill(rest, pad)[i]
  {
    var filled := Fill(rest, pad);
    var x := Fill(SealRest(pad, rest), ZeroBlock);
    XorAt(x, pad, i);
    XorAt(pad, filled, i);
    if i < |rest| {
      assert x[i] == Xor(pad, filled)[i];
      OctetXorCancels(pad[i], filled[i]);
    } else {
      assert x[i] == 0 && filled[i] == pad[i];
      OctetXorCancels(pad[i], 0);
    }
  }

  /** Decrypting what was encrypted under the same nonce gives back the plaintext
  and the full 16-byte tag, whatever the length. */
  lemma OpenAfterSeal(c: Cipher, nonce: Block, plain: Octets)
    requires IsPermutation(c)
    ensures Open(c, nonce, Seal(c, nonce, plain).text) == Sealed(plain, Seal(c, nonce, plain).tag)
  {
    var p := Cut(plain);
    var pad := Pad(c, nonce, |p.blocks|, |p.rest|);
    var x := Parts(SealBlocks(c, nonce, p.blocks), SealRest(pad, p.rest));
    CutGlue(x);
    OpenSealBlocks(c, nonce, p.blocks);
    OpenSealRest(p.rest, pad);
    assert Fill(p.rest, pad)[..|p.rest|] == p.rest;
    GlueCut(plain);
  }

  lemma SealOpenRest(rest: Octets, pad: Block)
    requires |rest| <= 16
    ensures var final := Xor(Fill(rest, ZeroBlock), pad);
            && Fill(final[..|rest|], pad) == final
            && SealRest(pad, final[..|rest|]) == rest
  {
    var final := Xor(Fill(rest, ZeroBlock), pad);
    FilledByPad(rest, pad);
    forall i | 0 <= i < |rest| ensures Xor(pad, final)[i] == rest[i] {
      XorAt(Fill(rest, ZeroBlock), pad, i);
      XorAt(pad, final, i);
      OctetXorCancels(pad[i], rest[i]);
    }
  }

  lemma FilledByPad(rest: Octets, pad: Block)
    requires |rest| <= 16
    ensures var final := Xor(Fill(rest, ZeroBlock), pad);
            Fill(final[..|rest|], pad) == final
  {
    var final := Xor(Fill(rest, ZeroBlock), pad);
    forall i | |rest| <= i < 16 ensures final[i] == pad[i] {
      XorAt(Fill(rest, ZeroBlock), pad, i);
      assert Fill(rest, ZeroBlock)[i] == 0;
      OctetXorCancels(pad[i], 0);
    }
    assert final == final[..|rest|] + final[|rest|..];
    assert final[|rest|..] == pad[|rest|..];
  }

  /** Encrypting what was decrypted gives back the ciphertext: under one nonce the
  mode is a bijection on strings of each length, with the tag carried along. */
  lemma SealAfterOpen(c: Cipher, nonce: Block, text: Octets)
    requires IsPermutation(c)
    ensures Seal(c, nonce, Open(c, nonce, text).text) == Sealed(text, Open(c, nonce, text).tag)
  {
    var p := Cut(text);
    var pad := Pad(c, nonce, |p.blocks|, |p.rest|);
    var final := Xor(Fill(p.rest, ZeroBlock), pad);
    CutGlue(Parts(OpenBlocks(c, nonce, p.blocks), final[..|p.rest|]));
    OpenSealBlocks(c, nonce, p.blocks);
    SealOpenRest(p.rest, pad);
    GlueCut(text);
  }

  // -- The in-place routines ------------------------------------------

  method CopyInto(dst: array<Octet>, at: nat, src: Octets)
    requires at + |src| <= dst.Length
    modifies dst
    ensures dst[..at + |src|] == old(dst[..at]) + src
  {
    for i := 0 to |src|
      invariant dst[..at] == old(dst[..at])
      invariant forall j :: 0 <= j < i ==> dst[at + j] == src[j]
    {
      dst[at + i] := src[i];
    }
    assert dst[..at + |src|] == dst[..at] + dst[at..at + |src|];
  }

  method ToArray(b: Block) returns (a: array<Octet>)
    ensures fresh(a) && a.Length == 16 && a[..] == b
  {
    a := new Octet[16](i requires 0 <= i < 16 => b[i]);
  }

  /** Where the encryption loop stands after k blocks: `d` doubles to the next
  offset, `sum` is the checksum and `out` the ciphertext so far. */
  ghost predicate EncryptedTo(c: Cipher, nonce: Block, plain: Octets, k: nat, d: Block, sum: Block, out: Octets) {
    && 16 * k <= |plain|
    && Double(d) == Offset(c, nonce, k)
    && sum == Checksum(BlocksOf(plain, k))
    && out == Join(SealBlocks(c, nonce, BlocksOf(plain, k)))
  }

  ghost predicate DecryptedTo(c: Cipher, nonce: Block, text: Octets, k: nat, d: Block, sum: Block, out: Octets) {
    && 16 * k <= |text|
    && Double(d) == Offset(c, nonce, k)
    && sum == Checksum(OpenBlocks(c, nonce, BlocksOf(text, k)))
    && out == Join(OpenBlocks(c, nonce, BlocksOf(text, k)))
  }

  lemma EncryptedStep(c: Cipher, nonce: Block, plain: Octets, k: nat, d: Block, sum: Block, out: Octets)
    requires EncryptedTo(c, nonce, plain, k, d, sum, out) && 16 * k + 16 <= |plain|
    ensures var b := BlockAt(plain, k);
            EncryptedTo(c, nonce, plain, k + 1, Double(d), Xor(sum, b), out + SealBlock(c, Double(d), b))
  {
    var bs, b := BlocksOf(plain, k), BlockAt(plain, k);
    var s := SealBlocks(c, nonce, bs + [b]);
    assert s[..k] == SealBlocks(c, nonce, bs);
    assert (bs + [b])[..k] == bs;
  }

  lemma DecryptedStep(c: Cipher, nonce: Block, text: Octets, k: nat, d: Block, sum: Block, out: Octets)
    requires DecryptedTo(c, nonce, text, k, d, sum, out) && 16 * k + 16 <= |text|
    ensures var p := OpenBlock(c, Double(d), BlockAt(text, k));
            DecryptedTo(c, nonce, text, k + 1, Double(d), Xor(sum, p), out + p)
  {
    var o := OpenBlocks(c, nonce, BlocksOf(text, k) + [BlockAt(text, k)]);
    assert o[..k] == OpenBlocks(c, nonce, BlocksOf(text, k));
  }

  /** One step of the encryption loop: the next offset, the encrypted block in
  its place, the checksum extended. */
  method EncryptBlock(c: Cipher, plainBlock: Block, encrypted: array<Octet>, at: nat,
                      delta: array<Octet>, checksum: array<Octet>)
    requires at + 16 <= encrypted.Length && delta.Length == checksum.Length == 16
    requires delta != checksum && encrypted != delta && encrypted != checksum
    modifies encrypted, delta, checksum
    ensures delta[..] == Double(old(delta[..]))
    ensures checksum[..] == Xor(old(checksum[..]), plainBlock)
    ensures encrypted[..at + 16] == old(encrypted[..at]) + SealBlock(c, Double(old(delta[..])), plainBlock)
  {
    DoubleInPlace(delta);
    var tmp := c.enc(Xor(delta[..], plainBlock));
    CopyInto(encrypted, at, Xor(delta[..], tmp));
    XorInPlace(checksum, plainBlock);
  }

  method DecryptBlock(c: Cipher, cipherBlock: Block, plain: array<Octet>, at: nat,
                      delta: array<Octet>, checksum: array<Octet>)
    requires at + 16 <= plain.Length && delta.Length == checksum.Length == 16
    requires delta != checksum && plain != delta && plain != checksum
    modifies plain, delta, checksum
    ensures delta[..] == Double(old(delta[..]))
    ensures var p := OpenBlock(c, Double(old(delta[..])), cipherBlock);
            && checksum[..] == Xor(old(checksum[..]), p)
            && plain[..at + 16] == old(plain[..at]) + p
  {
    DoubleInPlace(delta);
    var tmp := c.dec(Xor(delta[..], cipherBlock));
    var plainBlock := Xor(delta[..], tmp);
    CopyInto(plain, at, plainBlock);
    XorInPlace(checksum, plainBlock);
  }

  /** Fold the filled last block and the tripled offset into the checksum, and
  encrypt it. */
  method WriteTag(c: Cipher, final: Block, delta: array<Octet>, checksum: array<Octet>, tag: array<Octet>)
    requires delta.Length == checksum.Length == tag.Length == 16
    requires delta != checksum && tag != delta && tag != checksum
    modifies delta, checksum, tag
    ensures tag[..] == c.enc(Xor(Xor(old(checksum[..]), final), Triple(old(delta[..]))))
  {
    XorInPlace(checksum, final);
    TripleInPlace(delta);
    XorInPlace(checksum, delta[..]);
    CopyInto(tag, 0, c.enc(checksum[..]));
    assert tag[..] == tag[..16];
  }

  method EncryptRest(c: Cipher, rest: Octets, encrypted: array<Octet>, at: nat,
                     delta: array<Octet>, checksum: array<Octet>, tag: array<Octet>)
    requires |rest| <= 16 && at + |rest| == encrypted.Length && delta.Length == checksum.Length == tag.Length == 16
    requires delta != checksum && encrypted != delta && encrypted != checksum
    requires tag != delta && tag != checksum && tag != encrypted
    modifies encrypted, delta, checksum, tag
    ensures var offset := Double(old(delta[..]));
            var pad := c.enc(Xor(LengthBlock(|rest|), offset));
            && encrypted[..] == old(encrypted[..at]) + SealRest(pad, rest)
            && tag[..] == c.enc(Xor(Xor(old(checksum[..]), Fill(rest, pad)), Triple(offset)))
  {
    DoubleInPlace(delta);
    var pad := c.enc(Xor(LengthBlock(|rest|), delta[..]));
    CopyInto(encrypted, at, Xor(pad, Fill(rest, pad))[..|rest|]);
    WriteTag(c, Fill(rest, pad), delta, checksum, tag);
    assert encrypted[..] == encrypted[..at + |rest|];
  }

  method DecryptRest(c: Cipher, rest: Octets, plain: array<Octet>, at: nat,
                     delta: array<Octet>, checksum: array<Octet>, tag: array<Octet>)
    requires |rest| <= 16 && at + |rest| == plain.Length && delta.Length == checksum.Length == tag.Length == 16
    requires delta != checksum && plain != delta && plain != checksum
    requires tag != delta && tag != checksum && tag != plain
    modifies plain, delta, checksum, tag
    ensures var offset := Double(old(delta[..]));
            var final := Xor(Fill(rest, ZeroBlock), c.enc(Xor(LengthBlock(|rest|), offset)));
            && plain[..] == old(plain[..at]) + final[..|rest|]
            && tag[..] == c.enc(Xor(Xor(old(checksum[..]), final), Triple(offset)))
  {
    DoubleInPlace(delta);
    var pad := c.enc(Xor(LengthBlock(|rest|), delta[..]));
    var finalPlain := Xor(Fill(rest, ZeroBlock), pad);
    CopyInto(plain, at, finalPlain[..|rest|]);
    WriteTag(c, finalPlain, delta, checksum, tag);
    assert plain[..] == plain[..at + |rest|];
  }

  method EncryptBlocks(c: Cipher, plain: Octets, encrypted: array<Octet>,
                       delta: array<Octet>, checksum: array<Octet>, ghost nonce: Block)
    returns (k: nat)
    requires encrypted.Length == |plain| && delta.Length == checksum.Length == 16
    requires delta != checksum && encrypted != delta && encrypted != checksum
    requires delta[..] == c.enc(nonce) && checksum[..] == ZeroBlock
    modifies encrypted, delta, checksum
    ensures k == FullBlocks(|plain|)
    ensures EncryptedTo(c, nonce, plain, k, delta[..], checksum[..], encrypted[..16 * k])
  {
    k := 0;
    var offset, remaining := 0, |plain|;
    while remaining > 16
      invariant offset == 16 * k && offset + remaining == |plain| && (k > 0 ==> remaining > 0)
      invariant EncryptedTo(c, nonce, plain, k, delta[..], checksum[..], encrypted[..offset])
    {
      ghost var d, sum, out := delta[..], checksum[..], encrypted[..offset];
      EncryptBlock(c, BlockAt(plain, k), encrypted, offset, delta, checksum);
      EncryptedStep(c, nonce, plain, k, d, sum, out);
      offset, remaining, k := offset + 16, remaining - 16, k + 1;
    }
    FullBlocksIs(|plain|, k);
  }

  method DecryptBlocks(c: Cipher, encrypted: Octets, plain: array<Octet>,
                       delta: array<Octet>, checksum: array<Octet>, ghost nonce: Block)
    returns (k: nat)
    requires plain.Length == |encrypted| && delta.Length == checksum.Length == 16
    requires delta != checksum && plain != delta && plain != checksum
    requires delta[..] == c.enc(nonce) && checksum[..] == ZeroBlock
    modifies plain, delta, checksum
    ensures k == FullBlocks(|encrypted|)
    ensures DecryptedTo(c, nonce, encrypted, k, delta[..], checksum[..], plain[..16 * k])
  {
    k := 0;
    var offset, remaining := 0, |encrypted|;
    while remaining > 16
      invariant offset == 16 * k && offset + remaining == |encrypted| && (k > 0 ==> remaining > 0)
      invariant DecryptedTo(c, nonce, encrypted, k, delta[..], checksum[..], plain[..offset])
    {
      ghost var d, sum, out := delta[..], checksum[..], plain[..offset];
      DecryptBlock(c, BlockAt(encrypted, k), plain, offset, delta, checksum);
      DecryptedStep(c, nonce, encrypted, k, d, sum, out);
      offset, remaining, k := offset + 16, remaining - 16, k + 1;
    }
    FullBlocksIs(|encrypted|, k);
  }

  method OcbEncrypt(c: Cipher, plain: Octets, encrypted: array<Octet>, nonce: Block, tag: array<Octet>)
    requires encrypted.Length == |plain| && tag.Length == 16 && encrypted != tag
    modifies encrypted, tag
    ensures encrypted[..] == Seal(c, nonce, plain).text
    ensures tag[..] == Seal(c, nonce, plain).tag
  {
    var delta := ToArray(c.enc(nonce));
    var checksum := ToArray(ZeroBlock);
    var m := EncryptBlocks(c, plain, encrypted, delta, checksum, nonce);
    EncryptRest(c, plain[16 * m..], encrypted, 16 * m, delta, checksum, tag);
  }

  method OcbDecrypt(c: Cipher, encrypted: Octets, plain: array<Octet>, nonce: Block, tag: array<Octet>)
    requires plain.Length == |encrypted| && tag.Length == 16 && plain != tag
    modifies plain, tag
    ensures plain[..] == Open(c, nonce, encrypted).text
    ensures tag[..] == Open(c, nonce, encrypted).tag
  {
    var delta := ToArray(c.enc(nonce));
    var checksum := ToArray(ZeroBlock);
    var m := DecryptBlocks(c, encrypted, plain, delta, checksum, nonce);
    DecryptRest(c, encrypted[16 * m..], plain, 16 * m, delta, checksum, tag);
  }
}
