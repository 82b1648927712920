/** What it means to be the OCB2 ciphertext and tag of a plaintext, told from the
receiving side: by equations between the plaintext, the ciphertext and the inverse
of the block cipher, over offsets that are products in GF(2^128).

The theorems say that `Seal` and `Open` meet these equations and that nothing else
does. */
module Ocb2Definition {
  import opened Bytes
  import opened Gf128
  import opened Ocb2Mode

  /** ds are the offsets: the encrypted nonce times x, x^2, x^3, ... */
  ghost predicate OffsetChain(c: Cipher, nonce: Block, ds: seq<Block>) {
    && ds != []
    && IsProductByX(ds[0], c.enc(nonce))
    && forall i {:trigger ds[i]} :: 0 < i < |ds| ==> IsProductByX(ds[i], ds[i - 1])
  }

  /** The cipher maps the i-th plaintext block to the i-th ciphertext block, both
  masked with the i-th offset. */
  ghost predicate MaskedBlock(c: Cipher, d: Block, plain: Octets, text: Octets, i: nat)
    requires 16 * i + 16 <= |plain| == |text|
  {
    c.dec(Xor(d, text[16 * i..16 * i + 16])) == Xor(d, plain[16 * i..16 * i + 16])
  }

  /** The pad is the encryption of the offset with the bit length of the last part
  in its last byte. */
  ghost predicate IsPad(c: Cipher, pad: Block, offset: Block, rem: nat) {
    forall j | 0 <= j < 16 :: c.dec(pad)[j] == offset[j] ^ (if j == 15 then Byte(8 * rem) else 0)
  }

  /** The xor of the bytes j, j + 16, j + 32, ... of the first n. */
  function Column(s: Octets, n: nat, j: nat): Octet
    requires n <= |s|
  {
    if n == 0 then 0
    else if (n - 1) % 16 == j then Column(s, n - 1, j) ^ s[n - 1]
    else Column(s, n - 1, j)
  }

  ghost predicate SameColumns(p: Octets, q: Octets) {
    forall j: nat | j < 16 :: Column(p, |p|, j) == Column(q, |q|, j)
  }

  /** Byte j of the xor of all plaintext blocks, the last one filled up from the
  pad. */
  function Total(plain: Octets, rem: nat, pad: Block, j: nat): Octet
    requires j < 16
  {
    if j < rem then Column(plain, |plain|, j) else Column(plain, |plain|, j) ^ pad[j]
  }

  /** The tag decrypts to that xor masked with the last offset times x + 1. */
  ghost predicate IsTag(c: Cipher, tag: Block, plain: Octets, rem: nat, pad: Block, top: Block) {
    forall j: nat | j < 16 :: c.dec(tag)[j] == Total(plain, rem, pad, j) ^ top[j]
  }

  ghost predicate BlocksMatch(c: Cipher, ds: seq<Block>, plain: Octets, text: Octets, m: nat)
    requires 16 * m <= |plain| == |text| && m <= |ds|
  {
    forall i | 0 <= i < m :: MaskedBlock(c, ds[i], plain, text, i)
  }

  /** The last bytes are masked with those of the pad. */
  ghost predicate RestMatches(pad: Block, plain: Octets, text: Octets, m: nat)
    requires 16 * m <= |plain| == |text| <= 16 * m + 16
  {
    forall j | 16 * m <= j < |plain| :: text[j] == plain[j] ^ pad[j - 16 * m]
  }

  ghost predicate IsOcb2With(c: Cipher, nonce: Block, plain: Octets, s: Sealed, ds: seq<Block>, pad: Block, top: Block) {
    var m := FullBlocks(|plain|);
    var rem := |plain| - 16 * m;
    && |s.text| == |plain|
    && |ds| == m + 1 && OffsetChain(c, nonce, ds)
    && BlocksMatch(c, ds, plain, s.text, m)
    && IsPad(c, pad, ds[m], rem)
    && RestMatches(pad, plain, s.text, m)
    && IsProductByXPlus1(top, ds[m])
    && IsTag(c, s.tag, plain, rem, pad, top)
  }

  ghost predicate IsOcb2(c: Cipher, nonce: Block, plain: Octets, s: Sealed) {
    exists ds, pad, top :: IsOcb2With(c, nonce, plain, s, ds, pad, top)
  }

  // -- The ingredients ------------------------------------------------

  ghost function Offsets(c: Cipher, nonce: Block, k: nat): (ds: seq<Block>)
    ensures |ds| == k + 1
    ensures forall i | 0 <= i <= k :: ds[i] == Offset(c, nonce, i)
  {
    if k == 0 then [Offset(c, nonce, 0)] else Offsets(c, nonce, k - 1) + [Offset(c, nonce, k)]
  }

  lemma OffsetsChain(c: Cipher, nonce: Block, k: nat)
    ensures OffsetChain(c, nonce, Offsets(c, nonce, k))
  {
    var ds := Offsets(c, nonce, k);
    DoubleIsProductByX(ds[0], c.enc(nonce));
    forall i | 0 < i < |ds| ensures IsProductByX(ds[i], ds[i - 1]) {
      DoubleIsProductByX(ds[i], ds[i - 1]);
    }
  }

  lemma {:induction false} ChainIsOffsets(c: Cipher, nonce: Block, ds: seq<Block>, i: nat)
    requires OffsetChain(c, nonce, ds) && i < |ds|
    ensures ds[i] == Offset(c, nonce, i)
  {
    if i == 0 {
      DoubleIsProductByX(ds[0], c.enc(nonce));
    } else {
      ChainIsOffsets(c, nonce, ds, i - 1);
      DoubleIsProductByX(ds[i], ds[i - 1]);
    }
  }

  lemma {:induction false} BlocksOfAt(s: Octets, k: nat, i: nat)
    requires i < k && 16 * k <= |s|
    ensures BlocksOf(s, k)[i] == s[16 * i..16 * i + 16]
  {
    if i < k - 1 {
      BlocksOfAt(s, k - 1, i);
    }
  }

  /** Masking, enciphering and masking again, told by the inverse cipher. */
  lemma SealBlockMeans(c: Cipher, d: Block, p: Block, x: Block)
    requires IsPermutation(c)
    ensures x == SealBlock(c, d, p) <==> c.dec(Xor(d, x)) == Xor(d, p)
  {
    XorCancels(d, c.enc(Xor(d, p)));
    XorCancels(d, x);
    if c.dec(Xor(d, x)) == Xor(d, p) {
      assert c.enc(c.dec(Xor(d, x))) == c.enc(Xor(d, p));
    }
  }

  lemma BlockMeans(c: Cipher, nonce: Block, plain: Octets, text: Octets, m: nat, i: nat)
    requires IsPermutation(c) && i < m && 16 * m <= |plain| == |text|
    ensures BlocksOf(text, m)[i] == SealBlocks(c, nonce, BlocksOf(plain, m))[i]
       <==> MaskedBlock(c, Offsets(c, nonce, m)[i], plain, text, i)
  {
    BlocksOfAt(text, m, i);
    BlocksOfAt(plain, m, i);
    SealBlockMeans(c, Offset(c, nonce, i), BlocksOf(plain, m)[i], BlocksOf(text, m)[i]);
  }

  lemma MatchingBlocks(c: Cipher, nonce: Block, plain: Octets, text: Octets, m: nat)
    requires IsPermutation(c) && 16 * m <= |plain| == |text|
    requires BlocksMatch(c, Offsets(c, nonce, m), plain, text, m)
    ensures BlocksOf(text, m) == SealBlocks(c, nonce, BlocksOf(plain, m))
  {
    var xs, ys := BlocksOf(text, m), SealBlocks(c, nonce, BlocksOf(plain, m));
    forall i | 0 <= i < m ensures xs[i] == ys[i] {
      BlockMeans(c, nonce, plain, text, m, i);
    }
    SameBlocks(xs, ys);
  }

  lemma BlocksMean(c: Cipher, nonce: Block, plain: Octets, text: Octets, m: nat)
    requires IsPermutation(c) && 16 * m <= |plain| == |text|
    ensures BlocksOf(text, m) == SealBlocks(c, nonce, BlocksOf(plain, m))
       <==> BlocksMatch(c, Offsets(c, nonce, m), plain, text, m)
  {
    if BlocksOf(text, m) == SealBlocks(c, nonce, BlocksOf(plain, m)) {
      forall i | 0 <= i < m ensures MaskedBlock(c, Offsets(c, nonce, m)[i], plain, text, i) {
        BlockMeans(c, nonce, plain, text, m, i);
      }
    } else if BlocksMatch(c, Offsets(c, nonce, m), plain, text, m) {
      MatchingBlocks(c, nonce, plain, text, m);
    }
  }

  lemma SameBlocks(xs: seq<Block>, ys: seq<Block>)
    requires |xs| == |ys| && forall i | 0 <= i < |xs| :: xs[i] == ys[i]
    ensures xs == ys
  {
  }

  lemma LengthBlockAt(rem: nat, j: nat)
    requires rem <= 16 && j < 16
    ensures LengthBlock(rem)[j] == if j == 15 then Byte(8 * rem) else 0
  {
  }

  lemma BlockEqual(a: Block, b: Block)
    requires forall j | 0 <= j < 16 :: a[j] == b[j]
    ensures a == b
  {
  }

  lemma PadMeans(c: Cipher, nonce: Block, m: nat, rem: nat, pad: Block)
    requires IsPermutation(c) && rem <= 16
    ensures pad == Pad(c, nonce, m, rem) <==> IsPad(c, pad, Offset(c, nonce, m), rem)
  {
    var d := Offset(c, nonce, m);
    var x := Xor(LengthBlock(rem), d);
    forall j | 0 <= j < 16 ensures x[j] == d[j] ^ (if j == 15 then Byte(8 * rem) else 0) {
      XorAt(LengthBlock(rem), d, j);
      LengthBlockAt(rem, j);
      XorCommutes(LengthBlock(rem)[j], d[j]);
    }
    if IsPad(c, pad, d, rem) {
      BlockEqual(c.dec(pad), x);
      assert c.enc(c.dec(pad)) == pad;
    }
  }

  lemma SealRestAt(pad: Block, rest: Octets, j: nat)
    requires j < |rest| <= 16
    ensures SealRest(pad, rest)[j] == rest[j] ^ pad[j]
  {
    XorAt(pad, Fill(rest, pad), j);
    XorCommutes(pad[j], rest[j]);
  }

  lemma RestMeans(pad: Block, plain: Octets, text: Octets, m: nat)
    requires |plain| == |text| && 16 * m <= |plain| <= 16 * m + 16
    ensures text[16 * m..] == SealRest(pad, plain[16 * m..])
       <==> RestMatches(pad, plain, text, m)
  {
    var x, rest := text[16 * m..], plain[16 * m..];
    var y := SealRest(pad, rest);
    forall j | 16 * m <= j < |plain| ensures y[j - 16 * m] == plain[j] ^ pad[j - 16 * m] {
      SealRestAt(pad, rest, j - 16 * m);
    }
    if x == y {
      forall j | 16 * m <= j < |plain| ensures text[j] == plain[j] ^ pad[j - 16 * m] {
        assert text[j] == x[j - 16 * m];
      }
    }
    if RestMatches(pad, plain, text, m) {
      forall i | 0 <= i < |x| ensures x[i] == y[i] {
        assert x[i] == text[i + 16 * m];
      }
    }
  }

  // -- The checksum ---------------------------------------------------

  /** Column j of m whole blocks and t more bytes. */
  function Summed(s: Octets, m: nat, t: nat, j: nat): Octet
    requires t <= 16 && j < 16 && 16 * m + t <= |s|
  {
    var sum := Checksum(BlocksOf(s, m))[j];
    if j < t then sum ^ s[16 * m + j] else sum
  }

  lemma SummedByte(s: Octets, m: nat, t: nat, j: nat)
    requires t < 16 && j < 16 && 16 * m + t < |s| && Column(s, 16 * m + t, j) == Summed(s, m, t, j)
    ensures Column(s, 16 * m + t + 1, j) == Summed(s, m, t + 1, j)
  {
    var k := 16 * m + t;
    assert k % 16 == t;
    assert Column(s, k + 1, j) == if t == j then Column(s, k, j) ^ s[k] else Column(s, k, j);
  }

  lemma SummedBlock(s: Octets, m: nat, j: nat)
    requires j < 16 && 16 * m + 16 <= |s|
    ensures Summed(s, m, 16, j) == Summed(s, m + 1, 0, j)
  {
    ChecksumStep(s, m, j);
  }

  lemma {:induction false} ColumnMeans(s: Octets, m: nat, t: nat, j: nat)
    requires t <= 16 && j < 16 && 16 * m + t <= |s|
    ensures Column(s, 16 * m + t, j) == Summed(s, m, t, j)
    decreases m, t
  {
    if t > 0 {
      ColumnMeans(s, m, t - 1, j);
      SummedByte(s, m, t - 1, j);
    } else if m > 0 {
      ColumnMeans(s, m - 1, 16, j);
      SummedBlock(s, m - 1, j);
    }
  }

  lemma ChecksumStep(s: Octets, m: nat, j: nat)
    requires 16 * m + 16 <= |s| && j < 16
    ensures Checksum(BlocksOf(s, m + 1))[j] == Checksum(BlocksOf(s, m))[j] ^ s[16 * m + j]
  {
    var bs, b := BlocksOf(s, m), BlockAt(s, m);
    ChecksumSnoc(bs, b);
    XorAt(Checksum(bs), b, j);
  }

  lemma ChecksumSnoc(bs: seq<Block>, b: Block)
    ensures Checksum(bs + [b]) == Xor(Checksum(bs), b)
  {
    assert (bs + [b])[..|bs|] == bs;
  }

  /** The block that the tag encrypts. */
  lemma TaggedAt(plain: Octets, m: nat, pad: Block, sum: Block, j: nat)
    requires 16 * m <= |plain| <= 16 * m + 16 && j < 16 && sum == Checksum(BlocksOf(plain, m))
    ensures Xor(sum, Fill(plain[16 * m..], pad))[j] == Total(plain, |plain| - 16 * m, pad, j)
  {
    var rem := |plain| - 16 * m;
    XorAt(sum, Fill(plain[16 * m..], pad), j);
    FillAt(plain, m, pad, j);
    ColumnOfAll(plain, m, rem, j);
  }

  lemma ColumnOfAll(s: Octets, m: nat, t: nat, j: nat)
    requires t <= 16 && j < 16 && 16 * m + t == |s|
    ensures Column(s, |s|, j) == Summed(s, m, t, j)
  {
    ColumnMeans(s, m, t, j);
  }

  lemma FillAt(plain: Octets, m: nat, pad: Block, j: nat)
    requires 16 * m <= |plain| <= 16 * m + 16 && j < 16
    ensures Fill(plain[16 * m..], pad)[j] == if j < |plain| - 16 * m then plain[16 * m + j] else pad[j]
  {
  }

  lemma TagMeans(c: Cipher, nonce: Block, plain: Octets, m: nat, pad: Block, tag: Block)
    requires IsPermutation(c) && 16 * m <= |plain| <= 16 * m + 16
    ensures tag == Tag(c, nonce, BlocksOf(plain, m), Fill(plain[16 * m..], pad))
       <==> IsTag(c, tag, plain, |plain| - 16 * m, pad, Triple(Offset(c, nonce, m)))
  {
    var top := Triple(Offset(c, nonce, m));
    var y := Xor(Checksum(BlocksOf(plain, m)), Fill(plain[16 * m..], pad));
    TagFor(c, tag, plain, m, pad, y, top);
  }

  lemma TagFor(c: Cipher, tag: Block, plain: Octets, m: nat, pad: Block, y: Block, top: Block)
    requires IsPermutation(c) && 16 * m <= |plain| <= 16 * m + 16
    requires y == Xor(Checksum(BlocksOf(plain, m)), Fill(plain[16 * m..], pad))
    ensures tag == c.enc(Xor(y, top)) <==> IsTag(c, tag, plain, |plain| - 16 * m, pad, top)
  {
    var x, rem := Xor(y, top), |plain| - 16 * m;
    forall j | 0 <= j < 16
      ensures x[j] == Total(plain, rem, pad, j) ^ top[j]
    {
      TaggedAt(plain, m, pad, Checksum(BlocksOf(plain, m)), j);
      XorAt(y, top, j);
    }
    if IsTag(c, tag, plain, rem, pad, top) {
      BlockEqual(c.dec(tag), x);
      assert c.enc(c.dec(tag)) == tag;
    }
  }

  // -- The theorems ---------------------------------------------------

  lemma SealInParts(c: Cipher, nonce: Block, plain: Octets, s: Sealed)
    requires |s.text| == |plain|
    ensures var m := FullBlocks(|plain|);
            var pad := Pad(c, nonce, m, |plain| - 16 * m);
            s == Seal(c, nonce, plain) <==>
            && BlocksOf(s.text, m) == SealBlocks(c, nonce, BlocksOf(plain, m))
            && s.text[16 * m..] == SealRest(pad, plain[16 * m..])
            && s.tag == Tag(c, nonce, BlocksOf(plain, m), Fill(plain[16 * m..], pad))
  {
    var p := Cut(plain);
    var pad := Pad(c, nonce, |p.blocks|, |p.rest|);
    var x := Parts(SealBlocks(c, nonce, p.blocks), SealRest(pad, p.rest));
    CutGlue(x);
    GlueCut(s.text);
  }

  lemma SealMeansWith(c: Cipher, nonce: Block, plain: Octets, s: Sealed)
    requires IsPermutation(c) && |s.text| == |plain|
    ensures var m := FullBlocks(|plain|);
            var d := Offset(c, nonce, m);
            var pad := Pad(c, nonce, m, |plain| - 16 * m);
            s == Seal(c, nonce, plain) <==> IsOcb2With(c, nonce, plain, s, Offsets(c, nonce, m), pad, Triple(d))
  {
    var m := FullBlocks(|plain|);
    var rem := |plain| - 16 * m;
    var d, pad := Offset(c, nonce, m), Pad(c, nonce, m, rem);
    SealInParts(c, nonce, plain, s);
    BlocksMean(c, nonce, plain, s.text, m);
    RestMeans(pad, plain, s.text, m);
    TagMeans(c, nonce, plain, m, pad, s.tag);
    OffsetsChain(c, nonce, m);
    PadMeans(c, nonce, m, rem, pad);
    TripleIsProductByXPlus1(Triple(d), d);
  }

  /** Offsets, pad and top are determined by the equations. */
  lemma PartsAreUnique(c: Cipher, nonce: Block, ds: seq<Block>, rem: nat, pad: Block, top: Block)
    requires IsPermutation(c) && rem <= 16 && OffsetChain(c, nonce, ds)
    requires IsPad(c, pad, ds[|ds| - 1], rem) && IsProductByXPlus1(top, ds[|ds| - 1])
    ensures var m := |ds| - 1;
            ds == Offsets(c, nonce, m) && pad == Pad(c, nonce, m, rem) && top == Triple(Offset(c, nonce, m))
  {
    ChainIsUnique(c, nonce, ds);
    MasksAreUnique(c, nonce, |ds| - 1, rem, pad, top);
  }

  lemma MasksAreUnique(c: Cipher, nonce: Block, m: nat, rem: nat, pad: Block, top: Block)
    requires IsPermutation(c) && rem <= 16
    requires IsPad(c, pad, Offset(c, nonce, m), rem) && IsProductByXPlus1(top, Offset(c, nonce, m))
    ensures pad == Pad(c, nonce, m, rem) && top == Triple(Offset(c, nonce, m))
  {
    PadMeans(c, nonce, m, rem, pad);
    TripleIsProductByXPlus1(top, Offset(c, nonce, m));
  }

  lemma ChainIsUnique(c: Cipher, nonce: Block, ds: seq<Block>)
    requires OffsetChain(c, nonce, ds)
    ensures ds == Offsets(c, nonce, |ds| - 1)
  {
    forall i | 0 <= i < |ds| ensures ds[i] == Offsets(c, nonce, |ds| - 1)[i] {
      ChainIsOffsets(c, nonce, ds, i);
    }
  }

  /** Encryption yields the OCB2 ciphertext and tag of the plaintext, and there is
  only one such pair. */
  lemma SealIsOcb2(c: Cipher, nonce: Block, plain: Octets, s: Sealed)
    requires IsPermutation(c)
    ensures s == Seal(c, nonce, plain) <==> IsOcb2(c, nonce, plain, s)
  {
    if s == Seal(c, nonce, plain) {
      SealMeansWith(c, nonce, plain, s);
    }
    if IsOcb2(c, nonce, plain, s) {
      var ds, pad, top :| IsOcb2With(c, nonce, plain, s, ds, pad, top);
      PartsAreUnique(c, nonce, ds, |plain| - 16 * FullBlocks(|plain|), pad, top);
      SealMeansWith(c, nonce, plain, s);
    }
  }

  /** Decryption yields the plaintext whose OCB2 ciphertext was given, and the tag
  that belongs to it. */
  lemma OpenIsOcb2(c: Cipher, nonce: Block, text: Octets, s: Sealed)
    requires IsPermutation(c)
    ensures s == Open(c, nonce, text) <==> IsOcb2(c, nonce, s.text, Sealed(text, s.tag))
  {
    SealIsOcb2(c, nonce, s.text, Sealed(text, s.tag));
    SealAfterOpen(c, nonce, text);
    OpenAfterSeal(c, nonce, s.text);
  }

  /** The tag under one nonce depends on the plaintext only through its length and
  the xor of its bytes by position in the block, and it tells these apart. */
  lemma TagsAgree(c: Cipher, nonce: Block, p: Octets, q: Octets)
    requires IsPermutation(c) && |p| == |q|
    ensures Seal(c, nonce, p).tag == Seal(c, nonce, q).tag
       <==> SameColumns(p, q)
  {
    var m := FullBlocks(|p|);
    var pad := Pad(c, nonce, m, |p| - 16 * m);
    var d, e := Seal(c, nonce, p), Seal(c, nonce, q);
    SealInParts(c, nonce, p, d);
    SealInParts(c, nonce, q, e);
    TagMeans(c, nonce, p, m, pad, d.tag);
    TagMeans(c, nonce, q, m, pad, e.tag);
    TagMeans(c, nonce, q, m, pad, d.tag);
    SameTagSameColumns(c, d.tag, p, q, |p| - 16 * m, pad, Triple(Offset(c, nonce, m)));
  }

  lemma SameTagSameColumns(c: Cipher, tag: Block, p: Octets, q: Octets, rem: nat, pad: Block, top: Block)
    requires IsTag(c, tag, p, rem, pad, top)
    ensures IsTag(c, tag, q, rem, pad, top) <==> SameColumns(p, q)
  {
    forall j: nat | j < 16
      ensures c.dec(tag)[j] == Total(q, rem, pad, j) ^ top[j] <==> Column(p, |p|, j) == Column(q, |q|, j)
    {
      assert c.dec(tag)[j] == Total(p, rem, pad, j) ^ top[j];
      XorRightCancels(Total(p, rem, pad, j), Total(q, rem, pad, j), top[j]);
      XorRightCancels(Column(p, |p|, j), Column(q, |q|, j), pad[j]);
    }
  }

  lemma XorRightCancels(x: Octet, y: Octet, t: Octet)
    ensures x ^ t == y ^ t <==> x == y
  {
    OctetXorCancels(t, x);
    OctetXorCancels(t, y);
  }
}
