/** 16-byte blocks as elements of GF(2^128).

A block is a big-endian polynomial over GF(2): coefficient k sits in byte
15 - k/8 at bit k%8. `Double` and `Triple` are what the in-place byte loops of
the cipher compute; the theorems say that these are the products by x and by
x + 1 modulo x^128 + x^7 + x^2 + x + 1. */
module Gf128 {
  import opened Bytes

  const BLOCK_SIZE: nat := 16

  type Block = b: Octets | |b| == BLOCK_SIZE witness seq(BLOCK_SIZE, _ => 0)

  const ZeroBlock: Block := [0, 0, 0, 0, 0, 0, 0, 0, 0, 0, 0, 0, 0, 0, 0, 0]

  /** The first n bytes of a xor b. The recursion keeps the solver from
  expanding whole blocks; `XorAt` gives the bytes. */
  function XorPrefix(a: Octets, b: Octets, n: nat): (c: Octets)
    requires n <= |a| && n <= |b|
    ensures |c| == n
  {
    if n == 0 then [] else XorPrefix(a, b, n - 1) + [a[n - 1] ^ b[n - 1]]
  }

  function Xor(a: Block, b: Block): Block {
    XorPrefix(a, b, |a|)
  }

  lemma {:induction false} XorPrefixAt(a: Octets, b: Octets, n: nat, i: nat)
    requires i < n <= |a| && n <= |b|
    ensures XorPrefix(a, b, n)[i] == a[i] ^ b[i]
  {
    if i < n - 1 {
      XorPrefixAt(a, b, n - 1, i);
    }
  }

  lemma XorAt(a: Block, b: Block, i: nat)
    requires i < BLOCK_SIZE
    ensures Xor(a, b)[i] == a[i] ^ b[i]
  {
    XorPrefixAt(a, b, |a|, i);
  }

  lemma XorCancels(a: Block, b: Block)
    ensures Xor(a, Xor(a, b)) == b
    ensures Xor(Xor(b, a), a) == b
  {
    forall i | 0 <= i < BLOCK_SIZE ensures Xor(a, Xor(a, b))[i] == b[i] && Xor(Xor(b, a), a)[i] == b[i] {
      XorAt(a, b, i);
      XorAt(b, a, i);
      XorAt(a, Xor(a, b), i);
      XorAt(Xor(b, a), a, i);
      OctetXorCancels(a[i], b[i]);
    }
  }

  lemma OctetXorCancels(x: Octet, y: Octet)
    ensures x ^ (x ^ y) == y
    ensures (x ^ y) ^ x == y
    ensures x ^ (y ^ x) == y
    ensures (y ^ x) ^ x == y
    ensures 0 ^ x == x
  {
  }

  /** Byte i of the doubled block. */
  function DoubleByte(b: Block, i: nat): (r: Octet)
    requires i < BLOCK_SIZE
  {
    if i < BLOCK_SIZE - 1 then (b[i] << 1) | (b[i + 1] >> 7)
    else (b[i] << 1) ^ ((b[0] >> 7) * 0x87)
  }

  function DoublePrefix(b: Block, n: nat): (r: Octets)
    requires n <= BLOCK_SIZE
    ensures |r| == n
  {
    if n == 0 then [] else DoublePrefix(b, n - 1) + [DoubleByte(b, n - 1)]
  }

  function Double(b: Block): Block {
    DoublePrefix(b, |b|)
  }

  lemma {:induction false} DoublePrefixAt(b: Block, n: nat, i: nat)
    requires i < n <= BLOCK_SIZE
    ensures DoublePrefix(b, n)[i] == DoubleByte(b, i)
  {
    if i < n - 1 {
      DoublePrefixAt(b, n - 1, i);
    }
  }

  lemma DoubleAt(b: Block, i: nat)
    requires i < BLOCK_SIZE
    ensures Double(b)[i] == DoubleByte(b, i)
  {
    DoublePrefixAt(b, |b|, i);
  }

  function Triple(b: Block): Block {
    Xor(Double(b), b)
  }

  /** Byte i of the tripled block. */
  function TripleByte(b: Block, i: nat): (r: Octet)
    requires i < BLOCK_SIZE
  {
    b[i] ^ DoubleByte(b, i)
  }

  lemma TripleByBytes(b: Block, r: Block)
    requires forall i :: 0 <= i < BLOCK_SIZE ==> r[i] == TripleByte(b, i)
    ensures r == Triple(b)
  {
    forall i | 0 <= i < BLOCK_SIZE ensures r[i] == Triple(b)[i] {
      XorAt(Double(b), b, i);
      DoubleAt(b, i);
      XorCommutes(Double(b)[i], b[i]);
    }
  }

  lemma XorCommutes(x: Octet, y: Octet)
    ensures x ^ y == y ^ x
  {
  }

  // -- Polynomials ----------------------------------------------------

  function Mask(j: nat): Octet {
    match j
    case 0 => 1 case 1 => 2 case 2 => 4 case 3 => 8
    case 4 => 16 case 5 => 32 case 6 => 64 case _ => 128
  }

  predicate Bit(x: Octet, j: nat) {
    x & Mask(j) != 0
  }

  /** The coefficient of x^k; zero from degree 128 on. */
  predicate Coeff(b: Block, k: nat) {
    k < 128 && Bit(b[15 - k / 8], k % 8)
  }

  /** The coefficient of x^k in x * b, not reduced. */
  predicate ShiftedCoeff(b: Block, k: nat) {
    k > 0 && Coeff(b, k - 1)
  }

  /** The coefficient of x^k in x^128 + x^7 + x^2 + x + 1. */
  predicate ModulusCoeff(k: nat) {
    k == 128 || k == 7 || k == 2 || k == 1 || k == 0
  }

  /** q is the remainder of x * b: the two differ by a multiple of the modulus
  (of degree at most 0, since x * b has degree at most 128). */
  ghost predicate IsProductByX(q: Block, b: Block) {
    exists c: bool :: ProductByXWith(q, b, c)
  }

  ghost predicate ProductByXWith(q: Block, b: Block, c: bool) {
    forall k: nat | k <= 128 ::
      ShiftedCoeff(b, k) == (Coeff(q, k) != (c && ModulusCoeff(k)))
  }

  /** q is the remainder of (x + 1) * b. */
  ghost predicate IsProductByXPlus1(q: Block, b: Block) {
    exists c: bool :: ProductByXPlus1With(q, b, c)
  }

  ghost predicate ProductByXPlus1With(q: Block, b: Block, c: bool) {
    forall k: nat | k <= 128 ::
      (ShiftedCoeff(b, k) != Coeff(b, k)) == (Coeff(q, k) != (c && ModulusCoeff(k)))
  }

  lemma BitOfXor(x: Octet, y: Octet, j: nat)
    requires j < 8
    ensures Bit(x ^ y, j) == (Bit(x, j) != Bit(y, j))
  {
    var m := Mask(j);
    assert (x ^ y) & m == (x & m) ^ (y & m);
    if j == 0 { OneBit(x, y, 1); }
    else if j == 1 { OneBit(x, y, 2); }
    else if j == 2 { OneBit(x, y, 4); }
    else if j == 3 { OneBit(x, y, 8); }
    else if j == 4 { OneBit(x, y, 16); }
    else if j == 5 { OneBit(x, y, 32); }
    else if j == 6 { OneBit(x, y, 64); }
    else { OneBit(x, y, 128); }
  }

  lemma OneBit(x: Octet, y: Octet, m: Octet)
    requires m == 1 || m == 2 || m == 4 || m == 8 || m == 16 || m == 32 || m == 64 || m == 128
    ensures ((x ^ y) & m != 0) == ((x & m != 0) != (y & m != 0))
  {
  }

  lemma OctetFromBits(x: Octet, y: Octet)
    requires forall j: nat | j < 8 :: Bit(x, j) == Bit(y, j)
    ensures x == y
  {
    assert forall j | 0 <= j < 8 :: Bit(x, j) == Bit(y, j);
    assert Bit(x, 0) == Bit(y, 0) && Bit(x, 1) == Bit(y, 1) && Bit(x, 2) == Bit(y, 2) && Bit(x, 3) == Bit(y, 3);
    assert Bit(x, 4) == Bit(y, 4) && Bit(x, 5) == Bit(y, 5) && Bit(x, 6) == Bit(y, 6) && Bit(x, 7) == Bit(y, 7);
  }

  lemma BlockFromCoeffs(a: Block, b: Block)
    requires forall k: nat | k < 128 :: Coeff(a, k) == Coeff(b, k)
    ensures a == b
  {
    forall i | 0 <= i < BLOCK_SIZE ensures a[i] == b[i] {
      forall j: nat | j < 8 ensures Bit(a[i], j) == Bit(b[i], j) {
        var k := 8 * (15 - i) + j;
        assert k / 8 == 15 - i && k % 8 == j;
        assert Coeff(a, k) == Coeff(b, k);
      }
      OctetFromBits(a[i], b[i]);
    }
  }

  /** The bits of one byte shifted left, with `low` entering at the bottom. */
  lemma ShiftBits(x: Octet, y: Octet, j: nat)
    requires j < 8
    ensures Bit((x << 1) | (y >> 7), j) == if j == 0 then Bit(y, 7) else Bit(x, j - 1)
  {
  }

  lemma ReduceBits(x: Octet, top: Octet, j: nat)
    requires j < 8
    ensures Bit((x << 1) ^ ((top >> 7) * 0x87), j) == ((j > 0 && Bit(x, j - 1)) != (Bit(top, 7) && ModulusCoeff(j)))
  {
  }

  lemma CoeffOfDouble(b: Block, k: nat)
    requires k < 128
    ensures Coeff(Double(b), k) == (ShiftedCoeff(b, k) != (Coeff(b, 127) && ModulusCoeff(k)))
  {
    if k < 8 {
      CoeffOfDoubleLow(b, k);
    } else {
      CoeffOfDoubleHigh(b, k / 8, k % 8);
    }
  }

  lemma CoeffOfDoubleLow(b: Block, k: nat)
    requires k < 8
    ensures Coeff(Double(b), k) == (ShiftedCoeff(b, k) != (Coeff(b, 127) && ModulusCoeff(k)))
  {
    ReduceBits(b[15], b[0], k);
    DoubleAt(b, 15);
  }

  lemma CoeffOfDoubleHigh(b: Block, i: nat, j: nat)
    requires 1 <= i < 16 && j < 8
    ensures Coeff(Double(b), 8 * i + j) == Coeff(b, 8 * i + j - 1)
  {
    var k := 8 * i + j;
    assert k / 8 == i && k % 8 == j;
    ShiftBits(b[15 - i], b[16 - i], j);
    DoubleAt(b, 15 - i);
    if j == 0 {
      assert (k - 1) / 8 == i - 1 && (k - 1) % 8 == 7;
    } else {
      assert (k - 1) / 8 == i && (k - 1) % 8 == j - 1;
    }
  }

  lemma CoeffOfXor(a: Block, b: Block, k: nat)
    requires k < 128
    ensures Coeff(Xor(a, b), k) == (Coeff(a, k) != Coeff(b, k))
  {
    var i, j := 15 - k / 8, k % 8;
    XorAt(a, b, i);
    BitOfXor(a[i], b[i], j);
  }

  /** The doubling loop computes the product by x in GF(2^128), and nothing else
  is that product. */
  lemma DoubleIsProductByX(q: Block, b: Block)
    ensures q == Double(b) <==> IsProductByX(q, b)
  {
    forall k: nat | k < 128
      ensures Coeff(Double(b), k) == (ShiftedCoeff(b, k) != (Coeff(b, 127) && ModulusCoeff(k)))
    {
      CoeffOfDouble(b, k);
    }
    if q == Double(b) {
      assert ProductByXWith(q, b, Coeff(b, 127));
    }
    if IsProductByX(q, b) {
      var c: bool :| ProductByXWith(q, b, c);
      assert ShiftedCoeff(b, 128) == (Coeff(q, 128) != (c && ModulusCoeff(128)));
      assert c == Coeff(b, 127);
      BlockFromCoeffs(q, Double(b));
    }
  }

  lemma TripleIsProductByXPlus1(q: Block, b: Block)
    ensures q == Triple(b) <==> IsProductByXPlus1(q, b)
  {
    forall k: nat | k < 128
      ensures Coeff(Triple(b), k) == ((ShiftedCoeff(b, k) != Coeff(b, k)) != (Coeff(b, 127) && ModulusCoeff(k)))
    {
      CoeffOfDouble(b, k);
      CoeffOfXor(Double(b), b, k);
    }
    if q == Triple(b) {
      assert ProductByXPlus1With(q, b, Coeff(b, 127));
    }
    if IsProductByXPlus1(q, b) {
      var c: bool :| ProductByXPlus1With(q, b, c);
      assert (ShiftedCoeff(b, 128) != Coeff(b, 128)) == (Coeff(q, 128) != (c && ModulusCoeff(128)));
      assert c == Coeff(b, 127);
      BlockFromCoeffs(q, Triple(b));
    }
  }

  lemma DoubleIsLinear(a: Block, b: Block)
    ensures Double(Xor(a, b)) == Xor(Double(a), Double(b))
  {
    forall k: nat | k < 128
      ensures Coeff(Double(Xor(a, b)), k) == Coeff(Xor(Double(a), Double(b)), k)
    {
      CoeffOfDouble(Xor(a, b), k);
      CoeffOfDouble(a, k);
      CoeffOfDouble(b, k);
      CoeffOfXor(Double(a), Double(b), k);
      CoeffOfXor(a, b, 127);
      if k > 0 {
        CoeffOfXor(a, b, k - 1);
      }
    }
    BlockFromCoeffs(Double(Xor(a, b)), Xor(Double(a), Double(b)));
  }

  /** Doubling loses nothing: the constant coefficient of the product tells
  whether it was reduced. */
  lemma DoubleIsInjective(a: Block, b: Block)
    requires Double(a) == Double(b)
    ensures a == b
  {
    CoeffOfDouble(a, 0);
    CoeffOfDouble(b, 0);
    forall k: nat | k < 128 ensures Coeff(a, k) == Coeff(b, k) {
      if k < 127 {
        CoeffOfDouble(a, k + 1);
        CoeffOfDouble(b, k + 1);
      }
    }
    BlockFromCoeffs(a, b);
  }

  // -- The in-place loops ---------------------------------------------

  method DoubleInPlace(block: array<Octet>)
    requires block.Length == BLOCK_SIZE
    modifies block
    ensures block[..] == Double(old(block[..]))
  {
    ghost var was: Block := block[..];
    var carry := block[0] >> 7;
    for i := 0 to BLOCK_SIZE - 1
      invariant forall j :: 0 <= j < i ==> block[j] == DoubleByte(was, j)
      invariant forall j :: i <= j < BLOCK_SIZE ==> block[j] == was[j]
    {
      block[i] := (block[i] << 1) | (block[i + 1] >> 7);
    }
    block[BLOCK_SIZE - 1] := (block[BLOCK_SIZE - 1] << 1) ^ (carry * 0x87);
    forall i | 0 <= i < BLOCK_SIZE ensures block[..][i] == Double(was)[i] {
      DoubleAt(was, i);
    }
  }

  method TripleInPlace(block: array<Octet>)
    requires block.Length == BLOCK_SIZE
    modifies block
    ensures block[..] == Triple(old(block[..]))
  {
    ghost var was: Block := block[..];
    var carry := block[0] >> 7;
    for i := 0 to BLOCK_SIZE - 1
      invariant forall j :: 0 <= j < i ==> block[j] == TripleByte(was, j)
      invariant forall j :: i <= j < BLOCK_SIZE ==> block[j] == was[j]
    {
      block[i] := block[i] ^ ((block[i] << 1) | (block[i + 1] >> 7));
    }
    var last := BLOCK_SIZE - 1;
    block[last] := block[last] ^ ((block[last] << 1) ^ (carry * 0x87));
    TripleByBytes(was, block[..]);
  }

  method XorInPlace(a: array<Octet>, b: Block)
    requires a.Length == BLOCK_SIZE
    modifies a
    ensures a[..] == Xor(old(a[..]), b)
  {
    ghost var was: Block := a[..];
    for i := 0 to BLOCK_SIZE
      invariant forall j :: 0 <= j < i ==> a[j] == was[j] ^ b[j]
      invariant forall j :: i <= j < BLOCK_SIZE ==> a[j] == was[j]
    {
      a[i] := a[i] ^ b[i];
    }
    forall i | 0 <= i < BLOCK_SIZE ensures a[..][i] == Xor(was, b)[i] {
      XorAt(was, b, i);
    }
  }
}
