/** Octets and little-endian counters.

Every byte of the project is a `bv8`. `Num` and `Byte` move between octets and
naturals; `Value` and `Digits` read and write a little-endian counter, and
`Increment` is the ripple carry that both nonce directions use. */
module Bytes {

  type Octet = bv8
  type Octets = seq<Octet>

  /** How many octets precede b. Counting, rather than converting, keeps the
  bit-vector theory out of proofs about counters; `CountIsConversion` says that
  the two are the same. */
  function Count(b: Octet): nat {
    if b == 0 then 0 else Count(b - 1) + 1
  }

  lemma CountIsConversion(b: Octet)
    ensures Count(b) == b as int
  {
    if b != 0 {
      CountIsConversion(b - 1);
    }
  }

  function Num(b: Octet): (n: nat)
    ensures n < 256
  {
    CountIsConversion(b);
    Count(b)
  }

  /** The octet of n modulo 256. */
  function Byte(n: nat): (b: Octet)
    ensures Num(b) == n % 256
  {
    if n == 0 then 0
    else
      NumSuccessor(Byte(n - 1));
      ModSuccessor(n);
      Byte(n - 1) + 1
  }

  lemma ModSuccessor(n: nat)
    requires n > 0
    ensures ((n - 1) % 256 + 1) % 256 == n % 256
  {
  }

  lemma NumInjective(a: Octet, b: Octet)
    requires Num(a) == Num(b)
    ensures a == b
  {
    CountIsConversion(a);
    CountIsConversion(b);
  }

  lemma NumSuccessor(b: Octet)
    ensures Num(b + 1) == (Num(b) + 1) % 256
    ensures b + 1 == 0 <==> Num(b) == 255
  {
    CountIsConversion(b);
    CountIsConversion(b + 1);
  }

  lemma ByteOf(n: nat, b: Octet)
    requires n % 256 == Num(b)
    ensures Byte(n) == b
  {
    NumInjective(Byte(n), b);
  }

  lemma NumOrder(a: Octet, b: Octet)
    ensures a < b <==> Num(a) < Num(b)
  {
    CountIsConversion(a);
    CountIsConversion(b);
  }

  lemma NumComplement(b: Octet)
    ensures Num(!b) == 255 - Num(b)
  {
    CountIsConversion(b);
    CountIsConversion(!b);
  }

  /** 256 to the power k. */
  function Radix(k: nat): (r: nat)
    ensures r > 0
  {
    if k == 0 then 1 else 256 * Radix(k - 1)
  }

  /** The number a little-endian octet string stands for. */
  function Value(s: Octets): (v: nat)
    ensures v < Radix(|s|)
  {
    if s == [] then 0 else Num(s[0]) + 256 * Value(s[1..])
  }

  /** The k low little-endian octets of n. */
  function Digits(n: nat, k: nat): (s: Octets)
    ensures |s| == k
  {
    if k == 0 then [] else [Byte(n)] + Digits(n / 256, k - 1)
  }

  /** Add one, carrying from octet to octet and dropping the carry out of the last. */
  function Increment(s: Octets): (t: Octets)
    ensures |t| == |s|
  {
    if s == [] then []
    else if s[0] + 1 != 0 then [s[0] + 1] + s[1..]
    else [0] + Increment(s[1..])
  }

  lemma {:induction false} DigitsOfValue(s: Octets)
    ensures Digits(Value(s), |s|) == s
  {
    if s != [] {
      DigitsOfValue(s[1..]);
      assert Value(s) / 256 == Value(s[1..]);
      assert Value(s) % 256 == Num(s[0]);
      NumInjective(Byte(Value(s)), s[0]);
    }
  }

  lemma {:induction false} ValueOfDigits(n: nat, k: nat)
    ensures Value(Digits(n, k)) == n % Radix(k)
  {
    if k > 0 {
      ValueOfDigits(n / 256, k - 1);
      ModByProduct(n, Radix(k - 1));
    }
  }

  lemma ModByProduct(n: nat, m: nat)
    requires m > 0
    ensures n % (256 * m) == n % 256 + 256 * ((n / 256) % m)
  {
    var q := n / 256 / m;
    var r := n % 256 + 256 * ((n / 256) % m);
    assert n / 256 == m * q + (n / 256) % m;
    assert n == 256 * m * q + r by {
      assert 256 * (m * q) == 256 * m * q;
    }
    assert 0 <= r < 256 * m;
    UniqueRemainder(n, 256 * m, q, r);
  }

  lemma UniqueRemainder(n: nat, d: nat, q: nat, r: nat)
    requires d > 0 && r < d && n == d * q + r
    ensures n % d == r && n / d == q
  {
    var q', r' := n / d, n % d;
    assert n == d * q' + r' && 0 <= r' < d;
    EuclidUnique(d, q, r, q', r');
  }

  lemma EuclidUnique(d: nat, q: nat, r: nat, q': nat, r': nat)
    requires r < d && r' < d && d * q + r == d * q' + r'
    ensures q == q' && r == r'
  {
    if q > q' {
      Stretch(d, q', q);
    } else if q < q' {
      Stretch(d, q, q');
    }
  }

  lemma Stretch(d: nat, p: nat, q: nat)
    requires p < q
    ensures d * p + d <= d * q
  {
    assert d * q == d * (q - 1) + d;
    if p < q - 1 {
      Stretch(d, p, q - 1);
    }
  }

  /** Two digit strings of the same length agree exactly when the numbers are
  congruent modulo 256^k. */
  lemma DigitsEqual(m: nat, n: nat, k: nat)
    ensures Digits(m, k) == Digits(n, k) <==> m % Radix(k) == n % Radix(k)
  {
    ValueOfDigits(m, k);
    ValueOfDigits(n, k);
    if m % Radix(k) == n % Radix(k) {
      DigitsOfValue(Digits(m, k));
      DigitsOfValue(Digits(n, k));
    }
  }

  /** The carry loop counts: incrementing the digits of n gives the digits of n+1,
  also when every octet wraps. */
  lemma {:induction false} IncrementCounts(n: nat, k: nat)
    ensures Increment(Digits(n, k)) == Digits(n + 1, k)
  {
    if k > 0 {
      NumSuccessor(Byte(n));
      var d := Digits(n, k);
      assert d[0] == Byte(n) && d[1..] == Digits(n / 256, k - 1);
      if n % 256 == 255 {
        IncrementCounts(n / 256, k - 1);
        assert (n + 1) / 256 == n / 256 + 1;
      } else {
        assert (n + 1) / 256 == n / 256;
      }
    }
  }

  // -- Most significant octet first -----------------------------------

  /** The k low octets of n, most significant first. */
  function BigEndian(n: nat, k: nat): (s: Octets)
    ensures |s| == k
  {
    if k == 0 then [] else BigEndian(n / 256, k - 1) + [Byte(n)]
  }

  function BigValue(s: Octets): (v: nat)
    ensures v < Radix(|s|)
  {
    if s == [] then 0 else 256 * BigValue(s[..|s| - 1]) + Num(s[|s| - 1])
  }

  lemma {:induction false} BigEndianRoundTrip(n: nat, k: nat)
    ensures BigValue(BigEndian(n, k)) == n % Radix(k)
  {
    if k > 0 {
      BigEndianRoundTrip(n / 256, k - 1);
      ModByProduct(n, Radix(k - 1));
      assert BigEndian(n, k)[..k - 1] == BigEndian(n / 256, k - 1);
    }
  }

  lemma {:induction false} BigEndianOfValue(s: Octets)
    ensures BigEndian(BigValue(s), |s|) == s
  {
    if s != [] {
      var front, b := s[..|s| - 1], s[|s| - 1];
      BigEndianOfValue(front);
      assert BigValue(s) / 256 == BigValue(front);
      ByteOf(BigValue(s), b);
    }
  }
}
