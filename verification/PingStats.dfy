/** Running ping statistics: mean and variance updated sample by sample. */
module PingStats {

  function Sum(xs: seq<real>): real {
    if xs == [] then 0.0 else Sum(xs[..|xs| - 1]) + xs[|xs| - 1]
  }

  function Square(x: real): real {
    x * x
  }

  /** The sum of the squared distances from m. */
  function Spread(xs: seq<real>, m: real): real {
    if xs == [] then 0.0 else Spread(xs[..|xs| - 1], m) + Square(xs[|xs| - 1] - m)
  }

  /** The number of samples, as a real. */
  function Size(xs: seq<real>): (n: real)
    ensures n >= 0.0 && (xs != [] ==> n > 0.0)
  {
    if xs == [] then 0.0 else Size(xs[..|xs| - 1]) + 1.0
  }

  lemma {:induction false} SizeIsLength(xs: seq<real>)
    ensures Size(xs) == |xs| as real
  {
    if xs != [] {
      SizeIsLength(xs[..|xs| - 1]);
    }
  }

  /** Named, so that proofs pass products on without opening them. */
  predicate Product(a: real, b: real, c: real) {
    a * b == c
  }

  /** avg is the mean of the samples, var their population variance. */
  ghost predicate Describes(xs: seq<real>, avg: real, variance: real) {
    && (xs == [] ==> avg == 0.0 && variance == 0.0)
    && Product(avg, Size(xs), Sum(xs))
    && Product(variance, Size(xs), Spread(xs, avg))
  }

  lemma {:induction false} SpreadIsNonNegative(xs: seq<real>, m: real)
    ensures Spread(xs, m) >= 0.0
  {
    if xs != [] {
      SpreadIsNonNegative(xs[..|xs| - 1], m);
      SquareIsNonNegative(xs[|xs| - 1] - m);
    }
  }

  lemma SquareIsNonNegative(x: real)
    ensures Square(x) >= 0.0
  {
  }

  /** The spread of n samples with sum s after moving the centre from a to b. */
  function Moved(spread: real, s: real, n: real, a: real, b: real): real {
    spread + 2.0 * (a - b) * (s - n * a) + n * Square(a - b)
  }

  lemma {:induction false} SpreadMoves(xs: seq<real>, a: real, b: real)
    ensures Spread(xs, b) == Moved(Spread(xs, a), Sum(xs), Size(xs), a, b)
  {
    if xs != [] {
      var ys, x := xs[..|xs| - 1], xs[|xs| - 1];
      SpreadMoves(ys, a, b);
      OneMoreMoves(Spread(ys, a), Spread(ys, b), Sum(ys), Size(ys), x, a, b);
    }
  }

  lemma OneMoreMoves(fromA: real, fromB: real, s: real, n: real, x: real, a: real, b: real)
    requires fromB == Moved(fromA, s, n, a, b)
    ensures fromB + Square(x - b) == Moved(fromA + Square(x - a), s + x, n + 1.0, a, b)
  {
    var d := a - b;
    assert Square(x - b) == Square(x - a) + 2.0 * d * (x - a) + Square(d);
    assert 2.0 * d * (s + x - (n + 1.0) * a) == 2.0 * d * (s - n * a) + 2.0 * d * (x - a);
    assert (n + 1.0) * Square(d) == n * Square(d) + Square(d);
  }

  /** The algebra of one update, with e the change of the mean: the spread around
  the new mean is the old spread plus the product of the two distances. */
  lemma SpreadUpdate(m: real, s: real, spread: real, x: real, avg: real, e: real, spread': real, product: real)
    requires Product(avg, m, s) && Product(m + 1.0, e, x - avg)
    requires spread' == Moved(spread, s, m, avg, avg + e)
    requires Product(x - avg, x - (avg + e), product)
    ensures spread' + Square(x - (avg + e)) == spread + product
  {
    assert s - m * avg == 0.0;
    assert avg - (avg + e) == -e;
    assert Square(-e) == e * e;
    assert spread' == spread + m * (e * e);
    var d := x - (avg + e);
    assert d == m * e;
    assert Square(d) == (m * e) * (m * e);
    assert (x - avg) * d == ((m + 1.0) * e) * (m * e);
    Expand(m, e);
  }

  lemma Expand(m: real, e: real)
    ensures m * (e * e) + (m * e) * (m * e) == ((m + 1.0) * e) * (m * e)
  {
  }

  lemma MeanUpdate(avg: real, s: real, x: real, m: real, e: real)
    requires Product(avg, m, s) && Product(m + 1.0, e, x - avg)
    ensures Product(avg + e, m + 1.0, s + x)
  {
  }

  lemma VarianceUpdate(v: real, spread: real, n: real, product: real)
    requires Product(v, n - 1.0, spread) && n > 0.0
    ensures Product(v + (product - v) / n, n, spread + product)
  {
    var step := (product - v) / n;
    assert step * n == product - v;
  }

  lemma Grown(xs: seq<real>, x: real, m: real)
    ensures Sum(xs + [x]) == Sum(xs) + x
    ensures Size(xs + [x]) == Size(xs) + 1.0
    ensures Spread(xs + [x], m) == Spread(xs, m) + Square(x - m)
  {
    assert (xs + [x])[..|xs|] == xs;
  }

  lemma NewMean(xs: seq<real>, x: real, avg: real, e: real)
    requires Product(avg, Size(xs), Sum(xs)) && Product(Size(xs) + 1.0, e, x - avg)
    ensures Product(avg + e, Size(xs + [x]), Sum(xs + [x]))
  {
    Grown(xs, x, avg);
    MeanUpdate(avg, Sum(xs), x, Size(xs), e);
  }

  lemma NewSpread(xs: seq<real>, x: real, avg: real, e: real, product: real)
    requires Product(avg, Size(xs), Sum(xs)) && Product(Size(xs) + 1.0, e, x - avg)
    requires Product(x - avg, x - (avg + e), product)
    ensures Spread(xs + [x], avg + e) == Spread(xs, avg) + product
  {
    Grown(xs, x, avg + e);
    SpreadMoves(xs, avg, avg + e);
    SpreadUpdate(Size(xs), Sum(xs), Spread(xs, avg), x, avg, e, Spread(xs, avg + e), product);
  }

  lemma NewVariance(xs: seq<real>, x: real, avg: real, variance: real, n: real, product: real, spread: real)
    requires Product(variance, Size(xs), Spread(xs, avg)) && spread == Spread(xs, avg) + product
    requires n == Size(xs) + 1.0
    ensures Product(variance + (product - variance) / n, Size(xs + [x]), spread)
  {
    Grown(xs, x, avg);
    VarianceUpdate(variance, Spread(xs, avg), n, product);
  }

  lemma UpdateDescribes(xs: seq<real>, x: real, avg: real, variance: real, n: real, e: real, product: real)
    requires Describes(xs, avg, variance) && n == Size(xs) + 1.0
    requires e == (x - avg) / n && Product(x - avg, x - (avg + e), product)
    ensures Describes(xs + [x], avg + e, variance + (product - variance) / n)
  {
    DivideOut(x - avg, n, e);
    NewMean(xs, x, avg, e);
    NewSpread(xs, x, avg, e, product);
    NewVariance(xs, x, avg, variance, n, product, Spread(xs + [x], avg + e));
  }

  /** The updates of mean and variance by the n-th sample. */
  function NextAvg(avg: real, x: real, n: real): real
    requires n > 0.0
  {
    avg + (x - avg) / n
  }

  function NextVar(variance: real, product: real, n: real): real
    requires n > 0.0
  {
    variance + (product - variance) / n
  }

  lemma NextDescribes(xs: seq<real>, x: real, avg: real, variance: real, n: real, product: real)
    requires Describes(xs, avg, variance) && n == |xs| as real + 1.0
    requires Product(x - avg, x - NextAvg(avg, x, n), product)
    ensures Describes(xs + [x], NextAvg(avg, x, n), NextVar(variance, product, n))
  {
    SizeIsLength(xs);
    UpdateDescribes(xs, x, avg, variance, n, (x - avg) / n, product);
  }

  function NextBoth(avg: real, variance: real, x: real, n: real): (real, real)
    requires n > 0.0
  {
    (NextAvg(avg, x, n), NextVar(variance, (x - avg) * (x - NextAvg(avg, x, n)), n))
  }

  lemma NextBothDescribes(xs: seq<real>, x: real, avg: real, variance: real, n: real)
    requires Describes(xs, avg, variance) && n == |xs| as real + 1.0
    ensures var (avg', variance') := NextBoth(avg, variance, x, n); Describes(xs + [x], avg', variance')
  {
    var product := (x - avg) * (x - NextAvg(avg, x, n));
    assert Product(x - avg, x - NextAvg(avg, x, n), product);
    NextDescribes(xs, x, avg, variance, n, product);
  }

  /** Mean and variance after recording all samples in turn. */
  function Recorded(xs: seq<real>): (real, real) {
    if xs == [] then (0.0, 0.0)
    else
      var (avg, variance) := Recorded(xs[..|xs| - 1]);
      NextBoth(avg, variance, xs[|xs| - 1], |xs| as real)
  }

  /** After any sequence of samples the two numbers are exactly the arithmetic mean
  and the population variance of all of them, and the variance is not negative. */
  lemma {:induction false} RecordedIsMeanAndVariance(xs: seq<real>)
    ensures Describes(xs, Recorded(xs).0, Recorded(xs).1)
    ensures xs != [] ==>
              && Recorded(xs).0 == Sum(xs) / |xs| as real
              && Recorded(xs).1 == Spread(xs, Recorded(xs).0) / |xs| as real
              && Recorded(xs).1 >= 0.0
  {
    if xs != [] {
      var ys, x, n := xs[..|xs| - 1], xs[|xs| - 1], |xs| as real;
      RecordedIsMeanAndVariance(ys);
      var (avg, variance) := Recorded(ys);
      assert xs == ys + [x];
      NextBothDescribes(ys, x, avg, variance, n);
      MeanOf(xs, Recorded(xs).0, Recorded(xs).1);
    }
  }

  lemma DivideOut(a: real, n: real, e: real)
    requires n > 0.0 && e == a / n
    ensures Product(n, e, a)
  {
  }

  class PingStats {
    var tcpPackets: nat
    var tcpPingAvg: real
    var tcpPingVar: real
    var count: nat
    ghost var samples: seq<real>

    ghost predicate Valid()
      reads this
    {
      count == |samples| && Describes(samples, tcpPingAvg, tcpPingVar)
    }

    constructor ()
      ensures Valid() && samples == [] && tcpPackets == 0
    {
      tcpPackets, tcpPingAvg, tcpPingVar, count, samples := 0, 0.0, 0.0, 0, [];
    }

    /** Afterwards the fields are the arithmetic mean and the population variance of
    all samples so far. */
    method RecordTcpRtt(rttMs: real)
      requires Valid()
      modifies this
      ensures Valid() && samples == old(samples) + [rttMs]
      ensures tcpPackets == old(tcpPackets) + 1
      ensures tcpPingAvg == Sum(samples) / |samples| as real
      ensures tcpPingVar == Spread(samples, tcpPingAvg) / |samples| as real && tcpPingVar >= 0.0
    {
      tcpPackets := tcpPackets + 1;
      count := count + 1;
      var n := count as real;
      var delta := rttMs - tcpPingAvg;
      tcpPingAvg := tcpPingAvg + delta / n;
      var delta2 := rttMs - tcpPingAvg;
      assert tcpPingAvg == NextAvg(old(tcpPingAvg), rttMs, n);
      assert Product(delta, delta2, delta * delta2);
      NextDescribes(samples, rttMs, old(tcpPingAvg), tcpPingVar, n, delta * delta2);
      tcpPingVar := tcpPingVar + (delta * delta2 - tcpPingVar) / n;
      assert tcpPingVar == NextVar(old(tcpPingVar), delta * delta2, n);
      samples := samples + [rttMs];
      MeanOf(samples, tcpPingAvg, tcpPingVar);
    }
  }

  lemma MeanOf(xs: seq<real>, avg: real, variance: real)
    requires Describes(xs, avg, variance) && xs != []
    ensures avg == Sum(xs) / |xs| as real
    ensures variance == Spread(xs, avg) / |xs| as real && variance >= 0.0
  {
    SizeIsLength(xs);
    SpreadIsNonNegative(xs, avg);
    DivideBack(avg, Size(xs), Sum(xs));
    DivideBack(variance, Size(xs), Spread(xs, avg));
  }

  lemma DivideBack(a: real, n: real, s: real)
    requires n > 0.0 && Product(a, n, s)
    ensures a == s / n
    ensures s >= 0.0 ==> a >= 0.0
  {
    if a < 0.0 {
      assert (-a) * n > 0.0;
    }
  }
}
