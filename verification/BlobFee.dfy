/**
  The blob gas price: an integer approximation of factor * e^(numerator / denominator) by a
  loop whose accumulator first grows and then shrinks to nothing.
*/
module BlobFee {

  // ----- products and quotients -----

  lemma MultiplyMonotone(a: nat, b: nat, c: nat, d: nat)
    requires a <= b && c <= d
    ensures a * c <= b * d
  {
    assert (b - a) * c >= 0 && b * (d - c) >= 0;
  }

  lemma MultiplyLess(a: nat, b: nat, c: nat)
    requires a < b && c > 0
    ensures c * a < b * c
  {
    assert (b - a) * c > 0;
  }

  /** A quotient is below whatever its divisor multiplies beyond the dividend. */
  lemma QuotientBelow(a: nat, c: nat, bound: nat)
    requires c > 0 && a < c * bound
    ensures a / c < bound
  {
    if a / c >= bound {
      MultiplyMonotone(bound, a / c, c, c);
      assert false;
    }
  }

  lemma DivideMonotone(a: nat, b: nat, c: nat)
    requires a <= b && c > 0
    ensures a / c <= b / c
  {
    var r := b / c;
    assert b < c * (r + 1);
    QuotientBelow(a, c, r + 1);
  }

  lemma DivideExact(a: nat, c: nat)
    requires c > 0
    ensures a * c / c == a
  {
    var q := a * c / c;
    assert c * q <= a * c;
    QuotientBelow(a * c, c, a + 1);
    if q < a {
      MultiplyMonotone(q + 1, a, c, c);
      assert false;
    }
  }

  // ----- the loop and what it sums -----

  /** Below this many more rounds the accumulator may still grow. */
  function Rising(numerator: nat, denominator: nat, i: nat): nat {
    if denominator * i <= numerator then numerator - denominator * i + 1 else 0
  }

  function NextTerm(acc: nat, numerator: nat, denominator: nat, i: nat): nat
    requires denominator > 0 && i > 0
  {
    acc * numerator / (denominator * i)
  }

  lemma Shrinks(acc: nat, numerator: nat, denominator: nat, i: nat)
    requires denominator > 0 && i > 0 && acc > 0
    ensures Rising(numerator, denominator, i + 1) < Rising(numerator, denominator, i)
         || (Rising(numerator, denominator, i + 1) == Rising(numerator, denominator, i) == 0
             && NextTerm(acc, numerator, denominator, i) < acc)
  {
    var m := denominator * i;
    assert denominator * (i + 1) == m + denominator;
    if numerator < m {
      MultiplyLess(numerator, m, acc);
      QuotientBelow(acc * numerator, m, acc);
    }
  }

  /** The sum of an accumulator and all its successors. */
  function Sum(acc: nat, numerator: nat, denominator: nat, i: nat): nat
    requires denominator > 0 && i > 0
    decreases Rising(numerator, denominator, i), acc
  {
    if acc == 0 then 0
    else
      Shrinks(acc, numerator, denominator, i);
      acc + Sum(NextTerm(acc, numerator, denominator, i), numerator, denominator, i + 1)
  }

  /** The accumulators themselves, one a round. */
  function Terms(acc: nat, numerator: nat, denominator: nat, i: nat): seq<nat>
    requires denominator > 0 && i > 0
    decreases Rising(numerator, denominator, i), acc
  {
    if acc == 0 then []
    else
      Shrinks(acc, numerator, denominator, i);
      [acc] + Terms(NextTerm(acc, numerator, denominator, i), numerator, denominator, i + 1)
  }

  function Exponential(factor: nat, numerator: nat, denominator: nat): nat
    requires denominator > 0
  {
    Sum(factor * denominator, numerator, denominator, 1) / denominator
  }

  // ----- the series, without the loop -----

  /** `next` is the quotient of `acc * numerator` by `denominator * i`. */
  predicate Follows(acc: nat, next: nat, numerator: nat, denominator: nat, i: nat) {
    next * (denominator * i) <= acc * numerator < (next + 1) * (denominator * i)
  }

  /** From a first term on each is followed by the next quotient, until that is nothing. */
  ghost predicate SeriesFrom(ts: seq<nat>, acc: nat, numerator: nat, denominator: nat, i: nat) {
    && ts != [] && ts[0] == acc
    && (forall j, k :: 0 <= j < k == j + 1 < |ts| ==> Follows(ts[j], ts[k], numerator, denominator, i + j))
    && ts[|ts|-1] * numerator < denominator * (i + |ts| - 1)
  }

  ghost predicate IsSeriesTotal(result: nat, factor: nat, numerator: nat, denominator: nat)
    requires denominator > 0
  {
    exists ts :: SeriesFrom(ts, factor * denominator, numerator, denominator, 1) && result == Total(ts) / denominator
  }

  function Total(ts: seq<nat>): nat {
    if ts == [] then 0 else Total(ts[..|ts|-1]) + ts[|ts|-1]
  }

  lemma {:induction false} TotalFront(t: nat, ts: seq<nat>)
    ensures Total([t] + ts) == t + Total(ts)
  {
    if ts == [] {
      assert [t] + ts == [t] && [t][..0] == [];
    } else {
      assert ([t] + ts)[..|ts|] == [t] + ts[..|ts|-1];
      TotalFront(t, ts[..|ts|-1]);
    }
  }

  lemma QuotientFollows(acc: nat, next: nat, numerator: nat, denominator: nat, i: nat)
    requires denominator > 0 && i > 0
    ensures Follows(acc, next, numerator, denominator, i) <==> next == NextTerm(acc, numerator, denominator, i)
  {
    QuotientIs(acc * numerator, denominator * i, next);
  }

  lemma QuotientIs(a: nat, c: nat, q: nat)
    requires c > 0
    ensures q * c <= a < (q + 1) * c <==> q == a / c
  {
    var d := a / c;
    assert d * c <= a < (d + 1) * c;
    if q < d { MultiplyMonotone(q + 1, d, c, c); }
    if q > d { MultiplyMonotone(d + 1, q, c, c); }
  }

  lemma SeriesTail(ts: seq<nat>, acc: nat, numerator: nat, denominator: nat, i: nat)
    requires SeriesFrom(ts, acc, numerator, denominator, i) && |ts| > 1
    ensures SeriesFrom(ts[1..], ts[1], numerator, denominator, i + 1)
    ensures Follows(acc, ts[1], numerator, denominator, i)
  {
    assert Follows(ts[0], ts[1], numerator, denominator, i + 0);
    var rest := ts[1..];
    forall j, k | 0 <= j < k == j + 1 < |rest| ensures Follows(rest[j], rest[k], numerator, denominator, i + 1 + j) {
      assert rest[j] == ts[j + 1] && rest[k] == ts[k + 1];
    }
  }

  /** Every series from a term sums up to what the loop adds from there on. */
  lemma {:induction false} SeriesTotal(ts: seq<nat>, acc: nat, numerator: nat, denominator: nat, i: nat)
    requires denominator > 0 && i > 0 && SeriesFrom(ts, acc, numerator, denominator, i)
    ensures Total(ts) == Sum(acc, numerator, denominator, i)
    decreases |ts|
  {
    var next := NextTerm(acc, numerator, denominator, i);
    assert ts == [acc] + ts[1..];
    TotalFront(acc, ts[1..]);
    if |ts| == 1 {
      QuotientFollows(acc, 0, numerator, denominator, i);
    } else {
      SeriesTail(ts, acc, numerator, denominator, i);
      QuotientFollows(acc, ts[1], numerator, denominator, i);
      SeriesTotal(ts[1..], next, numerator, denominator, i + 1);
    }
  }

  /** There is one. */
  lemma {:induction false} SomeSeries(acc: nat, numerator: nat, denominator: nat, i: nat) returns (ts: seq<nat>)
    requires denominator > 0 && i > 0
    ensures SeriesFrom(ts, acc, numerator, denominator, i)
    decreases Rising(numerator, denominator, i), acc
  {
    var next := NextTerm(acc, numerator, denominator, i);
    QuotientFollows(acc, next, numerator, denominator, i);
    ts := [acc];
    if next > 0 {
      Shrinks(acc, numerator, denominator, i);
      var rest := SomeSeries(next, numerator, denominator, i + 1);
      ts := [acc] + rest;
    }
  }

  /** The result is the total of the series, rounded down after division, and nothing else is. */
  lemma SeriesGives(factor: nat, numerator: nat, denominator: nat, result: nat)
    requires denominator > 0
    ensures IsSeriesTotal(result, factor, numerator, denominator) <==>
            result == Exponential(factor, numerator, denominator)
  {
    var ts := SomeSeries(factor * denominator, numerator, denominator, 1);
    SeriesTotal(ts, factor * denominator, numerator, denominator, 1);
    forall us | SeriesFrom(us, factor * denominator, numerator, denominator, 1)
      ensures Total(us) == Sum(factor * denominator, numerator, denominator, 1)
    {
      SeriesTotal(us, factor * denominator, numerator, denominator, 1);
    }
  }

  method FakeExponential(factor: nat, numerator: nat, denominator: nat) returns (result: nat)
    requires denominator > 0
    ensures result == Exponential(factor, numerator, denominator)
    ensures IsSeriesTotal(result, factor, numerator, denominator)
  {
    SeriesGives(factor, numerator, denominator, Exponential(factor, numerator, denominator));
    var i: nat, output: nat, accumulator: nat := 1, 0, factor * denominator;
    ghost var total := Sum(accumulator, numerator, denominator, 1);
    while accumulator > 0
      invariant i > 0
      invariant output + Sum(accumulator, numerator, denominator, i) == total
      decreases Rising(numerator, denominator, i), accumulator
    {
      Shrinks(accumulator, numerator, denominator, i);
      ghost var next := NextTerm(accumulator, numerator, denominator, i);
      output := output + accumulator;
      accumulator := accumulator * numerator / (denominator * i);
      assert accumulator == next;
      i := i + 1;
    }
    result := output / denominator;
  }

  method ComputeBlobGasPrice(excessBlobGas: nat, minBlobGas: nat, updateFraction: nat) returns (price: nat)
    requires updateFraction > 0
    ensures price == Exponential(minBlobGas, excessBlobGas, updateFraction)
    ensures IsSeriesTotal(price, minBlobGas, excessBlobGas, updateFraction)
    ensures price >= minBlobGas
  {
    ExponentialAtLeastFactor(minBlobGas, excessBlobGas, updateFraction);
    price := FakeExponential(minBlobGas, excessBlobGas, updateFraction);
  }

  // ----- never below the factor, and monotone -----

  lemma ExponentialAtLeastFactor(factor: nat, numerator: nat, denominator: nat)
    requires denominator > 0
    ensures Exponential(factor, numerator, denominator) >= factor
  {
    DivideMonotone(factor * denominator, Sum(factor * denominator, numerator, denominator, 1), denominator);
    DivideExact(factor, denominator);
  }

  /** More to start with, or a larger numerator, never gives a smaller sum. */
  lemma {:induction false} SumMonotone(acc: nat, acc': nat, numerator: nat, numerator': nat, denominator: nat, i: nat)
    requires denominator > 0 && i > 0 && acc <= acc' && numerator <= numerator'
    ensures Sum(acc, numerator, denominator, i) <= Sum(acc', numerator', denominator, i)
    decreases Rising(numerator', denominator, i), acc'
  {
    if acc > 0 {
      Shrinks(acc', numerator', denominator, i);
      MultiplyMonotone(acc, acc', numerator, numerator');
      DivideMonotone(acc * numerator, acc' * numerator', denominator * i);
      SumMonotone(NextTerm(acc, numerator, denominator, i), NextTerm(acc', numerator', denominator, i),
                  numerator, numerator', denominator, i + 1);
    }
  }

  lemma ExponentialMonotone(factor: nat, factor': nat, numerator: nat, numerator': nat, denominator: nat)
    requires denominator > 0 && factor <= factor' && numerator <= numerator'
    ensures Exponential(factor, numerator, denominator) <= Exponential(factor', numerator', denominator)
  {
    MultiplyMonotone(factor, factor', denominator, denominator);
    SumMonotone(factor * denominator, factor' * denominator, numerator, numerator', denominator, 1);
    DivideMonotone(Sum(factor * denominator, numerator, denominator, 1),
                   Sum(factor' * denominator, numerator', denominator, 1), denominator);
  }

  // ----- never above the Taylor sum -----

  function Power(x: real, k: nat): real {
    if k == 0 then 1.0 else x * Power(x, k - 1)
  }

  function Factorial(k: nat): (r: nat)
    ensures r > 0
  {
    if k == 0 then 1 else k * Factorial(k - 1)
  }

  function TaylorTerm(x: real, k: nat): real {
    Power(x, k) / Factorial(k) as real
  }

  function TaylorTerms(x: real): nat -> real {
    (k: nat) => TaylorTerm(x, k)
  }

  function Partial(terms: nat -> real, k: nat): real {
    if k == 0 then 0.0 else Partial(terms, k - 1) + terms(k - 1)
  }

  /** The first `k` terms of the exponential series at `x`. */
  function Taylor(x: real, k: nat): real {
    Partial(TaylorTerms(x), k)
  }

  lemma NextTaylorTerm(x: real, k: nat)
    ensures TaylorTerm(x, k + 1) == TaylorTerm(x, k) * x / (k + 1) as real
  {
    FactorialNext(k);
    RatioStep(x, Power(x, k), Factorial(k) as real, (k + 1) as real);
  }

  lemma FactorialNext(k: nat)
    ensures Factorial(k + 1) as real == (k + 1) as real * Factorial(k) as real
  {
    AsReal(k + 1, Factorial(k));
  }

  lemma RatioStep(x: real, p: real, f: real, n: real)
    requires f > 0.0 && n > 0.0
    ensures x * p / (n * f) == p / f * x / n
  {
    var t := p / f;
    assert t * f == p;
    assert t * x / n * (n * f) == x * p;
  }

  /** Rounding down never overtakes the exact next term. */
  lemma NextTermBelow(acc: nat, scale: real, x: real, numerator: nat, denominator: nat, i: nat)
    requires denominator > 0 && i > 0 && x * denominator as real == numerator as real
    requires acc as real <= scale * TaylorTerm(x, i - 1)
    ensures NextTerm(acc, numerator, denominator, i) as real <= scale * TaylorTerm(x, i)
  {
    var q, t := NextTerm(acc, numerator, denominator, i), TaylorTerm(x, i - 1);
    NextTaylorTerm(x, i - 1);
    QuotientAsReal(acc, numerator, denominator, i);
    NextBelow(acc as real, q as real, scale, t, numerator as real, x, denominator as real, i as real);
  }

  lemma QuotientAsReal(acc: nat, numerator: nat, denominator: nat, i: nat)
    requires denominator > 0 && i > 0
    ensures NextTerm(acc, numerator, denominator, i) as real * (denominator as real * i as real)
            <= acc as real * numerator as real
  {
    var q := NextTerm(acc, numerator, denominator, i);
    var left, right := q * (denominator * i), acc * numerator;
    assert left <= right;
    assert left as real == q as real * (denominator as real * i as real);
  }

  lemma NextBelow(acc: real, q: real, scale: real, t: real, n: real, x: real, d: real, i: real)
    requires d > 0.0 && i > 0.0 && n >= 0.0 && x * d == n && acc <= scale * t && q * (d * i) <= acc * n
    ensures q <= scale * (t * x / i)
  {
    ScaleUp(acc, scale * t, n);
    assert scale * t * n == scale * (t * n);
    RoundedBelow(q, d * i, scale, t * n);
    Ratio(t, n, x, d, i);
  }

  lemma ScaleUp(a: real, b: real, n: real)
    requires a <= b && n >= 0.0
    ensures a * n <= b * n
  {
    assert (b - a) * n >= 0.0;
  }

  lemma Ratio(t: real, n: real, x: real, d: real, i: real)
    requires d > 0.0 && i > 0.0 && x * d == n
    ensures t * n / (d * i) == t * x / i
  {
    assert t * n / (d * i) == t * x * d / (d * i);
    assert t * x / i * (d * i) == t * x * d;
  }

  lemma RoundedBelow(q: real, m: real, scale: real, v: real)
    requires m > 0.0 && q * m <= scale * v
    ensures q <= scale * (v / m)
  {
    assert scale * (v / m) == scale * v / m;
    CancelBelow(q, scale * v / m, m);
  }

  lemma CancelBelow(a: real, b: real, m: real)
    requires m > 0.0 && a * m <= b * m
    ensures a <= b
  {
    assert (b - a) * m >= 0.0;
  }

  lemma {:induction false} SumIsTotal(acc: nat, numerator: nat, denominator: nat, i: nat)
    requires denominator > 0 && i > 0
    ensures Sum(acc, numerator, denominator, i) == Total(Terms(acc, numerator, denominator, i))
    decreases Rising(numerator, denominator, i), acc
  {
    if acc > 0 {
      Shrinks(acc, numerator, denominator, i);
      var next := NextTerm(acc, numerator, denominator, i);
      SumIsTotal(next, numerator, denominator, i + 1);
      TotalFront(acc, Terms(next, numerator, denominator, i + 1));
    }
  }

  /** Each accumulator is at most the exact term of its round. */
  predicate Below(ts: seq<nat>, scale: real, terms: nat -> real, first: nat) {
    forall j :: 0 <= j < |ts| ==> ts[j] as real <= scale * terms(first + j)
  }

  lemma {:induction false} TermsBelow(acc: nat, scale: real, x: real, numerator: nat, denominator: nat, i: nat)
    requires denominator > 0 && i > 0 && x * denominator as real == numerator as real
    requires acc as real <= scale * TaylorTerm(x, i - 1)
    ensures Below(Terms(acc, numerator, denominator, i), scale, TaylorTerms(x), i - 1)
    decreases Rising(numerator, denominator, i), acc
  {
    if acc > 0 {
      Shrinks(acc, numerator, denominator, i);
      NextTermBelow(acc, scale, x, numerator, denominator, i);
      var next := NextTerm(acc, numerator, denominator, i);
      TermsBelow(next, scale, x, numerator, denominator, i + 1);
      BelowFront(acc, Terms(next, numerator, denominator, i + 1), scale, TaylorTerms(x), i - 1);
    }
  }

  lemma BelowFront(t: nat, ts: seq<nat>, scale: real, terms: nat -> real, first: nat)
    requires t as real <= scale * terms(first) && Below(ts, scale, terms, first + 1)
    ensures Below([t] + ts, scale, terms, first)
  {
    forall j | 0 < j < |ts| + 1 ensures ([t] + ts)[j] as real <= scale * terms(first + j) {
      assert ts[j - 1] as real <= scale * terms(first + 1 + (j - 1));
    }
  }

  lemma {:induction false} TotalBelow(ts: seq<nat>, scale: real, terms: nat -> real)
    requires Below(ts, scale, terms, 0)
    ensures Total(ts) as real <= scale * Partial(terms, |ts|)
  {
    if ts != [] {
      var n := |ts| - 1;
      TotalBelow(ts[..n], scale, terms);
      assert ts[n] as real <= scale * terms(0 + n);
      AddTerm(ts[n] as real, Total(ts[..n]) as real, scale, terms(n), Partial(terms, n));
    }
  }

  lemma AllTermsBelow(acc: nat, x: real, numerator: nat, denominator: nat)
    requires denominator > 0 && x * denominator as real == numerator as real
    ensures Below(Terms(acc, numerator, denominator, 1), acc as real, TaylorTerms(x), 0)
  {
    FirstTaylorTerm(x, acc as real);
    TermsBelow(acc, acc as real, x, numerator, denominator, 1);
  }

  lemma FirstTaylorTerm(x: real, a: real)
    ensures a * TaylorTerm(x, 0) == a
  {
  }

  lemma QuotientBelowSum(ts: seq<nat>, factor: nat, denominator: nat, terms: nat -> real)
    requires denominator > 0 && Below(ts, (factor * denominator) as real, terms, 0)
    ensures (Total(ts) / denominator) as real <= factor as real * Partial(terms, |ts|)
  {
    TotalBelow(ts, (factor * denominator) as real, terms);
    QuotientBelowReal(Total(ts), denominator, factor, Partial(terms, |ts|));
  }

  lemma AddTerm(t: real, rest: real, scale: real, term: real, sum: real)
    requires t <= scale * term && rest <= scale * sum
    ensures rest + t <= scale * (sum + term)
  {
    assert scale * (sum + term) == scale * sum + scale * term;
  }

  /** The result is never above the factor times the exact sum of as many terms as there were rounds. */
  lemma ExponentialBelowTaylor(factor: nat, numerator: nat, denominator: nat)
    requires denominator > 0
    ensures var rounds := |Terms(factor * denominator, numerator, denominator, 1)|;
            Exponential(factor, numerator, denominator) as real
            <= factor as real * Taylor(numerator as real / denominator as real, rounds)
  {
    var x, acc := numerator as real / denominator as real, factor * denominator;
    AllTermsBelow(acc, x, numerator, denominator);
    QuotientBelowSum(Terms(acc, numerator, denominator, 1), factor, denominator, TaylorTerms(x));
    SumIsTotal(acc, numerator, denominator, 1);
  }

  lemma AsReal(a: nat, b: nat)
    ensures (a * b) as real == a as real * b as real
  {
  }

  lemma QuotientBelowReal(sum: nat, denominator: nat, factor: nat, taylor: real)
    requires denominator > 0 && sum as real <= (factor * denominator) as real * taylor
    ensures (sum / denominator) as real <= factor as real * taylor
  {
    var q, d, f := sum / denominator, denominator as real, factor as real;
    AsReal(q, denominator);
    AsReal(factor, denominator);
    assert q * denominator <= sum;
    assert f * d * taylor == f * taylor * d;
    CancelBelow(q as real, f * taylor, d);
  }
}
