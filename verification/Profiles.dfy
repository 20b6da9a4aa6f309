/** The bounded latency histogram of the scheduler and its quantiles, over real numbers. */
module Profiles {
  import opened Wire

  const BUCKETS: nat := 32

  // ----- Buckets -----

  function Power(n: nat): (r: real)
    ensures r >= 1.0
  {
    if n == 0 then 1.0 else 2.0 * Power(n - 1)
  }

  lemma {:induction false} PowerOrder(a: nat, b: nat)
    requires a <= b
    ensures Power(a) <= Power(b)
  {
    if a < b {
      PowerOrder(a, b - 1);
    }
  }

  /** The loop of `latency_bucket` from a given point; halving is exact. */
  function BucketFrom(scaled: real, bucket: nat): (b: nat)
    requires bucket < BUCKETS
    ensures bucket <= b < BUCKETS
    decreases BUCKETS - bucket
  {
    if scaled > 1.0 && bucket < BUCKETS - 1 then BucketFrom(scaled / 2.0, bucket + 1) else bucket
  }

  function Bucket(x: real): (b: nat)
    ensures b < BUCKETS
  {
    if x <= 1.0 then 0 else BucketFrom(x, 0)
  }

  method LatencyBucket(value: real) returns (bucket: nat)
    ensures bucket == Bucket(value)
  {
    if value <= 1.0 {
      return 0;
    }
    var scaled := value;
    bucket := 0;
    while scaled > 1.0 && bucket < BUCKETS - 1
      invariant bucket < BUCKETS && BucketFrom(scaled, bucket) == BucketFrom(value, 0)
      decreases BUCKETS - bucket
    {
      scaled, bucket := scaled / 2.0, bucket + 1;
    }
  }

  /** The latencies that a bucket stands for: up to its power of two, down to the previous one. */
  predicate InBucket(x: real, b: nat) {
    b < BUCKETS && (b > 0 ==> x > Power(b - 1)) && (b < BUCKETS - 1 ==> x <= Power(b))
  }

  lemma {:induction false} BucketFromMeans(x: real, scaled: real, b: nat)
    requires b < BUCKETS && x == scaled * Power(b) && (b > 0 ==> x > Power(b - 1))
    ensures InBucket(x, BucketFrom(scaled, b))
    decreases BUCKETS - b
  {
    if scaled > 1.0 && b < BUCKETS - 1 {
      assert x > Power(b) by { Times(scaled, 1.0, Power(b)); }
      assert (scaled / 2.0) * (2.0 * Power(b)) == scaled * Power(b);
      BucketFromMeans(x, scaled / 2.0, b + 1);
    } else if scaled <= 1.0 {
      NotTimes(scaled, Power(b));
    }
  }

  lemma Times(a: real, b: real, p: real)
    requires a > b && p > 0.0
    ensures a * p > b * p
  {
  }

  lemma NotTimes(a: real, p: real)
    requires a <= 1.0 && p > 0.0
    ensures a * p <= p
  {
  }

  lemma BucketMeans(x: real)
    ensures InBucket(x, Bucket(x))
  {
    if x > 1.0 {
      BucketFromMeans(x, x, 0);
    }
  }

  /** Longer latencies are in later buckets. */
  lemma BucketOrder(x: real, y: real)
    requires x <= y
    ensures Bucket(x) <= Bucket(y)
  {
    hide Power, Bucket;
    BucketMeans(x);
    BucketMeans(y);
    if Bucket(y) < Bucket(x) {
      PowerOrder(Bucket(y), Bucket(x) - 1);
    }
  }

  // ----- Counting -----

  datatype Test = Less(x: real) | AtMost(x: real) | In(b: nat) | Before(b: nat)

  predicate Passes(t: Test, y: real) {
    match t
    case Less(x) => y < x
    case AtMost(x) => y <= x
    case In(b) => Bucket(y) == b
    case Before(b) => Bucket(y) < b
  }

  function Count(xs: seq<real>, t: Test): (n: nat)
    ensures n <= |xs|
  {
    if xs == [] then 0 else Count(xs[..|xs| - 1], t) + if Passes(t, xs[|xs| - 1]) then 1 else 0
  }

  lemma {:induction false} CountMore(xs: seq<real>, a: Test, b: Test)
    requires forall y :: Passes(a, y) ==> Passes(b, y)
    ensures Count(xs, a) <= Count(xs, b)
  {
    hide Passes;
    if xs != [] {
      CountMore(xs[..|xs| - 1], a, b);
    }
  }

  lemma {:induction false} CountNext(xs: seq<real>, b: nat)
    ensures Count(xs, Before(b + 1)) == Count(xs, Before(b)) + Count(xs, In(b))
  {
    hide Bucket;
    if xs != [] {
      CountNext(xs[..|xs| - 1], b);
    }
  }

  lemma {:induction false} CountNone(xs: seq<real>)
    ensures Count(xs, Before(0)) == 0
  {
    if xs != [] {
      CountNone(xs[..|xs| - 1]);
    }
  }

  // ----- Quantiles -----

  const TOP: nat := U32_LIMIT - 1

  function SatAdd32(a: nat, b: nat): nat {
    if a + b <= TOP then a + b else TOP
  }

  /** `div_ceil`. */
  function CeilDiv(p: nat, d: nat): nat
    requires d > 0
  {
    (p + d - 1) / d
  }

  function SatMul32(a: nat, b: nat): nat {
    if a * b <= TOP then a * b else TOP
  }

  /** The rank that a quantile asks for, with the saturating product of the code. */
  function Target(samples: nat, numerator: nat, denominator: nat): (t: nat)
    requires denominator > 0
    ensures t >= 1
  {
    var t := CeilDiv(SatMul32(samples, numerator), denominator);
    if t < 1 then 1 else t
  }

  /** The first bucket at which the running count reaches the target. */
  function Reaches(h: seq<nat>, target: nat, i: nat, cumulative: nat): (b: nat)
    requires i <= |h| && h != []
    ensures b < |h| && (i < |h| ==> b >= i)
    decreases |h| - i
  {
    if i == |h| then |h| - 1
    else
      var c := SatAdd32(cumulative, h[i]);
      if c >= target then i else Reaches(h, target, i + 1, c)
  }

  function QuantileOf(h: seq<nat>, samples: nat, numerator: nat, denominator: nat): real
    requires denominator > 0 && h != []
  {
    Power(Reaches(h, Target(samples, numerator, denominator), 0, 0))
  }

  class BoundedProfile {
    const histogram: array<nat>
    var samples: nat
    var failures: nat
    ghost var observed: seq<real>

    /** Below saturation the histogram counts the observations. */
    ghost predicate Valid()
      reads this, histogram
    {
      histogram.Length == BUCKETS && (|observed| <= TOP ==> samples == |observed| && Tracks(histogram[..], observed))
    }

    constructor (latency: real, failed: bool)
      ensures Valid() && fresh(histogram) && observed == [latency]
    {
      histogram := new nat[BUCKETS](_ => 0);
      samples, failures, observed := 0, 0, [];
      new;
      Record(latency, failed);
    }

    method Record(latency: real, failed: bool)
      requires Valid()
      modifies this`samples, this`failures, this`observed, histogram
      ensures Valid() && observed == old(observed) + [latency]
      ensures failures == if failed then SatAdd32(old(failures), 1) else old(failures)
    {
      var b := LatencyBucket(latency);
      ghost var before := histogram[..];
      histogram[b] := SatAdd32(histogram[b], 1);
      samples := SatAdd32(samples, 1);
      failures := if failed then SatAdd32(failures, 1) else failures;
      observed := observed + [latency];
      if |observed| <= TOP {
        TracksNext(before, old(observed), latency);
        assert histogram[..] == before[b := before[b] + 1];
      }
    }

    /** The loop of `quantile`. */
    method Quantile(numerator: nat, denominator: nat) returns (q: real)
      requires Valid() && denominator > 0
      ensures q == QuantileOf(histogram[..], samples, numerator, denominator)
    {
      var target, cumulative := Target(samples, numerator, denominator), 0;
      ghost var h := histogram[..];
      for i := 0 to BUCKETS
        invariant histogram[..] == h && Reaches(h, target, i, cumulative) == Reaches(h, target, 0, 0)
      {
        cumulative := SatAdd32(cumulative, histogram[i]);
        if cumulative >= target {
          return Power(i);
        }
      }
      return Power(BUCKETS - 1);
    }
  }

  predicate Tracks(h: seq<nat>, xs: seq<real>) {
    |h| == BUCKETS && forall b :: 0 <= b < BUCKETS ==> h[b] == Count(xs, In(b))
  }

  lemma TracksNext(h: seq<nat>, xs: seq<real>, x: real)
    requires Tracks(h, xs) && |xs| + 1 <= TOP
    ensures h[Bucket(x)] + 1 <= TOP && Tracks(h[Bucket(x) := h[Bucket(x)] + 1], xs + [x])
  {
    hide Bucket;
    assert (xs + [x])[..|xs|] == xs;
  }

  // ----- What a quantile bounds -----

  /** `x` is the `t`-th smallest observation. */
  predicate Ranked(xs: seq<real>, x: real, t: nat) {
    x in xs && Count(xs, Less(x)) < t <= Count(xs, AtMost(x))
  }

  /** The buckets before that of the ranked observation fall short; its own reaches the rank. */
  lemma RankedBucket(xs: seq<real>, x: real, t: nat)
    requires Ranked(xs, x, t)
    ensures Count(xs, Before(Bucket(x))) < t <= Count(xs, Before(Bucket(x) + 1))
  {
    hide Bucket;
    forall y
      ensures Passes(Before(Bucket(x)), y) ==> Passes(Less(x), y)
      ensures Passes(AtMost(x), y) ==> Passes(Before(Bucket(x) + 1), y)
    {
      if y <= x { BucketOrder(y, x); }
      if x <= y { BucketOrder(x, y); }
    }
    CountMore(xs, Before(Bucket(x)), Less(x));
    CountMore(xs, AtMost(x), Before(Bucket(x) + 1));
  }

  lemma {:induction false} ReachesRanked(h: seq<nat>, xs: seq<real>, x: real, t: nat, i: nat)
    requires Tracks(h, xs) && |xs| <= TOP && Ranked(xs, x, t) && i <= Bucket(x)
    ensures Reaches(h, t, i, Count(xs, Before(i))) == Bucket(x)
    decreases BUCKETS - i
  {
    hide Bucket, Count, Ranked;
    RankedBucket(xs, x, t);
    CountNext(xs, i);
    if i < Bucket(x) {
      Fewer(xs, i + 1, Bucket(x));
      ReachesRanked(h, xs, x, t, i + 1);
    }
  }

  lemma Fewer(xs: seq<real>, a: nat, b: nat)
    requires a <= b
    ensures Count(xs, Before(a)) <= Count(xs, Before(b))
  {
    hide Bucket;
    CountMore(xs, Before(a), Before(b));
  }

  /**
   While the rank that is asked for is exact, a quantile is the bound of the
   bucket of the true order statistic, which therefore lies in (q/2, q] for every inner bucket.
   */
  lemma QuantileBounds(h: seq<nat>, xs: seq<real>, numerator: nat, denominator: nat, x: real)
    requires Tracks(h, xs) && xs != [] && |xs| <= TOP && 0 < numerator <= denominator
    requires |xs| * numerator <= denominator * CeilDiv(TOP, denominator)
    requires Ranked(xs, x, CeilDiv(|xs| * numerator, denominator))
    ensures var q, b := QuantileOf(h, |xs|, numerator, denominator), Bucket(x);
            && q == Power(b)
            && (b < BUCKETS - 1 ==> x <= q)
            && (b > 0 ==> q / 2.0 < x)
  {
    hide Count, Bucket, CeilDiv;
    ProductOrder(|xs|, 1, numerator);
    var t := CeilDiv(|xs| * numerator, denominator);
    TargetExactly(|xs|, numerator, denominator);
    CountNone(xs);
    ReachesRanked(h, xs, x, t, 0);
    BucketMeans(x);
  }

  /** Such an order statistic always exists. */
  lemma {:induction false} RankExists(xs: seq<real>, t: nat) returns (x: real)
    requires 1 <= t <= |xs|
    ensures Ranked(xs, x, t)
    decreases |xs|
  {
    var m := Largest(xs);
    var rest := xs[..m] + xs[m + 1..];
    RemoveOne(xs, m);
    if t == |xs| {
      x := xs[m];
      CountAll(xs, x);
      assert !Passes(Less(x), xs[m]);
    } else {
      x := RankExists(rest, t);
      assert x in xs && x <= xs[m];
      assert !Passes(Less(x), xs[m]);
    }
  }

  lemma {:induction false} Largest(xs: seq<real>) returns (m: nat)
    requires xs != []
    ensures m < |xs| && forall y <- xs :: y <= xs[m]
  {
    var n := |xs| - 1;
    if n == 0 {
      m := 0;
    } else {
      m := Largest(xs[..n]);
      if xs[m] < xs[n] {
        m := n;
      }
      assert forall y <- xs :: y in xs[..n] || y == xs[n];
    }
  }

  lemma {:induction false} CountAll(xs: seq<real>, x: real)
    requires forall y <- xs :: y <= x
    ensures Count(xs, AtMost(x)) == |xs|
  {
    if xs != [] {
      var n := |xs| - 1;
      assert xs[n] in xs && forall y :: y in xs[..n] ==> y in xs;
      CountAll(xs[..n], x);
    }
  }

  lemma {:induction false} CountAppend(a: seq<real>, b: seq<real>, t: Test)
    ensures Count(a + b, t) == Count(a, t) + Count(b, t)
    decreases |b|
  {
    hide Passes;
    if b == [] {
      assert a + b == a;
    } else {
      var n := |b| - 1;
      assert (a + b)[..|a| + n] == a + b[..n];
      CountAppend(a, b[..n], t);
    }
  }

  lemma RemoveOne(xs: seq<real>, m: nat)
    requires m < |xs|
    ensures var rest := xs[..m] + xs[m + 1..];
            forall t: Test :: Count(xs, t) == Count(rest, t) + if Passes(t, xs[m]) then 1 else 0
  {
    hide Passes, Count;
    forall t: Test
      ensures Count(xs, t) == Count(xs[..m] + xs[m + 1..], t) + if Passes(t, xs[m]) then 1 else 0
    {
      RemoveAt(xs, m, t);
    }
  }

  lemma RemoveAt(xs: seq<real>, m: nat, t: Test)
    requires m < |xs|
    ensures Count(xs, t) == Count(xs[..m] + xs[m + 1..], t) + if Passes(t, xs[m]) then 1 else 0
  {
    hide Passes, Count;
    CountAppend(xs[..m], xs[m + 1..], t);
    CountAppend(xs[..m + 1], xs[m + 1..], t);
    CountAppend(xs[..m], [xs[m]], t);
    CountOne(xs[m], t);
    assert xs[..m + 1] + xs[m + 1..] == xs && xs[..m + 1] == xs[..m] + [xs[m]];
  }

  lemma CountOne(x: real, t: Test)
    ensures Count([x], t) == if Passes(t, x) then 1 else 0
  {
    hide Passes;
    assert [x][..0] == [];
  }

  // ----- Order and saturation -----

  lemma {:induction false} ReachesOrder(h: seq<nat>, a: nat, b: nat, i: nat, cumulative: nat)
    requires h != [] && i <= |h| && a <= b
    ensures Reaches(h, a, i, cumulative) <= Reaches(h, b, i, cumulative)
    decreases |h| - i
  {
    if i < |h| {
      ReachesOrder(h, a, b, i + 1, SatAdd32(cumulative, h[i]));
    }
  }

  /** `a` and `b` are the quotients of `p` and `q`. */
  lemma QuotientOrder(p: nat, q: nat, d: nat, a: nat, b: nat)
    requires d * a <= p < d * a + d && d * b <= q < d * b + d && p <= q
    ensures a <= b
  {
    if b < a {
      ProductOrder(d, b + 1, a);
    }
  }

  lemma Quotient(p: nat, d: nat)
    requires d > 0
    ensures d * (p / d) <= p < d * (p / d) + d
  {
  }

  lemma CeilOrder(p: nat, q: nat, d: nat)
    requires p <= q && d > 0
    ensures CeilDiv(p, d) <= CeilDiv(q, d)
  {
    var x, y := p + d - 1, q + d - 1;
    Quotient(x, d);
    Quotient(y, d);
    QuotientOrder(x, y, d, x / d, y / d);
  }

  lemma CeilSome(p: nat, d: nat)
    requires p > 0 && d > 0
    ensures CeilDiv(p, d) >= 1
  {
    CeilOrder(1, p, d);
  }

  lemma ProductOrder(n: nat, a: nat, b: nat)
    requires a <= b
    ensures n * a <= n * b
  {
  }

  lemma TargetOrder(samples: nat, a: nat, b: nat, denominator: nat)
    requires a <= b && denominator > 0
    ensures Target(samples, a, denominator) <= Target(samples, b, denominator)
  {
    hide CeilDiv;
    ProductOrder(samples, a, b);
    CeilOrder(SatMul32(samples, a), SatMul32(samples, b), denominator);
  }

  /** p50 <= p95 <= p99 for every histogram, saturated or not. */
  lemma QuantilesOrdered(h: seq<nat>, samples: nat)
    requires h != []
    ensures QuantileOf(h, samples, 50, 100) <= QuantileOf(h, samples, 95, 100) <= QuantileOf(h, samples, 99, 100)
  {
    hide Target, Reaches, Power;
    TargetOrder(samples, 50, 95, 100);
    TargetOrder(samples, 95, 99, 100);
    var a, b, c := Target(samples, 50, 100), Target(samples, 95, 100), Target(samples, 99, 100);
    ReachesOrder(h, a, b, 0, 0);
    ReachesOrder(h, b, c, 0, 0);
    PowerOrder(Reaches(h, a, 0, 0), Reaches(h, b, 0, 0));
    PowerOrder(Reaches(h, b, 0, 0), Reaches(h, c, 0, 0));
  }

  /** `k` is a rounded-up quotient. */
  lemma CeilAtMost(p: nat, d: nat, k: nat, q: nat)
    requires d * k <= p + d - 1 < d * k + d
    ensures k <= q <==> p <= d * q
  {
    if k <= q {
      ProductOrder(d, k, q);
    } else {
      ProductOrder(d, q + 1, k);
    }
  }

  lemma CeilBound(p: nat, d: nat, q: nat)
    requires d > 0
    ensures CeilDiv(p, d) <= q <==> p <= d * q
  {
    Quotient(p + d - 1, d);
    CeilAtMost(p, d, CeilDiv(p, d), q);
  }

  /** The rank asked for is the exact one if and only if the product is within the rounded-up maximum. */
  lemma TargetExactly(samples: nat, numerator: nat, denominator: nat)
    requires denominator > 0 && samples * numerator > 0
    ensures Target(samples, numerator, denominator) == CeilDiv(samples * numerator, denominator) <==>
            samples * numerator <= denominator * CeilDiv(TOP, denominator)
    ensures Target(samples, numerator, denominator) <= CeilDiv(samples * numerator, denominator)
  {
    hide CeilDiv;
    var product, most := samples * numerator, CeilDiv(TOP, denominator);
    CeilSome(product, denominator);
    CeilSome(TOP, denominator);
    CeilBound(TOP, denominator, most);
    CeilBound(product, denominator, most);
    if product > TOP {
      CeilOrder(TOP, product, denominator);
    }
  }

  /** A hundred million samples, half of them in the first bucket: the reported p99 is that bucket's bound. */
  lemma SaturatedExample(h: seq<nat>)
    requires |h| == BUCKETS && h[0] == 50_000_000
    ensures QuantileOf(h, 100_000_000, 99, 100) == 1.0
  {
    assert Target(100_000_000, 99, 100) == 42_949_673;
    assert Reaches(h, 42_949_673, 0, 0) == 0;
  }
}
