/** The two congestion averages over a collected list of headers, and how they compare. */
module Metric {
  import opened Common
  import opened Congestion

  // Weight of a block by its distance from the newest; the code uses 1 / log10(distance + 10).
  type Weight = nat -> real

  /** The weights are positive and never favour an older block. */
  ghost predicate Recency(w: Weight) {
    (forall d: nat :: w(d) > 0.0) && forall d: nat, e: nat :: d <= e ==> w(e) <= w(d)
  }

  function Ratio(h: Header): real {
    if h.gasLimit == 0 then 0.0 else h.gasUsed as real / h.gasLimit as real
  }

  /** Sum of the first n elements. */
  function Sum(s: seq<real>, n: nat): real
    requires n <= |s|
  {
    if n == 0 then 0.0 else Sum(s, n - 1) + s[n - 1]
  }

  /** Count, sum of values, sum of weights and sum of products of a list of weighted values. */
  datatype Totals = Totals(n: real, c: real, w: real, d: real)

  function Add(t: Totals, x: real, y: real): Totals {
    Totals(t.n + 1.0, t.c + x, t.w + y, t.d + x * y)
  }

  /** Totals of the first n values of a, weighted by b. */
  function Accumulate(a: seq<real>, b: seq<real>, n: nat): Totals
    requires n <= |a| && n <= |b|
  {
    if n == 0 then Totals(0.0, 0.0, 0.0, 0.0) else Add(Accumulate(a, b, n - 1), a[n - 1], b[n - 1])
  }

  function Ratios(headers: seq<Header>): seq<real> {
    seq(|headers|, i requires 0 <= i < |headers| => Ratio(headers[i]))
  }

  function Weights(w: Weight, n: nat): seq<real> {
    seq(n, i requires 0 <= i < n => w(n - 1 - i))
  }

  function Simple(headers: seq<Header>): real {
    if headers == [] then 0.0 else Sum(Ratios(headers), |headers|) / |headers| as real
  }

  function Weighted(sorted: seq<Header>, w: Weight): real {
    var t := Accumulate(Ratios(sorted), Weights(w, |sorted|), |sorted|);
    if t.w == 0.0 then 0.0 else t.d / t.w
  }

  /* ---------- Dividing by a gas limit of zero ---------- */

  function Quotient(a: nat, b: nat): Float {
    if b != 0 then Finite(a as real / b as real) else if a != 0 then PlusInf else NaN
  }

  function Plus(x: Float, y: Float): Float {
    if x.NaN? || y.NaN? then NaN else if x.PlusInf? || y.PlusInf? then PlusInf else Finite(x.value + y.value)
  }

  /** Product with, and quotient by, a positive number. */
  function Times(x: Float, k: real): Float { if x.Finite? then Finite(x.value * k) else x }

  function Over(x: Float, k: real): Float
    requires k != 0.0
  {
    if x.Finite? then Finite(x.value / k) else x
  }

  predicate Limited(headers: seq<Header>) { forall h :: h in headers ==> h.gasLimit > 0 }

  /** Zero divided by zero occurs. */
  predicate HasZeroOverZero(headers: seq<Header>) { exists h :: h in headers && h.gasLimit == 0 && h.gasUsed == 0 }

  /**
   * The newest-first metric: the weighted average over the sorted headers if all of them have a gas limit,
   * undefined if some block has neither limit nor use, and infinite otherwise.
   */
  function NewestFirst(headers: seq<Header>, w: Weight): Float {
    if Limited(headers) then Finite(Weighted(Sort(headers), w)) else if HasZeroOverZero(headers) then NaN else PlusInf
  }

  lemma LimitedAppend(s: seq<Header>, h: Header)
    ensures Limited(s + [h]) <==> Limited(s) && h.gasLimit > 0
    ensures HasZeroOverZero(s + [h]) <==> HasZeroOverZero(s) || (h.gasLimit == 0 && h.gasUsed == 0)
  {
    assert h in s + [h];
    assert forall g :: g in s ==> g in s + [h];
    assert forall g :: g in s + [h] ==> g in s || g == h;
  }

  lemma SameLimits(a: seq<Header>, b: seq<Header>)
    requires forall h :: h in a <==> h in b
    ensures (Limited(a) <==> Limited(b)) && (HasZeroOverZero(a) <==> HasZeroOverZero(b))
  {
  }

  /** The loop's running sum over the headers seen so far. */
  ghost predicate SumsTo(sum: Float, seen: seq<Header>, exact: real) {
    sum == if Limited(seen) then Finite(exact) else if HasZeroOverZero(seen) then NaN else PlusInf
  }

  lemma SumStep(sum: Float, seen: seq<Header>, h: Header, exact: real, weight: real)
    requires SumsTo(sum, seen, exact)
    ensures SumsTo(Plus(sum, Times(Quotient(h.gasUsed, h.gasLimit), weight)), seen + [h], exact + Ratio(h) * weight)
  {
    LimitedAppend(seen, h);
  }

  method CalculateGasUsedRatio(headers: seq<Header>) returns (average: real)
    ensures average == Simple(headers)
  {
    if headers == [] { return 0.0; }
    var totalRatio := 0.0;
    for i := 0 to |headers|
      invariant totalRatio == Sum(Ratios(headers), i)
    {
      var header := headers[i];
      if header.gasLimit != 0 {
        totalRatio := totalRatio + header.gasUsed as real / header.gasLimit as real;
      }
    }
    average := totalRatio / |headers| as real;
  }

  /** The loop's two sums after the i oldest headers. */
  ghost predicate Running(weightedSum: Float, totalWeight: real, sorted: seq<Header>, w: Weight, i: nat)
    requires i <= |sorted|
  {
    var t := Accumulate(Ratios(sorted), Weights(w, |sorted|), i);
    SumsTo(weightedSum, sorted[..i], t.d) && totalWeight == t.w
  }

  lemma RunningStep(weightedSum: Float, totalWeight: real, sorted: seq<Header>, w: Weight, i: nat)
    requires i < |sorted| && Running(weightedSum, totalWeight, sorted, w, i)
    ensures var h, weight := sorted[i], w(|sorted| - 1 - i);
            Running(Plus(weightedSum, Times(Quotient(h.gasUsed, h.gasLimit), weight)), totalWeight + weight, sorted, w, i + 1)
  {
    var t := Accumulate(Ratios(sorted), Weights(w, |sorted|), i);
    SumStep(weightedSum, sorted[..i], sorted[i], t.d, w(|sorted| - 1 - i));
    assert sorted[..i] + [sorted[i]] == sorted[..i + 1];
  }

  lemma RunningEnds(weightedSum: Float, totalWeight: real, headers: seq<Header>, w: Weight)
    requires Recency(w) && Running(weightedSum, totalWeight, Sort(headers), w, |Sort(headers)|)
    ensures NewestFirst(headers, w) == if totalWeight == 0.0 then Finite(0.0) else Over(weightedSum, totalWeight)
  {
    var s := Sort(headers);
    assert s[..|s|] == s;
    SameMembers(s, headers);
    SameLimits(s, headers);
    AccumulateParts(Ratios(s), Weights(w, |s|), |s|);
    if totalWeight == 0.0 {
      assert s == [];
    }
  }

  method CalculateNewestFirst(headers: seq<Header>, w: Weight) returns (metric: Float)
    requires Recency(w)
    ensures metric == NewestFirst(headers, w)
  {
    var sorted := Sort(headers);
    var weightedSum, totalWeight := Finite(0.0), 0.0;
    for i := 0 to |sorted|
      invariant Running(weightedSum, totalWeight, sorted, w, i)
    {
      RunningStep(weightedSum, totalWeight, sorted, w, i);
      var congestion := Quotient(sorted[i].gasUsed, sorted[i].gasLimit);
      var weight := w(|sorted| - 1 - i);
      weightedSum := Plus(weightedSum, Times(congestion, weight));
      totalWeight := totalWeight + weight;
    }
    RunningEnds(weightedSum, totalWeight, headers, w);
    if totalWeight == 0.0 { return Finite(0.0); }
    metric := Over(weightedSum, totalWeight);
  }

  /* ---------- Chebyshev's sum inequality ---------- */

  /** Non-decreasing when `up`, non-increasing otherwise. */
  ghost predicate Along(up: bool, s: seq<real>) {
    forall i, j :: 0 <= i < j < |s| ==> Before(up, s[i], s[j])
  }

  predicate Before(up: bool, x: real, y: real) { if up then x <= y else y <= x }

  /** The sum of (x - a[i]) * (y - b[i]) points in the right direction. */
  ghost predicate Cross(up: bool, t: Totals, x: real, y: real) {
    Before(up, 0.0, t.n * (x * y) - x * t.w - y * t.c + t.d)
  }

  ghost predicate SumInequality(up: bool, t: Totals) { Before(up, t.c * t.w, t.n * t.d) }

  lemma NonNegative(x: real, y: real)
    requires x >= 0.0 && y >= 0.0
    ensures x * y >= 0.0
  {
  }

  lemma CrossStep(up: bool, t: Totals, p: real, q: real, x: real, y: real)
    requires Cross(up, t, x, y) && Before(up, p, x) && q <= y
    ensures Cross(up, Add(t, p, q), x, y)
  {
    if up {
      NonNegative(x - p, y - q);
    } else {
      NonNegative(p - x, y - q);
      assert (p - x) * (y - q) == -((x - p) * (y - q));
    }
    assert (x - p) * (y - q) == x * y - x * q - y * p + p * q;
    assert x * (t.w + q) == x * t.w + x * q;
    assert y * (t.c + p) == y * t.c + y * p;
    assert (t.n + 1.0) * (x * y) == t.n * (x * y) + x * y;
  }

  lemma {:induction false} CrossTerms(up: bool, a: seq<real>, b: seq<real>, n: nat, x: real, y: real)
    requires n <= |a| && n <= |b|
    requires forall i :: 0 <= i < n ==> Before(up, a[i], x) && b[i] <= y
    ensures Cross(up, Accumulate(a, b, n), x, y)
  {
    if n > 0 {
      CrossTerms(up, a, b, n - 1, x, y);
      CrossStep(up, Accumulate(a, b, n - 1), a[n - 1], b[n - 1], x, y);
    }
  }

  lemma ChebyshevStep(up: bool, t: Totals, x: real, y: real)
    requires SumInequality(up, t) && Cross(up, t, x, y)
    ensures SumInequality(up, Add(t, x, y))
  {
    assert (t.n + 1.0) * (t.d + x * y) == t.n * t.d + t.n * (x * y) + t.d + x * y;
    assert (t.c + x) * (t.w + y) == t.c * t.w + y * t.c + x * t.w + x * y;
  }

  /** Values that move with the weights are favoured by the weights, values that move against them are not. */
  lemma {:induction false} Chebyshev(up: bool, a: seq<real>, b: seq<real>, n: nat)
    requires n <= |a| && n <= |b| && Along(up, a) && Along(true, b)
    ensures SumInequality(up, Accumulate(a, b, n))
  {
    if n > 0 {
      var x, y := a[n - 1], b[n - 1];
      Chebyshev(up, a, b, n - 1);
      assert forall i :: 0 <= i < n - 1 ==> Before(up, a[i], x) && Before(true, b[i], y);
      CrossTerms(up, a, b, n - 1, x, y);
      ChebyshevStep(up, Accumulate(a, b, n - 1), x, y);
    }
  }

  predicate StrictlyBefore(up: bool, x: real, y: real) { if up then x < y else y < x }

  ghost predicate StrictCross(up: bool, t: Totals, x: real, y: real) {
    StrictlyBefore(up, 0.0, t.n * (x * y) - x * t.w - y * t.c + t.d)
  }

  ghost predicate StrictSumInequality(up: bool, t: Totals) { StrictlyBefore(up, t.c * t.w, t.n * t.d) }

  lemma StrictCrossStep(up: bool, t: Totals, p: real, q: real, x: real, y: real)
    requires StrictCross(up, t, x, y) && Before(up, p, x) && q <= y
    ensures StrictCross(up, Add(t, p, q), x, y)
  {
    // shift the sum of products by what the strict inequality leaves, and use the plain step
    var gap := t.n * (x * y) - x * t.w - y * t.c + t.d;
    CrossStep(up, Totals(t.n, t.c, t.w, t.d - gap), p, q, x, y);
  }

  lemma StrictCrossStart(up: bool, p: real, q: real, x: real, y: real)
    requires StrictlyBefore(up, p, x) && q < y
    ensures StrictCross(up, Add(Totals(0.0, 0.0, 0.0, 0.0), p, q), x, y)
  {
    assert (x - p) * (y - q) == x * y - x * q - y * p + p * q;
    if up {
      assert (x - p) * (y - q) > 0.0;
    } else {
      assert (p - x) * (y - q) > 0.0 && (p - x) * (y - q) == -((x - p) * (y - q));
    }
    assert 1.0 * (x * y) == x * y;
  }

  lemma {:induction false} StrictCrossTerms(up: bool, a: seq<real>, b: seq<real>, n: nat, x: real, y: real)
    requires 0 < n <= |a| && n <= |b| && StrictlyBefore(up, a[0], x) && b[0] < y
    requires forall i :: 0 <= i < n ==> Before(up, a[i], x) && b[i] <= y
    ensures StrictCross(up, Accumulate(a, b, n), x, y)
  {
    if n == 1 {
      StrictCrossStart(up, a[0], b[0], x, y);
      assert Accumulate(a, b, 1) == Add(Accumulate(a, b, 0), a[0], b[0]);
    } else {
      StrictCrossTerms(up, a, b, n - 1, x, y);
      StrictCrossStep(up, Accumulate(a, b, n - 1), a[n - 1], b[n - 1], x, y);
    }
  }

  lemma StrictChebyshevStep(up: bool, t: Totals, x: real, y: real)
    requires SumInequality(up, t) && StrictCross(up, t, x, y)
    ensures StrictSumInequality(up, Add(t, x, y))
  {
    assert (t.n + 1.0) * (t.d + x * y) == t.n * t.d + t.n * (x * y) + t.d + x * y;
    assert (t.c + x) * (t.w + y) == t.c * t.w + y * t.c + x * t.w + x * y;
  }

  /** The inequality is strict as soon as the first and the last value differ, and so do their weights. */
  lemma StrictChebyshev(up: bool, a: seq<real>, b: seq<real>, n: nat)
    requires 2 <= n <= |a| && n <= |b| && Along(up, a) && Along(true, b)
    requires StrictlyBefore(up, a[0], a[n - 1]) && b[0] < b[n - 1]
    ensures StrictSumInequality(up, Accumulate(a, b, n))
  {
    var x, y := a[n - 1], b[n - 1];
    Chebyshev(up, a, b, n - 1);
    assert forall i :: 0 <= i < n - 1 ==> Before(up, a[i], x) && Before(true, b[i], y);
    StrictCrossTerms(up, a, b, n - 1, x, y);
    StrictChebyshevStep(up, Accumulate(a, b, n - 1), x, y);
  }

  /* ---------- Comparing the averages ---------- */

  lemma {:induction false} AccumulateParts(a: seq<real>, b: seq<real>, n: nat)
    requires n <= |a| && n <= |b| && forall i :: 0 <= i < |b| ==> b[i] > 0.0
    ensures var t := Accumulate(a, b, n);
            t.n == n as real && t.c == Sum(a, n) && (n > 0 ==> t.w > 0.0) && t.w >= 0.0
  {
    if n > 0 {
      AccumulateParts(a, b, n - 1);
    }
  }

  lemma ScaleLess(x: real, y: real, k: real)
    requires x < y && k > 0.0
    ensures x * k < y * k
  {
    assert (y - x) * k > 0.0;
  }

  /** The sum inequality, read as a comparison of the weighted and the plain average. */
  lemma CompareAverages(up: bool, t: Totals)
    requires SumInequality(up, t) && t.n > 0.0 && t.w > 0.0
    ensures Before(up, t.c / t.n, t.d / t.w)
  {
    var x, y := t.d / t.w, t.c / t.n;
    assert t.d == x * t.w && t.c == y * t.n;
    var k := t.n * t.w;
    assert k > 0.0;
    assert t.n * t.d == x * k && t.c * t.w == y * k;
    if x < y { ScaleLess(x, y, k); }
    if y < x { ScaleLess(y, x, k); }
  }

  lemma CompareAveragesStrictly(up: bool, t: Totals)
    requires StrictSumInequality(up, t) && t.n > 0.0 && t.w > 0.0
    ensures StrictlyBefore(up, t.c / t.n, t.d / t.w)
  {
    var x, y := t.d / t.w, t.c / t.n;
    assert t.d == x * t.w && t.c == y * t.n;
    var k := t.n * t.w;
    assert k > 0.0;
    assert t.n * t.d == x * k && t.c * t.w == y * k;
    if x < y { ScaleLess(x, y, k); }
    if y < x { ScaleLess(y, x, k); }
  }

  lemma BagsWithout(a: seq<Header>, j: nat, b: seq<Header>, i: nat)
    requires multiset(a) == multiset(b) && j < |a| && i < |b| && a[j] == b[i]
    ensures multiset(a[..j] + a[j + 1..]) == multiset(b[..i] + b[i + 1..])
  {
    assert a == a[..j] + [a[j]] + a[j + 1..];
    assert b == b[..i] + [b[i]] + b[i + 1..];
    var x, y := a[..j] + a[j + 1..], b[..i] + b[i + 1..];
    assert multiset(x) == multiset(a) - multiset{a[j]};
    assert multiset(y) == multiset(b) - multiset{b[i]};
  }

  /** Taking one header out takes its ratio out of every sum that reaches past it. */
  lemma {:induction false} SumWithout(s: seq<Header>, i: nat, n: nat)
    requires i < n <= |s|
    ensures Sum(Ratios(s), n) == Sum(Ratios(s[..i] + s[i + 1..]), n - 1) + Ratio(s[i])
  {
    var rest := s[..i] + s[i + 1..];
    if i < n - 1 {
      SumWithout(s, i, n - 1);
      assert rest[n - 2] == s[n - 1];
    } else {
      SamePrefix(Ratios(s), Ratios(rest), i);
    }
  }

  lemma {:induction false} SamePrefix(a: seq<real>, b: seq<real>, n: nat)
    requires n <= |a| && n <= |b| && forall i :: 0 <= i < n ==> a[i] == b[i]
    ensures Sum(a, n) == Sum(b, n)
  {
    if n > 0 {
      SamePrefix(a, b, n - 1);
    }
  }

  lemma {:induction false} SumOfPermutation(a: seq<Header>, b: seq<Header>)
    requires multiset(a) == multiset(b)
    ensures |a| == |b| && Sum(Ratios(a), |a|) == Sum(Ratios(b), |b|)
    decreases |a|
  {
    assert |a| == |multiset(a)| == |multiset(b)| == |b|;
    if a != [] {
      assert a[0] in multiset(b);
      var i :| 0 <= i < |b| && b[i] == a[0];
      BagsWithout(a, 0, b, i);
      SumOfPermutation(a[..0] + a[1..], b[..i] + b[i + 1..]);
      SumWithout(a, 0, |a|);
      SumWithout(b, i, |b|);
    }
  }

  /** Congestion moves one way with the block number. */
  ghost predicate Trend(up: bool, s: seq<Header>) {
    forall g, h :: g in s && h in s && g.number <= h.number ==> Before(up, Ratio(g), Ratio(h))
  }

  lemma WeightedFollowsTheTrend(up: bool, s: seq<Header>, w: Weight)
    requires s != [] && Ascending(s) && Recency(w) && Trend(up, s)
    ensures Before(up, Simple(s), Weighted(s, w))
  {
    var n := |s|;
    var a, b := Ratios(s), Weights(w, n);
    assert Along(up, a) && Along(true, b);
    AccumulateParts(a, b, n);
    Chebyshev(up, a, b, n);
    CompareAverages(up, Accumulate(a, b, n));
  }

  /** The newest-first average is ahead of the plain one when congestion rises, and behind it when it falls. */
  lemma NewestFirstFollowsTheTrend(headers: seq<Header>, w: Weight)
    requires headers != [] && Plausible(headers) && Limited(headers) && Recency(w)
    ensures NewestFirst(headers, w).Finite?
    ensures Trend(true, headers) ==> NewestFirst(headers, w).value >= Simple(headers)
    ensures Trend(false, headers) ==> NewestFirst(headers, w).value <= Simple(headers)
  {
    var s := Sort(headers);
    SortAscending(headers);
    SameMembers(s, headers);
    SumOfPermutation(headers, s);
    if Trend(true, headers) { WeightedFollowsTheTrend(true, s, w); }
    if Trend(false, headers) { WeightedFollowsTheTrend(false, s, w); }
  }

  lemma WeightedLeadsTheTrend(up: bool, s: seq<Header>, w: Weight)
    requires |s| >= 2 && Ascending(s) && Recency(w) && Trend(up, s)
    requires StrictlyBefore(up, Ratio(s[0]), Ratio(s[|s| - 1])) && w(|s| - 1) < w(0)
    ensures StrictlyBefore(up, Simple(s), Weighted(s, w))
  {
    var n := |s|;
    var a, b := Ratios(s), Weights(w, n);
    assert Along(up, a) && Along(true, b);
    AccumulateParts(a, b, n);
    StrictChebyshev(up, a, b, n);
    CompareAveragesStrictly(up, Accumulate(a, b, n));
  }

  /** It is strictly ahead, or behind, as soon as the oldest and the newest block differ at all. */
  lemma NewestFirstLeadsTheTrend(up: bool, headers: seq<Header>, w: Weight, oldest: Header, newest: Header)
    requires Plausible(headers) && Limited(headers) && Recency(w) && Trend(up, headers)
    requires |headers| >= 2 && w(|headers| - 1) < w(0)
    requires oldest in headers && newest in headers && StrictlyBefore(up, Ratio(oldest), Ratio(newest))
    requires forall h :: h in headers ==> oldest.number <= h.number <= newest.number
    ensures NewestFirst(headers, w).Finite? && StrictlyBefore(up, Simple(headers), NewestFirst(headers, w).value)
  {
    var s := Sort(headers);
    SortAscending(headers);
    SameMembers(s, headers);
    SumOfPermutation(headers, s);
    var last := s[|s| - 1];
    assert s[0] in headers && last in headers && oldest in s && newest in s;
    assert s[0].number <= oldest.number && newest.number <= last.number;
    assert Before(up, Ratio(s[0]), Ratio(oldest)) && Before(up, Ratio(newest), Ratio(last));
    WeightedLeadsTheTrend(up, s, w);
  }

  /* ---------- Both averages are averages ---------- */

  ghost predicate Bounded(d: real, w: real, lo: real, hi: real) { lo * w <= d <= hi * w }

  lemma BoundedStep(t: Totals, x: real, y: real, lo: real, hi: real)
    requires Bounded(t.d, t.w, lo, hi) && lo <= x <= hi && y > 0.0
    ensures Bounded(Add(t, x, y).d, Add(t, x, y).w, lo, hi)
  {
    NonNegative(x - lo, y);
    NonNegative(hi - x, y);
    assert lo * (t.w + y) == lo * t.w + lo * y && hi * (t.w + y) == hi * t.w + hi * y;
    assert (x - lo) * y == x * y - lo * y && (hi - x) * y == hi * y - x * y;
  }

  lemma {:induction false} AccumulateBounded(a: seq<real>, b: seq<real>, n: nat, lo: real, hi: real)
    requires n <= |a| && n <= |b|
    requires forall i :: 0 <= i < n ==> lo <= a[i] <= hi && b[i] > 0.0
    ensures Bounded(Accumulate(a, b, n).d, Accumulate(a, b, n).w, lo, hi)
  {
    if n > 0 {
      AccumulateBounded(a, b, n - 1, lo, hi);
      BoundedStep(Accumulate(a, b, n - 1), a[n - 1], b[n - 1], lo, hi);
    }
  }

  lemma {:induction false} SumBounded(a: seq<real>, n: nat, lo: real, hi: real)
    requires n <= |a|
    requires forall i :: 0 <= i < n ==> lo <= a[i] <= hi
    ensures Bounded(Sum(a, n), n as real, lo, hi)
  {
    if n > 0 {
      SumBounded(a, n - 1, lo, hi);
      BoundedStep(Totals(0.0, 0.0, (n - 1) as real, Sum(a, n - 1)), a[n - 1], 1.0, lo, hi);
    }
  }

  lemma BoundedAverage(d: real, w: real, lo: real, hi: real)
    requires w > 0.0 && Bounded(d, w, lo, hi)
    ensures lo <= d / w <= hi
  {
    var x := d / w;
    assert d == x * w;
    if x < lo { ScaleLess(x, lo, w); }
    if hi < x { ScaleLess(hi, x, w); }
  }

  /** The block is at least lo and at most hi full; a block without a gas limit counts as empty. */
  ghost predicate FullBetween(h: Header, lo: real, hi: real) {
    if h.gasLimit == 0 then lo <= 0.0 <= hi
    else lo * h.gasLimit as real <= h.gasUsed as real <= hi * h.gasLimit as real
  }

  lemma RatioBetween(h: Header, lo: real, hi: real)
    requires FullBetween(h, lo, hi)
    ensures lo <= Ratio(h) <= hi
  {
    if h.gasLimit != 0 {
      BoundedAverage(h.gasUsed as real, h.gasLimit as real, lo, hi);
    }
  }

  lemma WeightedStaysInRange(s: seq<Header>, w: Weight, lo: real, hi: real)
    requires s != [] && Recency(w)
    requires forall i :: 0 <= i < |s| ==> lo <= Ratio(s[i]) <= hi
    ensures lo <= Weighted(s, w) <= hi
  {
    var n := |s|;
    var a, b := Ratios(s), Weights(w, n);
    AccumulateParts(a, b, n);
    AccumulateBounded(a, b, n, lo, hi);
    BoundedAverage(Accumulate(a, b, n).d, Accumulate(a, b, n).w, lo, hi);
  }

  /** Both metrics lie between the emptiest and the fullest block. */
  lemma MetricsStayInRange(headers: seq<Header>, w: Weight, lo: real, hi: real)
    requires headers != [] && Recency(w)
    requires forall h :: h in headers ==> FullBetween(h, lo, hi)
    ensures lo <= Simple(headers) <= hi
    ensures Limited(headers) ==> NewestFirst(headers, w).Finite? && lo <= NewestFirst(headers, w).value <= hi
  {
    var s, n := Sort(headers), |headers|;
    SameMembers(s, headers);
    forall h | h in headers ensures lo <= Ratio(h) <= hi {
      RatioBetween(h, lo, hi);
    }
    SumOfPermutation(headers, s);
    WeightedStaysInRange(s, w, lo, hi);
    SumBounded(Ratios(headers), n, lo, hi);
    BoundedAverage(Sum(Ratios(headers), n), n as real, lo, hi);
  }

  /** The arrival order of the headers leaves no trace in either metric. */
  lemma MetricsIgnoreArrivalOrder(a: seq<Header>, b: seq<Header>, w: Weight)
    requires multiset(a) == multiset(b) && Plausible(a) && OneChain(a)
    ensures NewestFirst(a, w) == NewestFirst(b, w) && Simple(a) == Simple(b)
  {
    ArrivalOrderDoesNotMatter(a, b);
    SumOfPermutation(a, b);
    SameMembers(a, b);
    SameLimits(a, b);
  }

  /* ---------- What the averages are, block by block ---------- */

  /** How full one block is. */
  function Fullness(h: Header): real {
    if h.gasLimit == 0 then 0.0 else h.gasUsed as real / h.gasLimit as real
  }

  lemma Undivide(x: real, n: real)
    requires n > 0.0
    ensures x / n * n == x
  {
  }

  /** One more block adds its share to the plain average. */
  lemma PlainAverageGrows(headers: seq<Header>, h: Header)
    ensures Simple(headers + [h]) * (|headers| + 1) as real == Simple(headers) * |headers| as real + Fullness(h)
  {
    var more := headers + [h];
    SamePrefix(Ratios(more), Ratios(headers), |headers|);
    Undivide(Sum(Ratios(more), |more|), |more| as real);
    if headers != [] {
      Undivide(Sum(Ratios(headers), |headers|), |headers| as real);
    }
  }

  /** Weights of the n newest places. */
  function WeightSum(w: Weight, n: nat): real {
    if n == 0 then 0.0 else WeightSum(w, n - 1) + w(n - 1)
  }

  lemma {:induction false} AccumulateFront(x: real, y: real, a: seq<real>, b: seq<real>, n: nat)
    requires n <= |a| && n <= |b|
    ensures var t, u := Accumulate([x] + a, [y] + b, n + 1), Accumulate(a, b, n);
            t.d == x * y + u.d && t.w == y + u.w
  {
    if n > 0 {
      AccumulateFront(x, y, a, b, n - 1);
      assert ([x] + a)[n] == a[n - 1] && ([y] + b)[n] == b[n - 1];
    } else {
      assert Accumulate([x] + a, [y] + b, 1) == Add(Accumulate([x] + a, [y] + b, 0), x, y);
    }
  }

  lemma WeightsFront(w: Weight, n: nat)
    ensures Weights(w, n + 1) == [w(n)] + Weights(w, n)
  {
  }

  lemma {:induction false} WeightSumPositive(w: Weight, n: nat)
    requires Recency(w)
    ensures WeightSum(w, n) >= 0.0 && (n > 0 ==> WeightSum(w, n) > 0.0)
  {
    if n > 0 {
      WeightSumPositive(w, n - 1);
    }
  }

  /** Of blocks from the oldest to the newest, each block's fullness times the weight of its distance from the newest. */
  function WeightedTotal(sorted: seq<Header>, w: Weight): real {
    if sorted == [] then 0.0 else Fullness(sorted[0]) * w(|sorted| - 1) + WeightedTotal(sorted[1..], w)
  }

  lemma OldestInFront(s: seq<Header>, w: Weight, x: real, y: real)
    requires s != [] && x == Ratio(s[0]) && y == w(|s| - 1)
    ensures var n := |s|;
            var t, u := Accumulate(Ratios(s), Weights(w, n), n), Accumulate(Ratios(s[1..]), Weights(w, n - 1), n - 1);
            t.d == x * y + u.d && t.w == y + u.w
  {
    WeightsFront(w, |s| - 1);
    assert Ratios(s) == [x] + Ratios(s[1..]);
    AccumulateFront(x, y, Ratios(s[1..]), Weights(w, |s| - 1), |s| - 1);
  }

  lemma {:induction false} AccumulatedWeight(s: seq<Header>, w: Weight)
    ensures Accumulate(Ratios(s), Weights(w, |s|), |s|).w == WeightSum(w, |s|)
  {
    if s != [] {
      AccumulatedWeight(s[1..], w);
      OldestInFront(s, w, Fullness(s[0]), w(|s| - 1));
    }
  }

  lemma {:induction false} AccumulatedTotal(s: seq<Header>, w: Weight)
    ensures Accumulate(Ratios(s), Weights(w, |s|), |s|).d == WeightedTotal(s, w)
  {
    if s != [] {
      AccumulatedTotal(s[1..], w);
      OldestInFront(s, w, Fullness(s[0]), w(|s| - 1));
    }
  }

  ghost predicate IsAverage(x: real, total: real, weight: real) { x * weight == total }

  lemma QuotientIsAverage(x: real, total: real, weight: real)
    requires weight > 0.0 && x == total / weight
    ensures IsAverage(x, total, weight)
  {
  }

  lemma WeightedIsAverage(s: seq<Header>, w: Weight)
    requires Recency(w)
    ensures IsAverage(Weighted(s, w), WeightedTotal(s, w), WeightSum(w, |s|))
  {
    AccumulatedWeight(s, w);
    AccumulatedTotal(s, w);
    WeightSumPositive(w, |s|);
    if s != [] {
      QuotientIsAverage(Weighted(s, w), WeightedTotal(s, w), WeightSum(w, |s|));
    }
  }

  /**
   * The newest-first metric block by block: over the blocks in ascending order, times the sum of all weights it is
   * the sum of every block's fullness times its weight.
   */
  lemma NewestFirstBlockByBlock(headers: seq<Header>, w: Weight, sorted: seq<Header>)
    requires Recency(w) && Plausible(headers) && OneChain(headers) && Limited(headers)
    requires multiset(sorted) == multiset(headers) && Ascending(sorted)
    ensures NewestFirst(headers, w).Finite?
    ensures IsAverage(NewestFirst(headers, w).value, WeightedTotal(sorted, w), WeightSum(w, |headers|))
  {
    SortAscending(headers);
    SameMembers(Sort(headers), headers);
    AscendingIsUnique(Sort(headers), sorted);
    SumOfPermutation(headers, sorted);
    WeightedIsAverage(sorted, w);
  }
}
