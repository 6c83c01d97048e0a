/** Suggested EIP-1559 fees: historical data adjusted by priority and by congestion. */
module Fees {
  import opened Common
  import opened BumpStrategy
  import opened GasBump

  datatype Class = Low | Medium | High | Extreme

  datatype FeeError = ZeroBaseFee | UnknownPriority | NoMetric

  // The congestion metric, too few headers (tolerated), or another failure (not tolerated).
  datatype MetricResult = Metric(value: Float) | TooFewHeaders | Broken

  // A tip that leaves int64 can turn negative.
  datatype Suggestion = Suggestion(feeCap: int, tipCap: int)

  function AdjustmentFactor(p: Priority): Option<real> {
    match p
    case Degen => Some(1.5)
    case Fast => Some(1.2)
    case Standard => Some(1.0)
    case Slow => Some(0.8)
    case Other => None
  }

  /** No comparison with an undefined metric holds, and an infinite one is above every bound. */
  function Classify(metric: Float): Class {
    if !metric.Finite? then Extreme
    else if metric.value < 0.33 then Low
    else if metric.value <= 0.66 then Medium
    else if metric.value <= 0.75 then High
    else Extreme
  }

  function CongestionFactor(c: Class): real {
    match c
    case Low => 1.1
    case Medium => 1.2
    case High => 1.3
    case Extreme => 1.4
  }

  /** A product of fees, cut to whole wei towards zero. */
  function Scale(k: real, x: real): (r: int)
    requires k >= 0.0
    ensures x >= 0.0 ==> r >= 0
  {
    Product(k, if x >= 0.0 then x else -x);
    if x >= 0.0 then (k * x).Floor else -(k * -x).Floor
  }

  lemma Product(k: real, x: real)
    requires k >= 0.0 && x >= 0.0
    ensures k * x >= 0.0
  {
  }

  /** The buffer for full blocks; none when too few headers could be fetched. */
  function Buffered(metric: MetricResult, fee: int): (r: int)
    ensures fee >= 0 ==> r >= 0
  {
    if metric.Metric? then Scale(CongestionFactor(Classify(metric.value)), fee as real) else fee
  }

  /** `int64(x)`; what is out of range becomes the smallest int64, as on amd64. */
  function Truncate(x: real): int
    requires x >= 0.0
  {
    if x < TWO_63 as real then x.Floor else -TWO_63
  }

  /** The larger of the historical and the node's own tip. */
  function CurrentTip(suggestedTip: nat, historicalTip: real): nat
    requires historicalTip >= 0.0
  {
    if Truncate(historicalTip) > suggestedTip then Truncate(historicalTip) else suggestedTip
  }

  function Suggest(suggestedTip: nat, base: real, historicalTip: real, p: Priority, metric: MetricResult)
    : (r: Result<Suggestion, FeeError>)
    requires base >= 0.0 && historicalTip >= 0.0
    ensures r.Ok? ==> r.value.tipCap <= r.value.feeCap
  {
    if AdjustmentFactor(p).None? then Err(UnknownPriority)
    else if base == 0.0 then Err(ZeroBaseFee)
    else if metric.Broken? then Err(NoMetric)
    else
      var k, tip := AdjustmentFactor(p).value, Int64(CurrentTip(suggestedTip, historicalTip));
      var adjustedTip, adjustedBase := Buffered(metric, Scale(k, tip as real)), Buffered(metric, Scale(k, base));
      Ok(Suggestion(adjustedBase + adjustedTip, adjustedTip))
  }

  method GetSuggestedEIP1559Fees(suggestedTip: nat, base: real, historicalTip: real, p: Priority, metric: MetricResult)
    returns (r: Result<Suggestion, FeeError>)
    requires base >= 0.0 && historicalTip >= 0.0
    ensures r == Suggest(suggestedTip, base, historicalTip, p, metric)
    ensures r.Ok? ==> r.value.tipCap <= r.value.feeCap
  {
    // historical data exists for the known priorities only
    if p.Other? { return Err(UnknownPriority); }
    var currentTip := suggestedTip;
    if Truncate(historicalTip) > currentTip {
      currentTip := Truncate(historicalTip);
    }
    if base == 0.0 { return Err(ZeroBaseFee); }
    var factor := AdjustmentFactor(p);
    var adjustedTip := Scale(factor.value, Int64(currentTip) as real);
    var adjustedBase := Scale(factor.value, base);
    match metric {
      case Metric(value) =>
        var buffer := CongestionFactor(Classify(value));
        adjustedBase := Scale(buffer, adjustedBase as real);
        adjustedTip := Scale(buffer, adjustedTip as real);
      case Broken =>
        return Err(NoMetric);
      case TooFewHeaders =>
    }
    return Ok(Suggestion(adjustedBase + adjustedTip, adjustedTip));
  }

  lemma ScaleMonotone(k: real, m: real, x: real, y: real)
    requires 0.0 <= k <= m && 0.0 <= x <= y
    ensures Scale(k, x) <= Scale(m, y)
  {
    Product(m - k, x);
    Product(m, y - x);
    assert (m - k) * x == m * x - k * x && m * (y - x) == m * y - m * x;
  }

  /** Adjusted by the priority factor k and then by the congestion factor f. */
  function Adjusted(k: real, f: real, x: real): int
    requires k >= 0.0 && f >= 0.0
  {
    Scale(f, Scale(k, x) as real)
  }

  /** The suggestion for a given tip, once priority and congestion are known. */
  function Priced(k: real, f: real, tip: int, base: real): Suggestion
    requires k >= 0.0 && f >= 0.0
  {
    Suggestion(Adjusted(k, f, base) + Adjusted(k, f, tip as real), Adjusted(k, f, tip as real))
  }

  lemma SuggestionIsPriced(suggestedTip: nat, base: real, historicalTip: real, p: Priority, metric: Float)
    requires base > 0.0 && historicalTip >= 0.0 && !p.Other?
    ensures var tip := Int64(CurrentTip(suggestedTip, historicalTip));
            Suggest(suggestedTip, base, historicalTip, p, Metric(metric))
            == Ok(Priced(AdjustmentFactor(p).value, CongestionFactor(Classify(metric)), tip, base))
  {
  }

  lemma ScaleWithinOne(k: real, x: real)
    requires k >= 0.0 && x >= 0.0
    ensures k * x - 1.0 < Scale(k, x) as real <= k * x
  {
  }

  /** Cutting to whole wei twice costs less than the factor plus one. */
  lemma ScaleTwice(f: real, k: real, x: real)
    requires 1.0 <= f <= 1.4 && k >= 0.0 && x >= 0.0
    ensures f * (k * x) - 2.4 < Scale(f, Scale(k, x) as real) as real <= f * (k * x)
  {
    var y := Scale(k, x) as real;
    ScaleWithinOne(k, x);
    ScaleWithinOne(f, y);
    Product(k, x);
    Product(f, k * x - y);
    Product(f, y - (k * x - 1.0));
    assert f * (k * x - y) == f * (k * x) - f * y;
    assert f * (y - (k * x - 1.0)) == f * y - f * (k * x) + f;
  }

  /** Cut to whole wei twice, the value is less than 2.4 wei nearer to zero than the exact product. */
  ghost predicate Within(exact: real, value: int) {
    if exact >= 0.0 then exact - 2.4 < value as real <= exact else exact <= value as real < exact + 2.4
  }

  lemma ScaleTwiceEitherSign(f: real, k: real, x: real)
    requires 1.0 <= f <= 1.4 && k >= 0.0
    ensures Within(f * (k * x), Adjusted(k, f, x))
  {
    if x >= 0.0 {
      ScaleTwice(f, k, x);
      Product(k, x);
      Product(f, k * x);
    } else {
      ScaleTwice(f, k, -x);
      Product(k, -x);
      Product(f, k * -x);
      assert f * (k * -x) == -(f * (k * x));
    }
  }

  /** The tip cap is the tip, and the fee cap adds the base fee, both times both factors. */
  ghost predicate Follows(s: Suggestion, k: real, f: real, tip: int, base: real) {
    Within(f * (k * tip as real), s.tipCap) && Within(f * (k * base), s.feeCap - s.tipCap)
  }

  lemma PricedFollows(k: real, f: real, tip: int, base: real)
    requires k >= 0.0 && 1.0 <= f <= 1.4
    ensures Follows(Priced(k, f, tip, base), k, f, tip, base)
  {
    ScaleTwiceEitherSign(f, k, tip as real);
    ScaleTwiceEitherSign(f, k, base);
  }

  /**
   * Both fees are the exact products, within 2.4 wei: the tip is the larger of the two tips as an int64, the
   * fee cap adds the base fee to it, and both carry the priority and the congestion factor.
   */
  lemma FeesAreTheAdjustedHistory(suggestedTip: nat, base: real, historicalTip: real, p: Priority, metric: Float)
    requires base > 0.0 && historicalTip >= 0.0 && !p.Other?
    ensures var s := Suggest(suggestedTip, base, historicalTip, p, Metric(metric)).value;
            var tip := Int64(CurrentTip(suggestedTip, historicalTip));
            var k, f := AdjustmentFactor(p).value, CongestionFactor(Classify(metric));
            && Follows(s, k, f, tip, base)
            && (tip == CurrentTip(suggestedTip, historicalTip) <==> CurrentTip(suggestedTip, historicalTip) < TWO_63)
  {
    var tip := CurrentTip(suggestedTip, historicalTip);
    Int64IsExactBelowTwo63(tip);
    SuggestionIsPriced(suggestedTip, base, historicalTip, p, metric);
    PricedFollows(AdjustmentFactor(p).value, CongestionFactor(Classify(metric)), Int64(tip), base);
  }

  /** The documented adjustment of each priority. */
  predicate IsPriorityFactor(p: Priority, k: real) {
    (p.Degen? && k == 1.5) || (p.Fast? && k == 1.2) || (p.Standard? && k == 1.0) || (p.Slow? && k == 0.8)
  }

  /** The documented buffer of each level of congestion; an undefined or infinite metric counts as the highest. */
  predicate IsCongestionFactor(m: Float, f: real) {
    if !m.Finite? then f == 1.4
    else
      && (m.value < 0.33 ==> f == 1.1) && (0.33 <= m.value <= 0.66 ==> f == 1.2)
      && (0.66 < m.value <= 0.75 ==> f == 1.3) && (0.75 < m.value ==> f == 1.4)
  }

  /** Whole wei of the product with one factor. */
  function Cut(k: real, x: real): int { (k * x).Floor }

  lemma FactorsAreDocumented(p: Priority, k: real, m: Float, f: real)
    ensures IsPriorityFactor(p, k) <==> AdjustmentFactor(p) == Some(k)
    ensures IsCongestionFactor(m, f) <==> CongestionFactor(Classify(m)) == f
  {
  }

  lemma ScaleIsCut(k: real, x: real)
    requires k >= 0.0 && x >= 0.0
    ensures Scale(k, x) == Cut(k, x)
  {
  }

  /** The larger of two tips that fit into int64. */
  lemma LargerTip(suggestedTip: nat, historicalTip: real) returns (t: nat)
    requires suggestedTip < TWO_63 && 0.0 <= historicalTip < TWO_63 as real
    ensures suggestedTip <= t && historicalTip.Floor <= t && (t == suggestedTip || t == historicalTip.Floor)
    ensures t == Int64(CurrentTip(suggestedTip, historicalTip))
  {
    t := CurrentTip(suggestedTip, historicalTip);
    Int64IsExactBelowTwo63(t);
  }

  lemma BufferedIs(k: real, f: real, metric: MetricResult, x: real)
    requires 0.0 <= k && 0.0 <= x && (metric.Metric? ==> IsCongestionFactor(metric.value, f))
    ensures Buffered(metric, Scale(k, x)) == if metric.Metric? then Cut(f, Cut(k, x) as real) else Cut(k, x)
  {
    ScaleIsCut(k, x);
    if metric.Metric? {
      FactorsAreDocumented(Degen, 1.5, metric.value, f);
      ScaleIsCut(f, Cut(k, x) as real);
    }
  }

  /**
   * To the wei: the tip cap is the larger of the two tips, the fee cap adds the base fee, and both are cut to
   * whole wei after the priority factor and, when a congestion metric could be computed, after its buffer.
   */
  lemma SuggestionFollowsTheLargerTip(
      suggestedTip: nat, base: real, historicalTip: real, p: Priority, metric: MetricResult, k: real, f: real)
    returns (t: nat)
    requires suggestedTip < TWO_63 && base > 0.0 && 0.0 <= historicalTip < TWO_63 as real && !metric.Broken?
    requires IsPriorityFactor(p, k) && (metric.Metric? ==> IsCongestionFactor(metric.value, f))
    ensures suggestedTip <= t && historicalTip.Floor <= t && (t == suggestedTip || t == historicalTip.Floor)
    ensures var tipCap := if metric.Metric? then Cut(f, Cut(k, t as real) as real) else Cut(k, t as real);
            var baseFee := if metric.Metric? then Cut(f, Cut(k, base) as real) else Cut(k, base);
            Suggest(suggestedTip, base, historicalTip, p, metric) == Ok(Suggestion(baseFee + tipCap, tipCap))
  {
    FactorsAreDocumented(p, k, NaN, 1.4);
    t := LargerTip(suggestedTip, historicalTip);
    BufferedIs(k, f, metric, t as real);
    BufferedIs(k, f, metric, base);
  }

  /** Which error a suggestion ends with: an unknown priority first, then a zero base fee, then the metric. */
  lemma SuggestionFailsExactly(suggestedTip: nat, base: real, historicalTip: real, p: Priority, metric: MetricResult)
    requires base >= 0.0 && historicalTip >= 0.0
    ensures var r := Suggest(suggestedTip, base, historicalTip, p, metric);
            && (r == Err(UnknownPriority) <==> p.Other?)
            && (r == Err(ZeroBaseFee) <==> !p.Other? && base == 0.0)
            && (r == Err(NoMetric) <==> !p.Other? && base > 0.0 && metric.Broken?)
  {
  }

  /** The factors never round a negative tip away, except a tip of -1 under the slow priority. */
  lemma ScaleKeepsSign(k: real, t: int)
    requires k == 0.8 || 1.0 <= k <= 1.5
    ensures Scale(k, t as real) < 0 <==> t < (if k == 0.8 then -1 else 0)
  {
  }

  /** The suggested tip is negative if and only if the larger tip wraps around to a negative int64. */
  lemma NegativeTipExactlyWhenItWraps(suggestedTip: nat, base: real, historicalTip: real, p: Priority, metric: MetricResult)
    requires base >= 0.0 && historicalTip >= 0.0
    requires Suggest(suggestedTip, base, historicalTip, p, metric).Ok?
    ensures var s := Suggest(suggestedTip, base, historicalTip, p, metric).value;
            s.tipCap < 0 <==> Int64(CurrentTip(suggestedTip, historicalTip)) < if p.Slow? then -1 else 0
  {
    var tip, k := Int64(CurrentTip(suggestedTip, historicalTip)), AdjustmentFactor(p).value;
    ScaleKeepsSign(k, tip);
    if metric.Metric? {
      ScaleKeepsSign(CongestionFactor(Classify(metric.value)), Scale(k, tip as real));
    }
  }

  function Rank(p: Priority): nat {
    match p
    case Other => 0
    case Slow => 1
    case Standard => 2
    case Fast => 3
    case Degen => 4
  }

  ghost predicate AtMost(a: Suggestion, b: Suggestion) { a.feeCap <= b.feeCap && a.tipCap <= b.tipCap }

  /** A chain at least as full; a metric that is no number counts as full. */
  predicate NoFuller(m: Float, n: Float) { n.Finite? ==> m.Finite? && m.value <= n.value }

  lemma AdjustedMonotone(j: real, k: real, f: real, g: real, x: real, y: real)
    requires 0.0 <= j <= k && 0.0 <= f <= g && 0.0 <= x <= y
    ensures Adjusted(j, f, x) <= Adjusted(k, g, y)
  {
    ScaleMonotone(j, k, x, y);
    ScaleMonotone(f, g, Scale(j, x) as real, Scale(k, y) as real);
  }

  lemma PricedMonotone(j: real, k: real, f: real, g: real, tip: nat, tip': nat, base: real, base': real)
    requires 0.0 <= j <= k && 0.0 <= f <= g && tip <= tip' && 0.0 <= base <= base'
    ensures AtMost(Priced(j, f, tip, base), Priced(k, g, tip', base'))
  {
    AdjustedMonotone(j, k, f, g, tip as real, tip' as real);
    AdjustedMonotone(j, k, f, g, base, base');
  }

  lemma FactorsAreOrdered(p: Priority, q: Priority, m: Float, n: Float)
    requires 0 < Rank(p) <= Rank(q) && NoFuller(m, n)
    ensures AdjustmentFactor(p).value <= AdjustmentFactor(q).value
    ensures CongestionFactor(Classify(m)) <= CongestionFactor(Classify(n))
  {
  }

  lemma TipsAreOrdered(suggestedTip: nat, t: real, t': real)
    requires 0.0 <= t <= t' < TWO_63 as real && suggestedTip < TWO_63
    ensures Int64(CurrentTip(suggestedTip, t)) == CurrentTip(suggestedTip, t)
    ensures CurrentTip(suggestedTip, t) <= CurrentTip(suggestedTip, t')
    ensures Int64(CurrentTip(suggestedTip, t')) == CurrentTip(suggestedTip, t')
  {
    Int64IsExactBelowTwo63(CurrentTip(suggestedTip, t));
    Int64IsExactBelowTwo63(CurrentTip(suggestedTip, t'));
  }

  /**
   * A higher priority, whose history is read at a higher percentile, never lowers either fee, and neither
   * does a fuller chain, as long as the tips fit into int64.
   */
  lemma FeesFollowPriorityAndCongestion(
      suggestedTip: nat, base: real, base': real, historicalTip: real, historicalTip': real,
      p: Priority, q: Priority, m: Float, n: Float)
    requires 0.0 < base <= base' && 0.0 <= historicalTip <= historicalTip'
    requires suggestedTip < TWO_63 && historicalTip' < TWO_63 as real
    requires 0 < Rank(p) <= Rank(q) && NoFuller(m, n)
    ensures var a := Suggest(suggestedTip, base, historicalTip, p, Metric(m));
            var b := Suggest(suggestedTip, base', historicalTip', q, Metric(n));
            a.Ok? && b.Ok? && AtMost(a.value, b.value)
  {
    SuggestionIsPriced(suggestedTip, base, historicalTip, p, m);
    SuggestionIsPriced(suggestedTip, base', historicalTip', q, n);
    TipsAreOrdered(suggestedTip, historicalTip, historicalTip');
    FactorsAreOrdered(p, q, m, n);
    PricedMonotone(
      AdjustmentFactor(p).value, AdjustmentFactor(q).value, CongestionFactor(Classify(m)), CongestionFactor(Classify(n)),
      CurrentTip(suggestedTip, historicalTip), CurrentTip(suggestedTip, historicalTip'), base, base');
  }

  /** A tip of 2^63 wei is suggested as a negative one. */
  lemma LargeTipsWrap(base: real, metric: MetricResult)
    requires base > 0.0 && !metric.Broken?
    ensures var r := Suggest(TWO_63, base, 0.0, Standard, metric); r.Ok? && r.value.tipCap < 0
  {
    NegativeTipExactlyWhenItWraps(TWO_63, base, 0.0, Standard, metric);
  }

  /** Suggested fees make a valid transaction unless the tip wrapped, and it stays valid however often it is bumped. */
  lemma SuggestedFeesSurviveBumps(
      suggestedTip: nat, base: real, historicalTip: real, p: Priority, metric: MetricResult, body: Body, q: Priority, j: nat)
    requires base >= 0.0 && historicalTip >= 0.0
    requires Suggest(suggestedTip, base, historicalTip, p, metric).Ok?
    requires Int64(CurrentTip(suggestedTip, historicalTip)) >= 0
    ensures var s := Suggest(suggestedTip, base, historicalTip, p, metric).value;
            && 0 <= s.tipCap <= s.feeCap
            && var t := BumpedTimes(DynamicFee(body, s.feeCap, s.tipCap), PriorityStrategy(q), j);
               t.DynamicFee? && t.tipCap <= t.feeCap && t.body == body
  {
    var s := Suggest(suggestedTip, base, historicalTip, p, metric).value;
    NegativeTipExactlyWhenItWraps(suggestedTip, base, historicalTip, p, metric);
    FeeCapCoversTip(DynamicFee(body, s.feeCap, s.tipCap), q, j);
  }
}
