/** Scoring of proxies over real numbers: the factors, the weighted score and its combination with a service verdict. */
module Scoring {
  import opened Common

  datatype ServiceStatus = Untested | Passed | Failed | Blocked | Skipped

  datatype Anonymity = Elite | Anonymous | Transparent | Unknown

  /** Every score the program produces is an integer in this range. */
  type Score = n: int | 0 <= n <= 100

  datatype ScoringConfig = ScoringConfig(
    idealLatency: real,
    maxLatency: real,
    reliabilityWeight: real,
    latencyWeight: real,
    freshnessWeight: real,
    serviceWeight: real,
    qualityWeight: real,
    halfLife: real,
    failurePenalty: real,
    decay: (real, real) -> real)
  {
    function WeightSum(): real {
      reliabilityWeight + latencyWeight + freshnessWeight + serviceWeight + qualityWeight
    }

    ghost predicate Valid() {
      && idealLatency < maxLatency
      && 0.0 <= reliabilityWeight && 0.0 <= latencyWeight && 0.0 <= freshnessWeight
      && 0.0 <= serviceWeight && 0.0 <= qualityWeight
      && 0.0 < WeightSum()
      && 0.0 <= failurePenalty
    }
  }

  /** Configurations the scores are meaningful for; the witness holds the shipped defaults. */
  type Config = c: ScoringConfig | c.Valid()
    witness ScoringConfig(200.0, 3000.0, 0.35, 0.2, 0.15, 0.25, 0.05, 45.0, 12.0, (m, h) => 0.5)

  datatype ScoreInput = ScoreInput(
    validationPassed: bool,
    latency: Option<real>,
    checks: int,
    passes: int,
    failures: int,
    sincePass: Option<real>,
    service: ServiceStatus,
    blocked: bool,
    trust: Option<real>,
    anonymity: Anonymity)

  function Clamp01(x: real): real { if x < 0.0 then 0.0 else if x > 1.0 then 1.0 else x }

  function Clamp(x: real, lo: real, hi: real): real { if x < lo then lo else if x > hi then hi else x }

  /** `Math.round`: ties go up. */
  function Round(x: real): int { (x + 0.5).Floor }

  function RealMin(a: real, b: real): real { if a < b then a else b }

  function RealMax(a: real, b: real): real { if a < b then b else a }

  function ServiceFactor(s: ServiceStatus): real {
    match s
    case Passed => 1.0
    case Untested => 0.45
    case Skipped => 0.3
    case Failed => 0.1
    case Blocked => 0.0
  }

  function AnonymityFactor(a: Anonymity): real {
    match a
    case Elite => 1.0
    case Anonymous => 0.75
    case Transparent => 0.4
    case Unknown => 0.6
  }

  function LatencyScore(latency: Option<real>, c: Config): real {
    if latency.None? || latency.value <= 0.0 then 0.0
    else if latency.value <= c.idealLatency then 1.0
    else if latency.value >= c.maxLatency then 0.0
    else Clamp01((c.maxLatency - latency.value) / (c.maxLatency - c.idealLatency))
  }

  function FreshnessScore(sincePass: Option<real>, c: Config): real {
    if sincePass.None? then 0.0
    else if sincePass.value <= 0.0 then 1.0
    else Clamp01(c.decay(sincePass.value, c.halfLife))
  }

  function ReliabilityScore(checks: int, passes: int, validationPassed: bool): real {
    if checks <= 0 then if validationPassed then 0.5 else 0.0
    else Clamp01(passes as real / checks as real)
  }

  function QualityScore(trust: Option<real>, anonymity: Anonymity): real {
    var t := Clamp01(if trust.Some? then trust.value else 0.5);
    Clamp01(t * 0.6 + AnonymityFactor(anonymity) * 0.4)
  }

  function FailurePenalty(failures: int, c: Config): real {
    Max(0, failures - 1) as real * c.failurePenalty + (if failures > 0 then c.failurePenalty / 2.0 else 0.0)
  }

  function Penalty(failures: int, blocked: bool, c: Config): real {
    var repeated := RealMin(40.0, FailurePenalty(failures, c));
    RealMin(60.0, if blocked then repeated + 25.0 else repeated)
  }

  datatype Factors = Factors(reliability: real, latency: real, freshness: real, service: real, quality: real)

  function FactorsOf(i: ScoreInput, c: Config): Factors {
    Factors(
      ReliabilityScore(i.checks, i.passes, i.validationPassed),
      LatencyScore(i.latency, c),
      FreshnessScore(i.sincePass, c),
      Clamp01(ServiceFactor(i.service)),
      QualityScore(i.trust, i.anonymity))
  }

  function Weighted(f: Factors, c: Config): real {
    c.reliabilityWeight * f.reliability
    + c.latencyWeight * f.latency
    + c.freshnessWeight * f.freshness
    + c.serviceWeight * f.service
    + c.qualityWeight * f.quality
  }

  function ScoreProxy(i: ScoreInput, c: Config): Score {
    if !i.validationPassed then 0
    else Round(Clamp(Weighted(FactorsOf(i, c), c) / c.WeightSum() * 100.0 - Penalty(i.failures, i.blocked, c), 0.0, 100.0))
  }

  // ------------------------------------------------------------------ monotonicity of the score

  /** The order in which service verdicts are preferred. */
  function ServiceRank(s: ServiceStatus): nat {
    match s
    case Blocked => 0
    case Failed => 1
    case Skipped => 2
    case Untested => 3
    case Passed => 4
  }

  /** Lower positive latency is better; an unknown or non-positive one is the worst. */
  predicate NoSlower(a: Option<real>, b: Option<real>) {
    b.None? || b.value <= 0.0 || (a.Some? && 0.0 < a.value <= b.value)
  }

  predicate NoStaler(a: Option<real>, b: Option<real>) {
    b.None? || (a.Some? && a.value <= b.value)
  }

  /** The share of passes; a row without checks counts as one half, as it does when its validation has just passed. */
  function PassRatio(checks: int, passes: int): real { if checks <= 0 then 0.5 else passes as real / checks as real }

  /** Elapsed time never makes a pass look fresher. */
  ghost predicate Decays(c: Config) {
    && (forall m: real, n: real :: m <= n ==> c.decay(m, c.halfLife) >= c.decay(n, c.halfLife))
  }

  /** `a` is at least as good as `b` in every observation that enters the score. */
  predicate NoWorse(a: ScoreInput, b: ScoreInput) {
    && (b.validationPassed ==> a.validationPassed)
    && PassRatio(a.checks, a.passes) >= PassRatio(b.checks, b.passes)
    && NoSlower(a.latency, b.latency)
    && NoStaler(a.sincePass, b.sincePass)
    && ServiceRank(a.service) >= ServiceRank(b.service)
    && (a.blocked ==> b.blocked)
    && a.failures <= b.failures
    && a.trust == b.trust && a.anonymity == b.anonymity
  }

  lemma ScaledByWeight(w: real, x: real, y: real)
    requires 0.0 <= w && x >= y
    ensures w * x >= w * y
  {
    assert w * (x - y) >= 0.0;
  }

  lemma TwoTerms(v: real, x: real, x': real, w: real, y: real, y': real)
    requires 0.0 <= v && 0.0 <= w && x >= x' && y >= y'
    ensures v * x + w * y >= v * x' + w * y'
  {
    ScaledByWeight(v, x, x');
    ScaledByWeight(w, y, y');
  }

  lemma LatencyNeverHelps(a: Option<real>, b: Option<real>, c: Config)
    requires NoSlower(a, b)
    ensures LatencyScore(a, c) >= LatencyScore(b, c)
  {
    if b.Some? && 0.0 < b.value && c.idealLatency < a.value && b.value < c.maxLatency {
      QuotientMonotone(c.maxLatency - a.value, c.maxLatency - b.value, c.maxLatency - c.idealLatency);
    }
  }

  lemma QuotientMonotone(x: real, y: real, d: real)
    requires 0.0 < d && x >= y
    ensures x / d >= y / d
  {
    assert (x / d) * d == x && (y / d) * d == y;
  }

  lemma PenaltyGrows(f: int, g: int, blockedF: bool, blockedG: bool, c: Config)
    requires f <= g && (blockedF ==> blockedG)
    ensures Penalty(f, blockedF, c) <= Penalty(g, blockedG, c)
  {
    var x, y := Max(0, f - 1) as real, Max(0, g - 1) as real;
    ScaledByWeight(c.failurePenalty, y, x);
    assert FailurePenalty(f, c) <= FailurePenalty(g, c);
  }

  /** Where the two differ in a freshness that decays, elapsed time never makes a pass look fresher. */
  ghost predicate FreshnessComparable(a: ScoreInput, b: ScoreInput, c: Config) {
    a.sincePass.Some? && b.sincePass.Some? && 0.0 < a.sincePass.value < b.sincePass.value ==> Decays(c)
  }

  lemma FactorsMonotone(a: ScoreInput, b: ScoreInput, c: Config)
    requires NoWorse(a, b) && a.validationPassed && b.validationPassed && FreshnessComparable(a, b, c)
    ensures AtLeast(FactorsOf(a, c), FactorsOf(b, c))
  {
    LatencyNeverHelps(a.latency, b.latency, c);
  }

  predicate AtLeast(f: Factors, g: Factors) {
    && f.reliability >= g.reliability
    && f.latency >= g.latency
    && f.freshness >= g.freshness
    && f.service >= g.service
    && f.quality >= g.quality
  }

  lemma WeightedMonotone(f: Factors, g: Factors, c: Config)
    requires AtLeast(f, g)
    ensures Weighted(f, c) >= Weighted(g, c)
  {
    TwoTerms(c.reliabilityWeight, f.reliability, g.reliability, c.latencyWeight, f.latency, g.latency);
    TwoTerms(c.freshnessWeight, f.freshness, g.freshness, c.serviceWeight, f.service, g.service);
    ScaledByWeight(c.qualityWeight, f.quality, g.quality);
  }

  /** A proxy observed to be no worse than another never scores below it. */
  lemma ScoreMonotone(a: ScoreInput, b: ScoreInput, c: Config)
    requires NoWorse(a, b) && FreshnessComparable(a, b, c)
    ensures ScoreProxy(a, c) >= ScoreProxy(b, c)
  {
    if b.validationPassed {
      var f, g := FactorsOf(a, c), FactorsOf(b, c);
      FactorsMonotone(a, b, c);
      WeightedMonotone(f, g, c);
      PenaltyGrows(a.failures, b.failures, a.blocked, b.blocked, c);
      QuotientMonotone(Weighted(f, c), Weighted(g, c), c.WeightSum());
    }
  }

  // ------------------------------------------------------------------ what a point is worth

  /** Each factor counts with its own weight, and nothing else counts. */
  lemma WeightsCount(f: Factors, d: real, c: Config)
    ensures Weighted(f.(reliability := f.reliability + d), c) == Weighted(f, c) + c.reliabilityWeight * d
    ensures Weighted(f.(latency := f.latency + d), c) == Weighted(f, c) + c.latencyWeight * d
    ensures Weighted(f.(freshness := f.freshness + d), c) == Weighted(f, c) + c.freshnessWeight * d
    ensures Weighted(f.(service := f.service + d), c) == Weighted(f, c) + c.serviceWeight * d
    ensures Weighted(f.(quality := f.quality + d), c) == Weighted(f, c) + c.qualityWeight * d
    ensures Weighted(Factors(0.0, 0.0, 0.0, 0.0, 0.0), c) == 0.0
  {
    AddedPoint(c.reliabilityWeight, f.reliability, d);
    AddedPoint(c.latencyWeight, f.latency, d);
    AddedPoint(c.freshnessWeight, f.freshness, d);
    AddedPoint(c.serviceWeight, f.service, d);
    AddedPoint(c.qualityWeight, f.quality, d);
  }

  lemma AddedPoint(w: real, x: real, d: real)
    ensures w * (x + d) == w * x + w * d
  {
  }

  /**
   * The score of a passing proxy is the weighted mean of its factors in points, less the penalty, to the nearest
   * integer; without a penalty it cannot leave the range, and with one it stops at zero.
   */
  lemma ScoreIsNearest(i: ScoreInput, c: Config)
    requires i.validationPassed
    ensures var points := Weighted(FactorsOf(i, c), c) * 100.0 - Penalty(i.failures, i.blocked, c) * c.WeightSum();
            if points < 0.0 then ScoreProxy(i, c) == 0
            else points <= 100.0 * c.WeightSum() ==>
              (ScoreProxy(i, c) as real - 0.5) * c.WeightSum() <= points < (ScoreProxy(i, c) as real + 0.5) * c.WeightSum()
  {
    hide Weighted, Penalty, FactorsOf, ScoringConfig.WeightSum;
    var w, p, sum := Weighted(FactorsOf(i, c), c), Penalty(i.failures, i.blocked, c), c.WeightSum();
    WeightsAddUp(c);
    var exact := w / sum * 100.0 - p;
    Quotient(w, sum, p);
    RoundedInRange(exact);
    var score := ScoreProxy(i, c);
    assert score == Round(Clamp(exact, 0.0, 100.0));
    RangeOf(exact, sum, w * 100.0 - p * sum);
    if 0.0 <= exact <= 100.0 {
      Between(score as real - 0.5, exact, score as real + 0.5, sum, w * 100.0 - p * sum);
    }
  }

  lemma WeightsAddUp(c: Config)
    ensures c.WeightSum() > 0.0
  {
  }

  lemma RoundedInRange(exact: real)
    ensures exact < 0.0 ==> Round(Clamp(exact, 0.0, 100.0)) == 0
    ensures 0.0 <= exact <= 100.0 ==>
              Round(Clamp(exact, 0.0, 100.0)) as real - 0.5 <= exact < Round(Clamp(exact, 0.0, 100.0)) as real + 0.5
  {
  }

  /** Where a quotient lies can be read off its product with the divisor. */
  lemma RangeOf(exact: real, sum: real, points: real)
    requires sum > 0.0 && exact * sum == points
    ensures points < 0.0 <==> exact < 0.0
    ensures points <= 100.0 * sum <==> exact <= 100.0
  {
    KeepsOrder(exact, 0.0, sum);
    KeepsOrder(exact, 100.0, sum);
  }

  lemma Between(low: real, exact: real, high: real, sum: real, points: real)
    requires sum > 0.0 && exact * sum == points && low <= exact < high
    ensures low * sum <= points < high * sum
  {
    KeepsOrder(low, exact, sum);
    KeepsOrder(exact, high, sum);
  }

  lemma Quotient(w: real, sum: real, p: real)
    requires sum > 0.0
    ensures (w / sum * 100.0 - p) * sum == w * 100.0 - p * sum
  {
    assert w / sum * sum == w;
  }

  lemma KeepsOrder(x: real, y: real, d: real)
    requires 0.0 < d
    ensures x < y <==> x * d < y * d
    ensures x <= y <==> x * d <= y * d
  {
    SameSign(y - x, d);
    assert (y - x) * d == y * d - x * d;
  }

  lemma SameSign(x: real, d: real)
    requires 0.0 < d
    ensures (0.0 < x <==> 0.0 < x * d) && (0.0 <= x <==> 0.0 <= x * d)
  {
    if x < 0.0 {
      assert (-x) * d > 0.0;
    }
  }

  lemma ShareOf(x: real, d: real)
    requires 0.0 <= x <= d && 0.0 < d
    ensures 0.0 <= x / d <= 1.0 && x / d * d == x
  {
    QuotientMonotone(d, x, d);
    QuotientMonotone(x, 0.0, d);
  }

  /** Between the ideal and the largest latency the factor falls in a straight line. */
  lemma LatencyIsLinear(latency: real, c: Config)
    requires 0.0 < latency && c.idealLatency <= latency <= c.maxLatency
    ensures LatencyScore(Some(latency), c) * (c.maxLatency - c.idealLatency) == c.maxLatency - latency
  {
    ShareOf(c.maxLatency - latency, c.maxLatency - c.idealLatency);
  }

  /** Reliability is the share of passes among the checks. */
  lemma ReliabilityIsShare(checks: int, passes: int, passed: bool)
    requires 0 <= passes <= checks && 0 < checks
    ensures ReliabilityScore(checks, passes, passed) * checks as real == passes as real
  {
    ShareOf(passes as real, checks as real);
  }

  /** The first failure in a row costs half the points, every further one all of them, up to 40; a block costs 25 more, up to 60. */
  lemma PenaltyIs(failures: int, c: Config)
    ensures failures <= 0 ==> Penalty(failures, false, c) == 0.0
    ensures failures > 0 ==> Penalty(failures, false, c) == RealMin(40.0, (failures as real - 0.5) * c.failurePenalty)
    ensures Penalty(failures, true, c) == RealMin(60.0, Penalty(failures, false, c) + 25.0)
  {
    if failures > 0 {
      assert (failures - 1) as real * c.failurePenalty + c.failurePenalty / 2.0 == (failures as real - 0.5) * c.failurePenalty;
    }
  }

  /** With the shipped weights: a first pass in 300 ms from an unknown source, and a slower one of a blocked elite proxy. */
  lemma ShippedScores(decay: (real, real) -> real)
    ensures var c: Config := ScoringConfig(200.0, 3000.0, 0.35, 0.2, 0.15, 0.25, 0.05, 45.0, 12.0, decay);
            && ScoreProxy(ScoreInput(true, Some(300.0), 1, 1, 0, Some(0.0), Untested, false, None, Unknown), c) == 83
            && ScoreProxy(ScoreInput(true, Some(1600.0), 4, 3, 0, Some(0.0), Blocked, true, Some(1.0), Elite), c) == 31
            && ScoreProxy(ScoreInput(false, Some(300.0), 1, 1, 0, Some(0.0), Passed, false, Some(1.0), Elite), c) == 0
  {
  }

  // ------------------------------------------------------------------ combination with a service verdict

  function Unit(x: real): real { RealMin(1.0, RealMax(0.0, x)) }

  function Blend(base: real, quality: real, w: real): real { base * w + quality * (1.0 - w) }

  /** Final pool score; no service quality means the connectivity score stands alone. */
  function CombineScores(connectivity: real, quality: Option<real>, connectivityWeight: real): Score {
    var base := Unit(connectivity / 100.0);
    if quality.None? then Round(base * 100.0)
    else Round(Unit(Blend(base, Unit(quality.value), Unit(connectivityWeight))) * 100.0)
  }

  lemma BlendMonotone(x: real, y: real, p: real, q: real, w: real)
    requires x <= y && p <= q && 0.0 <= w <= 1.0
    ensures Blend(x, p, w) <= Blend(y, q, w)
  {
    TwoTerms(w, y, x, 1.0 - w, q, p);
  }

  lemma CombineMonotone(s: real, t: real, p: Option<real>, q: Option<real>, w: real)
    requires s <= t
    requires p.Some? <==> q.Some?
    requires p.Some? ==> p.value <= q.value
    ensures CombineScores(s, p, w) <= CombineScores(t, q, w)
  {
    QuotientMonotone(t, s, 100.0);
    if p.Some? {
      BlendMonotone(Unit(s / 100.0), Unit(t / 100.0), Unit(p.value), Unit(q.value), Unit(w));
    }
  }

  /** Without a verdict an integer score is returned unchanged, whatever the weight. */
  lemma CombineIdentity(s: Score, w: real)
    ensures CombineScores(s as real, None, w) == s
  {
    assert s as real / 100.0 * 100.0 == s as real;
  }

  /** With a verdict the score is the mean of connectivity and quality by the weight, to the nearest integer. */
  lemma CombineIsMean(s: real, q: real, w: real)
    requires 0.0 <= s <= 100.0 && 0.0 <= q <= 1.0 && 0.0 <= w <= 1.0
    ensures CombineScores(s, Some(q), w) as real - 0.5 <= w * s + (1.0 - w) * (100.0 * q) < CombineScores(s, Some(q), w) as real + 0.5
  {
    BlendMonotone(0.0, s / 100.0, 0.0, q, w);
    BlendMonotone(s / 100.0, 1.0, q, 1.0, w);
    MeanInPoints(s, q, w);
  }

  lemma MeanInPoints(s: real, q: real, w: real)
    ensures Blend(s / 100.0, q, w) * 100.0 == w * s + (1.0 - w) * (100.0 * q)
    ensures Blend(0.0, 0.0, w) == 0.0 && Blend(1.0, 1.0, w) == 1.0
  {
    assert s / 100.0 * 100.0 == s;
    assert s / 100.0 * w * 100.0 == w * (s / 100.0 * 100.0);
    assert q * (1.0 - w) * 100.0 == (1.0 - w) * (100.0 * q);
  }

  datatype Verdict = VPassed | VFailed | VBlocked | VSkipped

  /** The adapter's 0..1 quality factor, with its default latency window of 400 to 5000 ms. */
  function ServiceQuality(verdict: Verdict, latency: Option<real>, serviceFailures: int): (q: real)
    ensures 0.0 <= q <= 1.0
  {
    match verdict
    case VPassed =>
      var latencyFactor := if latency.None? then 0.6 else Clamp01((5000.0 - latency.value) / (5000.0 - 399.0));
      var stability := Clamp01(1.0 - 0.25 * Max(0, serviceFailures) as real);
      Clamp01(0.7 + 0.2 * latencyFactor + 0.1 * stability)
    case VBlocked => 0.05
    case VSkipped => 0.5
    case VFailed => RealMax(0.0, 0.1 - RealMin(0.3, 0.1 * Max(0, serviceFailures - 1) as real))
  }

  /** Between 399 and 5000 ms a pass loses a fifth in a straight line, and a fortieth for each of up to four failures. */
  lemma PassQuality(latency: real, failures: int)
    requires 399.0 <= latency <= 5000.0 && 0 <= failures <= 4
    ensures ServiceQuality(VPassed, Some(latency), failures) == 1.0 - 0.2 * (latency - 399.0) / 4601.0 - 0.025 * failures as real
    ensures ServiceQuality(VPassed, None, failures) == 0.92 - 0.025 * failures as real
  {
  }

  /** Every other verdict is worth less than any pass. */
  lemma OtherQualities(failures: int)
    ensures ServiceQuality(VSkipped, None, failures) == 0.5 && ServiceQuality(VBlocked, None, failures) == 0.05
    ensures ServiceQuality(VFailed, None, failures) == if failures <= 1 then 0.1 else 0.0
    ensures forall latency :: ServiceQuality(VPassed, latency, failures) >= 0.7
  {
  }

  /** However slow the pass and however the failure came about, a passing probe never ranks a proxy below a failing one. */
  lemma PassNeverRanksBelowFailure(s: real, v: Verdict, l1: Option<real>, f1: int, l2: Option<real>, f2: int, w: real)
    requires v.VFailed? || v.VBlocked?
    ensures CombineScores(s, Some(ServiceQuality(v, l2, f2)), w) <= CombineScores(s, Some(ServiceQuality(VPassed, l1, f1)), w)
  {
    CombineMonotone(s, s, Some(ServiceQuality(v, l2, f2)), Some(ServiceQuality(VPassed, l1, f1)), w);
  }
}
