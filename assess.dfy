/** The scoring stage: speed and quality scores normalised against the best result, a weighted
    composite, a memory tier from the model size, the tier tables, and the top recommendation.
    Scores are idealised reals: the rounding of double arithmetic is not modelled. */
module Assess {
  import opened Types
  import opened Ranking
  import Ui

  // ---------------------------------------------------------------------------
  // getTier
  // ---------------------------------------------------------------------------

  /** `getTier`: the size in GiB compared against 2, 4, 8 and 16. */
  function GetTier(size: nat): (t: Tier)
    ensures t == Tiny <==> size < 2 * Ui.GiB
    ensures t == Small <==> 2 * Ui.GiB <= size < 4 * Ui.GiB
    ensures t == Medium <==> 4 * Ui.GiB <= size < 8 * Ui.GiB
    ensures t == Large <==> 8 * Ui.GiB <= size < 16 * Ui.GiB
    ensures t == XL <==> 16 * Ui.GiB <= size
  {
    var gb := size as real / Ui.GiB as real;
    if gb < 2.0 then Tiny
    else if gb < 4.0 then Small
    else if gb < 8.0 then Medium
    else if gb < 16.0 then Large
    else XL
  }

  /** A larger model never lands in a smaller tier. */
  lemma GetTierMonotone(a: nat, b: nat)
    requires a <= b
    ensures TierRank(GetTier(a)) <= TierRank(GetTier(b))
  {
  }

  // ---------------------------------------------------------------------------
  // scoreResult
  // ---------------------------------------------------------------------------

  /** `Math.max(...xs)`; the maximum of no value (`-Infinity`) is `None`. */
  function MaxOf(xs: seq<real>): (m: Option<real>)
    ensures m.None? <==> |xs| == 0
    ensures m.Some? ==> (forall k :: 0 <= k < |xs| ==> xs[k] <= m.value) && m.value in xs
    decreases |xs|
  {
    if |xs| == 0 then None
    else
      var rest := MaxOf(xs[1..]);
      assert forall k :: 1 <= k < |xs| ==> xs[k] == xs[1..][k - 1];
      if rest.Some? && rest.value > xs[0] then rest else Some(xs[0])
  }

  /** A value as a percentage of the maximum; zero when there is no positive maximum. */
  function Normalised(x: real, max: Option<real>): (s: real)
    ensures (max.Some? && max.value > 0.0) ==> s * max.value == x * 100.0
    ensures !(max.Some? && max.value > 0.0) ==> s == 0.0
  {
    if max.Some? && max.value > 0.0 then x / max.value * 100.0 else 0.0
  }

  function Speeds(results: seq<BenchmarkResult>): (xs: seq<real>)
    ensures |xs| == |results|
  {
    seq(|results|, k requires 0 <= k < |results| => results[k].tokensPerSecond)
  }

  function TokenCounts(results: seq<BenchmarkResult>): (xs: seq<real>)
    ensures |xs| == |results|
  {
    seq(|results|, k requires 0 <= k < |results| => results[k].totalTokens as real)
  }

  function SpeedScore(result: BenchmarkResult, all: seq<BenchmarkResult>): real {
    Normalised(result.tokensPerSecond, MaxOf(Speeds(all)))
  }

  function QualityScore(result: BenchmarkResult, all: seq<BenchmarkResult>): (q: real)
    ensures q >= 0.0
  {
    Normalised(result.totalTokens as real, MaxOf(TokenCounts(all)))
  }

  function Composite(speed: real, quality: real, cfg: Config): real {
    speed * cfg.speedWeight + quality * cfg.qualityWeight
  }

  /** `scoreResult`: a function of the result and the full list only. */
  function ScoreResult(result: BenchmarkResult, all: seq<BenchmarkResult>, cfg: Config): (s: ScoredResult)
    ensures s.result == result && s.tier == GetTier(result.model.size)
  {
    var speed := SpeedScore(result, all);
    var quality := QualityScore(result, all);
    ScoredResult(result, speed, quality, Composite(speed, quality, cfg), GetTier(result.model.size))
  }

  /** `results.map((r) => scoreResult(r, results))`. */
  function ScoreAll(results: seq<BenchmarkResult>, cfg: Config): (scored: seq<ScoredResult>)
    ensures |scored| == |results|
    ensures forall k :: 0 <= k < |results| ==> scored[k].result == results[k]
  {
    seq(|results|, k requires 0 <= k < |results| => ScoreResult(results[k], results, cfg))
  }

  /** A normalised score of a value between 0 and the maximum lies in [0, 100], and the maximum
      itself scores 100. */
  lemma NormalisedRange(x: real, xs: seq<real>)
    requires x in xs
    requires forall k :: 0 <= k < |xs| ==> xs[k] >= 0.0
    ensures 0.0 <= Normalised(x, MaxOf(xs)) <= 100.0
    ensures MaxOf(xs).value > 0.0 && x == MaxOf(xs).value ==> Normalised(x, MaxOf(xs)) == 100.0
  {
    var m := MaxOf(xs);
    if m.value > 0.0 {
      RatioBounds(x, m.value);
    }
  }

  lemma RatioBounds(x: real, m: real)
    requires 0.0 <= x <= m && m > 0.0
    ensures 0.0 <= x / m <= 1.0
    ensures x == m ==> x / m == 1.0
  {
  }

  lemma ScaleBy(a: real, b: real, w: real)
    requires a <= b && w >= 0.0
    ensures a * w <= b * w
  {
  }

  /** For a list of non-negative throughputs, every speed score lies in [0, 100] and the fastest
      results score 100 (all score 0 when no throughput is positive). */
  lemma SpeedScoreRange(result: BenchmarkResult, all: seq<BenchmarkResult>)
    requires result in all
    requires forall k :: 0 <= k < |all| ==> all[k].tokensPerSecond >= 0.0
    ensures 0.0 <= SpeedScore(result, all) <= 100.0
    ensures (forall k :: 0 <= k < |all| ==> all[k].tokensPerSecond <= result.tokensPerSecond) && result.tokensPerSecond > 0.0
      ==> SpeedScore(result, all) == 100.0
    ensures (forall k :: 0 <= k < |all| ==> all[k].tokensPerSecond <= 0.0) ==> SpeedScore(result, all) == 0.0
  {
    var xs := Speeds(all);
    var i :| 0 <= i < |all| && all[i] == result;
    assert xs[i] == result.tokensPerSecond;
    NormalisedRange(result.tokensPerSecond, xs);
    var m := MaxOf(xs);
    var j :| 0 <= j < |xs| && xs[j] == m.value;
    assert xs[j] == all[j].tokensPerSecond;
  }

  /** The same for quality scores over token counts. */
  lemma QualityScoreRange(result: BenchmarkResult, all: seq<BenchmarkResult>)
    requires result in all
    ensures 0.0 <= QualityScore(result, all) <= 100.0
    ensures (forall k :: 0 <= k < |all| ==> all[k].totalTokens <= result.totalTokens) && result.totalTokens > 0
      ==> QualityScore(result, all) == 100.0
    ensures (forall k :: 0 <= k < |all| ==> all[k].totalTokens == 0) ==> QualityScore(result, all) == 0.0
  {
    var xs := TokenCounts(all);
    var i :| 0 <= i < |all| && all[i] == result;
    assert xs[i] == result.totalTokens as real;
    NormalisedRange(result.totalTokens as real, xs);
    var m := MaxOf(xs);
    var j :| 0 <= j < |xs| && xs[j] == m.value;
    assert xs[j] == all[j].totalTokens as real;
  }

  /** With non-negative weights the composite never decreases when either score grows. */
  lemma CompositeMonotone(s1: real, q1: real, s2: real, q2: real, cfg: Config)
    requires cfg.speedWeight >= 0.0 && cfg.qualityWeight >= 0.0
    requires s1 <= s2 && q1 <= q2
    ensures Composite(s1, q1, cfg) <= Composite(s2, q2, cfg)
  {
    ScaleBy(s1, s2, cfg.speedWeight);
    ScaleBy(q1, q2, cfg.qualityWeight);
  }

  /** With non-negative weights summing to 1, scores in [0, 100] give a composite in [0, 100]. */
  lemma CompositeRange(s: real, q: real, cfg: Config)
    requires cfg.speedWeight >= 0.0 && cfg.qualityWeight >= 0.0
    requires cfg.speedWeight + cfg.qualityWeight == 1.0
    requires 0.0 <= s <= 100.0 && 0.0 <= q <= 100.0
    ensures 0.0 <= Composite(s, q, cfg) <= 100.0
  {
    var sw, qw, top := cfg.speedWeight, cfg.qualityWeight, 100.0;
    ScaleBy(s, top, sw);
    ScaleBy(q, top, qw);
    ProductNonNegative(s, sw);
    ProductNonNegative(q, qw);
    WeightsSplit(top, sw, qw);
    AddLe(s * sw, q * qw, top * sw, top * qw);
  }

  lemma ProductNonNegative(a: real, b: real)
    requires a >= 0.0 && b >= 0.0
    ensures a * b >= 0.0
  {
  }

  lemma WeightsSplit(c: real, a: real, b: real)
    requires a + b == 1.0
    ensures c * a + c * b == c
  {
    assert c * a + c * b == c * (a + b);
  }

  lemma AddLe(a: real, b: real, c: real, d: real)
    requires a <= c && b <= d
    ensures a + b <= c + d
  {
  }

  // ---------------------------------------------------------------------------
  // assess
  // ---------------------------------------------------------------------------

  /** What `assess` produces: nothing for an empty list (it logs an error and returns); otherwise
      the tier tables of the scored results and the top recommendation, the head of the scored
      list sorted by descending composite score. */
  datatype Report = NoResults | Report(tables: seq<Ui.Group>, best: ScoredResult)

  function Assess(results: seq<BenchmarkResult>, cfg: Config): (report: Report)
    ensures report.NoResults? <==> |results| == 0
  {
    if |results| == 0 then NoResults
    else
      var scored := ScoreAll(results, cfg);
      Report(Ui.Rendered(scored), SortDesc(scored)[0])
  }

  /** The top recommendation is one of the scored results, no scored result has a higher composite
      score, and of several with the top score it is the earliest in input order. */
  lemma AssessBest(results: seq<BenchmarkResult>, cfg: Config)
    requires |results| > 0
    ensures Assess(results, cfg).best in ScoreAll(results, cfg)
    ensures Assess(results, cfg).best.result in results
    ensures forall k :: 0 <= k < |results| ==>
      ScoreAll(results, cfg)[k].compositeScore <= Assess(results, cfg).best.compositeScore
    ensures exists k ::
              0 <= k < |results| && ScoreAll(results, cfg)[k] == Assess(results, cfg).best
              && (forall j :: 0 <= j < k ==> ScoreAll(results, cfg)[j].compositeScore < Assess(results, cfg).best.compositeScore)
  {
    var scored := ScoreAll(results, cfg);
    assert Assess(results, cfg).best == SortDesc(scored)[0];
    SortDescHead(scored);
    FirstMaxIsEarliest(scored);
    var i :| 0 <= i < |scored| && scored[i] == FirstMax(scored);
    assert scored[i].result == results[i];
  }

  /** Scoring one result needs only that result and the list: the tier comes from the size alone,
      and two results with the same throughput and token count in the same list score the same. */
  lemma ScoreDependsOnMetrics(a: BenchmarkResult, b: BenchmarkResult, all: seq<BenchmarkResult>, cfg: Config)
    requires a.tokensPerSecond == b.tokensPerSecond && a.totalTokens == b.totalTokens
    requires a.model.size == b.model.size
    ensures ScoreResult(a, all, cfg).compositeScore == ScoreResult(b, all, cfg).compositeScore
    ensures ScoreResult(a, all, cfg).tier == ScoreResult(b, all, cfg).tier
  {
  }
}
