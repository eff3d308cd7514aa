/** `compute_bender_score`: the overall score on a 0-100 scale as a fixed
    weighting of the six sub-scores, clamped to [0, 100]. */
module BenderScore {
  /** The six sub-scores, each expected on a 0-100 scale. */
  datatype SubScores = SubScores(
    atsAlignment: real,
    experienceFit: real,
    carQuality: real,
    resumeClarity: real,
    companyCompetitiveness: real,
    riskAdjustment: real)

  /** The weight of each sub-score. */
  const AtsWeight: real := 0.30
  const ExperienceWeight: real := 0.20
  const CarWeight: real := 0.20
  const ClarityWeight: real := 0.10
  const CompanyWeight: real := 0.10
  const RiskWeight: real := 0.10

  predicate InScale(x: real) {
    0.0 <= x <= 100.0
  }

  predicate AllInScale(s: SubScores) {
    && InScale(s.atsAlignment) && InScale(s.experienceFit) && InScale(s.carQuality)
    && InScale(s.resumeClarity) && InScale(s.companyCompetitiveness) && InScale(s.riskAdjustment)
  }

  /** Every sub-score of `s` is at most the matching one of `t`. */
  predicate Below(s: SubScores, t: SubScores) {
    && s.atsAlignment <= t.atsAlignment && s.experienceFit <= t.experienceFit
    && s.carQuality <= t.carQuality && s.resumeClarity <= t.resumeClarity
    && s.companyCompetitiveness <= t.companyCompetitiveness && s.riskAdjustment <= t.riskAdjustment
  }

  function Uniform(x: real): SubScores {
    SubScores(x, x, x, x, x, x)
  }

  /** The weighted sum before the clamp. */
  function WeightedSum(s: SubScores): real {
    AtsWeight * s.atsAlignment + ExperienceWeight * s.experienceFit + CarWeight * s.carQuality
    + ClarityWeight * s.resumeClarity + CompanyWeight * s.companyCompetitiveness + RiskWeight * s.riskAdjustment
  }

  /** `max(0.0, min(100.0, x))`. */
  function ClampScale(x: real): (r: real)
    ensures InScale(r)
    ensures InScale(x) ==> r == x
    ensures x < 0.0 ==> r == 0.0
    ensures x > 100.0 ==> r == 100.0
  {
    if x > 100.0 then 100.0 else if x < 0.0 then 0.0 else x
  }

  /** `compute_bender_score(...)`. */
  function Score(s: SubScores): (r: real)
    ensures InScale(r)
  {
    ClampScale(WeightedSum(s))
  }

  /** The weights add up to one. */
  lemma WeightsSumToOne()
    ensures AtsWeight + ExperienceWeight + CarWeight + ClarityWeight + CompanyWeight + RiskWeight == 1.0
  {
  }

  /** Six equal sub-scores on the scale give that score. */
  lemma UniformScore(x: real)
    requires InScale(x)
    ensures Score(Uniform(x)) == x
  {
    WeightsSumToOne();
  }

  /** Sub-scores on the scale need no clamp: the score is the exact weighted
      sum. */
  lemma NoClampInScale(s: SubScores)
    requires AllInScale(s)
    ensures Score(s) == WeightedSum(s)
  {
  }

  /** Raising any sub-score never lowers the score. */
  lemma Monotone(s: SubScores, t: SubScores)
    requires Below(s, t)
    ensures Score(s) <= Score(t)
  {
  }
}
