/** `risk_adjust_domain`: a risk score in [0, 1] that starts at 1.0 and
    loses a fixed amount for each heuristic risk found, with one factor
    recorded per deduction. Scores are reals; the `{:.2f}` rendering of a
    score is the parameter `fmt`. */
module RiskAdjust {
  import opened Wrappers
  import opened Text
  import AtsMatch

  /** The machine-readable keys of the factors. */
  datatype FactorName =
    | VeryLowAts | LowAts | MissingMustHave | VeryLowExperience | LowExperience
    | NoSkillsListed | SeniorRoleLowExperience

  /** The key as the result spells it. */
  function NameText(n: FactorName): string {
    match n
    case VeryLowAts => "very_low_ats"
    case LowAts => "low_ats"
    case MissingMustHave => "missing_must_have_skills"
    case VeryLowExperience => "very_low_experience"
    case LowExperience => "low_experience"
    case NoSkillsListed => "no_skills_listed"
    case SeniorRoleLowExperience => "senior_role_low_experience"
  }

  datatype RiskFactor = RiskFactor(name: FactorName, weight: real, description: string)

  /** The parts of the scanned job, the scanned resume and the ATS result
      the heuristics read. */
  datatype RiskInput = RiskInput(
    rawTitle: Option<string>,
    totalYears: Option<real>,
    resume: AtsMatch.ResumeScan,
    ats: AtsMatch.AtsResult)

  datatype RiskResult = RiskResult(riskScore: real, factors: seq<RiskFactor>, explanation: string)

  /** Title words that mark a senior role. */
  const SeniorKeywords: seq<string> := ["senior", "staff", "principal", "lead"]

  /** `min(0.3, 0.1 + 0.05 * k)` for `k` missing must-have skills. */
  function MissingPenalty(k: nat): (r: real)
    requires k >= 1
    ensures 0.15 <= r <= 0.3
    ensures r == 0.3 <==> k >= 4
  {
    var p := 0.1 + 0.05 * k as real;
    if p < 0.3 then p else 0.3
  }

  /** A missing experience figure counts as 0 years. */
  function Years(input: RiskInput): real {
    input.totalYears.GetOr(0.0)
  }

  /** The number of skill entries the resume scan lists, blank ones included. */
  function SkillCount(resume: AtsMatch.ResumeScan): nat {
    |resume.globalSkills.GetOr([])| + |resume.toolsAndTech.GetOr([])|
  }

  /** The lower-cased title names one of the senior keywords. */
  function IsSeniorRole(title: Option<string>): bool {
    ContainsAny(Lower(title.GetOr("")), SeniorKeywords)
  }

  /** A title is senior exactly when, lower-cased, it contains one of the
      keywords. */
  lemma SeniorRoleMeaning(title: Option<string>)
    ensures IsSeniorRole(title) <==>
      exists i :: 0 <= i < |SeniorKeywords| && Contains(Lower(title.GetOr("")), SeniorKeywords[i])
  {
    ContainsAnyMeaning(Lower(title.GetOr("")), SeniorKeywords);
  }

  /** The amount each rule deducts from the running score. */
  function AtsDeduction(a: real): (d: real)
    ensures 0.0 <= d <= 0.3
  {
    if a < 0.3 then 0.3 else if a < 0.5 then 0.15 else 0.0
  }

  function MissingDeduction(k: nat): (d: real)
    ensures 0.0 <= d <= 0.3
  {
    if k > 0 then MissingPenalty(k) else 0.0
  }

  function ExperienceDeduction(y: real): (d: real)
    ensures 0.0 <= d <= 0.2
  {
    if y < 1.0 then 0.2 else if y < 3.0 then 0.1 else 0.0
  }

  function SkillsDeduction(count: nat): (d: real)
    ensures 0.0 <= d <= 0.25
  {
    if count == 0 then 0.25 else 0.0
  }

  function SeniorDeduction(senior: bool, y: real): (d: real)
    ensures 0.0 <= d <= 0.15
  {
    if senior && y < 3.0 then 0.15 else 0.0
  }

  /** The score before the clamp: 1.0 less the deductions of the rules
      that fire. */
  function RawScore(input: RiskInput): (r: real)
    ensures -0.2 <= r <= 1.0
  {
    1.0 - AtsDeduction(input.ats.atsScore)
        - MissingDeduction(|input.ats.missingMust|)
        - ExperienceDeduction(Years(input))
        - SkillsDeduction(SkillCount(input.resume))
        - SeniorDeduction(IsSeniorRole(input.rawTitle), Years(input))
  }

  /** The fixed wording of the factor descriptions. */
  const AtsScoreText := "ATS score "
  const VeryLowAtsText := " is very low (< 0.30)."
  const LowAtsText := " is below 0.50."
  const MissingText := "Resume is missing required skills: "
  const VeryLowExperienceText := "Total years of experience is less than 1 year."
  const LowExperienceText := "Total years of experience is between 1 and 3 years."
  const NoSkillsText := "Resume scan did not detect any skills or technologies."
  /** The fixed wording of the explanation. */
  const ScoreText := "Risk score "
  const NoFactorsText := " with no major heuristic risk factors detected."
  const FactorsText := " based on the following factors: "
  const SeniorText := "Job title appears senior (e.g., 'Senior', 'Staff'), but total experience is under 3 years."

  /** The factor each rule records, or none when the rule does not fire. */
  function AtsFactor(a: real, fmt: real -> string): (r: seq<RiskFactor>)
    ensures OfRule(r, 0)
  {
    if a < 0.3 then [RiskFactor(VeryLowAts, -0.3, AtsScoreText + fmt(a) + VeryLowAtsText)]
    else if a < 0.5 then [RiskFactor(LowAts, -0.15, AtsScoreText + fmt(a) + LowAtsText)]
    else []
  }

  function MissingFactor(missing: seq<string>): (r: seq<RiskFactor>)
    ensures OfRule(r, 1)
  {
    if |missing| > 0 then
      [RiskFactor(MissingMustHave, -MissingPenalty(|missing|), MissingText + Join(missing, ", "))]
    else []
  }

  function ExperienceFactor(y: real): (r: seq<RiskFactor>)
    ensures OfRule(r, 2)
  {
    if y < 1.0 then [RiskFactor(VeryLowExperience, -0.2, VeryLowExperienceText)]
    else if y < 3.0 then [RiskFactor(LowExperience, -0.1, LowExperienceText)]
    else []
  }

  function SkillsFactor(count: nat): (r: seq<RiskFactor>)
    ensures OfRule(r, 3)
  {
    if count == 0 then [RiskFactor(NoSkillsListed, -0.25, NoSkillsText)]
    else []
  }

  function SeniorFactor(senior: bool, y: real): (r: seq<RiskFactor>)
    ensures OfRule(r, 4)
  {
    if senior && y < 3.0 then
      [RiskFactor(SeniorRoleLowExperience, -0.15, SeniorText)]
    else []
  }

  /** At most one factor, recorded by rule `k`, with a negative weight. */
  predicate OfRule(fs: seq<RiskFactor>, k: nat) {
    |fs| <= 1 && forall i :: 0 <= i < |fs| ==> RuleOf(fs[i].name) == k && fs[i].weight < 0.0
  }

  /** The factors come one rule at a time, in the order the rules run. */
  predicate RuleOrdered(fs: seq<RiskFactor>) {
    forall i, j :: 0 <= i < j < |fs| ==> RuleOf(fs[i].name) < RuleOf(fs[j].name)
  }

  /** Appending the factor of a later rule keeps the order. */
  lemma RuleOrderedAppend(fs: seq<RiskFactor>, gs: seq<RiskFactor>, k: nat)
    requires RuleOrdered(fs) && Penalizing(fs) && forall i :: 0 <= i < |fs| ==> RuleOf(fs[i].name) < k
    requires OfRule(gs, k)
    ensures RuleOrdered(fs + gs) && Penalizing(fs + gs)
    ensures forall i :: 0 <= i < |fs + gs| ==> RuleOf((fs + gs)[i].name) <= k
  {
    assert forall i :: |fs| <= i < |fs + gs| ==> (fs + gs)[i] == gs[i - |fs|];
  }

  /** The factors, in the order the rules run: at most one per rule, all
      negative. */
  function Factors(input: RiskInput, fmt: real -> string): (r: seq<RiskFactor>)
    ensures |r| <= 5 && Penalizing(r) && RuleOrdered(r)
  {
    var f0 := AtsFactor(input.ats.atsScore, fmt);
    var f1 := f0 + MissingFactor(input.ats.missingMust);
    RuleOrderedAppend(f0, MissingFactor(input.ats.missingMust), 1);
    var f2 := f1 + ExperienceFactor(Years(input));
    RuleOrderedAppend(f1, ExperienceFactor(Years(input)), 2);
    var f3 := f2 + SkillsFactor(SkillCount(input.resume));
    RuleOrderedAppend(f2, SkillsFactor(SkillCount(input.resume)), 3);
    var f4 := f3 + SeniorFactor(IsSeniorRole(input.rawTitle), Years(input));
    RuleOrderedAppend(f3, SeniorFactor(IsSeniorRole(input.rawTitle), Years(input)), 4);
    f4
  }

  /** The sum of the factor weights. */
  function TotalWeight(fs: seq<RiskFactor>): real
    decreases |fs|
  {
    if |fs| == 0 then 0.0 else fs[0].weight + TotalWeight(fs[1..])
  }

  /** The number of factors recorded under key `n`. */
  function Count(fs: seq<RiskFactor>, n: FactorName): (r: nat)
    ensures r <= |fs|
    decreases |fs|
  {
    if |fs| == 0 then 0 else (if fs[0].name == n then 1 else 0) + Count(fs[1..], n)
  }

  predicate Penalizing(fs: seq<RiskFactor>) {
    forall i :: 0 <= i < |fs| ==> fs[i].weight < 0.0
  }

  function Descriptions(fs: seq<RiskFactor>): (r: seq<string>)
    ensures |r| == |fs| && forall i :: 0 <= i < |fs| ==> r[i] == fs[i].description
  {
    seq(|fs|, i requires 0 <= i < |fs| => fs[i].description)
  }

  /** `risk_adjust_domain(input)`. */
  function Adjust(input: RiskInput, fmt: real -> string): (r: RiskResult)
    ensures 0.0 <= r.riskScore <= 1.0
    ensures r.factors == Factors(input, fmt)
    ensures |r.factors| == 0 ==>
      r.explanation == ScoreText + fmt(r.riskScore) + NoFactorsText
    ensures |r.factors| > 0 ==>
      r.explanation == ScoreText + fmt(r.riskScore) + FactorsText
        + Join(Descriptions(r.factors), " ")
  {
    var fs := Factors(input, fmt);
    var score := AtsMatch.Clamp01(RawScore(input));
    if |fs| == 0 then
      RiskResult(score, fs, ScoreText + fmt(score) + NoFactorsText)
    else
      RiskResult(score, fs, ScoreText + fmt(score) + FactorsText + Join(Descriptions(fs), " "))
  }

  lemma {:induction false} TotalWeightAppend(a: seq<RiskFactor>, b: seq<RiskFactor>)
    ensures TotalWeight(a + b) == TotalWeight(a) + TotalWeight(b)
    decreases |a|
  {
    if |a| == 0 {
      assert a + b == b;
    } else {
      assert (a + b)[1..] == a[1..] + b;
      TotalWeightAppend(a[1..], b);
    }
  }

  lemma {:induction false} CountAppend(a: seq<RiskFactor>, b: seq<RiskFactor>, n: FactorName)
    ensures Count(a + b, n) == Count(a, n) + Count(b, n)
    decreases |a|
  {
    if |a| == 0 {
      assert a + b == b;
    } else {
      assert (a + b)[1..] == a[1..] + b;
      CountAppend(a[1..], b, n);
    }
  }

  lemma PenalizingAppend(a: seq<RiskFactor>, b: seq<RiskFactor>)
    requires Penalizing(a) && Penalizing(b)
    ensures Penalizing(a + b)
  {
    assert forall i :: |a| <= i < |a| + |b| ==> (a + b)[i] == b[i - |a|];
  }

  /** The rule, numbered in the order the rules run, that records key `n`. */
  function RuleOf(n: FactorName): (r: nat)
    ensures r < 5
  {
    match n
    case VeryLowAts => 0
    case LowAts => 0
    case MissingMustHave => 1
    case VeryLowExperience => 2
    case LowExperience => 2
    case NoSkillsListed => 3
    case SeniorRoleLowExperience => 4
  }

  /** Whether the rule recording key `n` fires: the reference reading of
      the heuristics, one condition per key. */
  predicate Fires(input: RiskInput, n: FactorName) {
    var a := input.ats.atsScore;
    var y := Years(input);
    match n
    case VeryLowAts => a < 0.3
    case LowAts => 0.3 <= a < 0.5
    case MissingMustHave => |input.ats.missingMust| > 0
    case VeryLowExperience => y < 1.0
    case LowExperience => 1.0 <= y < 3.0
    case NoSkillsListed => SkillCount(input.resume) == 0
    case SeniorRoleLowExperience => IsSeniorRole(input.rawTitle) && y < 3.0
  }

  /** Each rule records at most one factor, weighing minus the rule's
      deduction. */
  lemma RuleWeights(input: RiskInput, fmt: real -> string)
    ensures TotalWeight(AtsFactor(input.ats.atsScore, fmt)) == -AtsDeduction(input.ats.atsScore)
    ensures TotalWeight(MissingFactor(input.ats.missingMust)) == -MissingDeduction(|input.ats.missingMust|)
    ensures TotalWeight(ExperienceFactor(Years(input))) == -ExperienceDeduction(Years(input))
    ensures TotalWeight(SkillsFactor(SkillCount(input.resume))) == -SkillsDeduction(SkillCount(input.resume))
    ensures TotalWeight(SeniorFactor(IsSeniorRole(input.rawTitle), Years(input)))
      == -SeniorDeduction(IsSeniorRole(input.rawTitle), Years(input))
    ensures Penalizing(AtsFactor(input.ats.atsScore, fmt))
    ensures Penalizing(MissingFactor(input.ats.missingMust))
    ensures Penalizing(ExperienceFactor(Years(input)))
    ensures Penalizing(SkillsFactor(SkillCount(input.resume)))
    ensures Penalizing(SeniorFactor(IsSeniorRole(input.rawTitle), Years(input)))
  {
  }

  /** Each recorded weight is exactly the amount deducted, so the raw score
      is 1.0 plus the sum of the weights; and every weight is negative. */
  lemma RawScoreIsWeightSum(input: RiskInput, fmt: real -> string)
    ensures RawScore(input) == 1.0 + TotalWeight(Factors(input, fmt))
    ensures Penalizing(Factors(input, fmt))
  {
    var y := Years(input);
    var a := AtsFactor(input.ats.atsScore, fmt);
    var m := MissingFactor(input.ats.missingMust);
    var e := ExperienceFactor(y);
    var k := SkillsFactor(SkillCount(input.resume));
    var s := SeniorFactor(IsSeniorRole(input.rawTitle), y);
    RuleWeights(input, fmt);
    TotalWeightAppend(a, m);
    TotalWeightAppend(a + m, e);
    TotalWeightAppend(a + m + e, k);
    TotalWeightAppend(a + m + e + k, s);
    PenalizingAppend(a, m);
    PenalizingAppend(a + m, e);
    PenalizingAppend(a + m + e, k);
    PenalizingAppend(a + m + e + k, s);
  }

  /** The reported score is 1.0 plus the weights of the reported factors,
      clamped to [0, 1]. */
  lemma ScoreIsClampedSum(input: RiskInput, fmt: real -> string)
    ensures Adjust(input, fmt).riskScore == AtsMatch.Clamp01(1.0 + TotalWeight(Factors(input, fmt)))
  {
    RawScoreIsWeightSum(input, fmt);
  }

  /** Without factors the score is the full 1.0. */
  lemma NoFactorsFullScore(input: RiskInput, fmt: real -> string)
    requires Factors(input, fmt) == []
    ensures Adjust(input, fmt).riskScore == 1.0
  {
    ScoreIsClampedSum(input, fmt);
    FullWhenEmpty(Factors(input, fmt));
  }

  lemma FullWhenEmpty(fs: seq<RiskFactor>)
    requires fs == []
    ensures AtsMatch.Clamp01(1.0 + TotalWeight(fs)) == 1.0
  {
  }

  /** The keys each rule records: a factor under `n` exactly when `n` is
      one of the rule's keys and its condition holds. */
  lemma AtsCount(input: RiskInput, fmt: real -> string, n: FactorName)
    ensures Count(AtsFactor(input.ats.atsScore, fmt), n) == if RuleOf(n) == 0 && Fires(input, n) then 1 else 0
  {
  }

  lemma MissingCount(input: RiskInput, n: FactorName)
    ensures Count(MissingFactor(input.ats.missingMust), n) == if RuleOf(n) == 1 && Fires(input, n) then 1 else 0
  {
  }

  lemma ExperienceCount(input: RiskInput, n: FactorName)
    ensures Count(ExperienceFactor(Years(input)), n) == if RuleOf(n) == 2 && Fires(input, n) then 1 else 0
  {
  }

  lemma SkillsCount(input: RiskInput, n: FactorName)
    ensures Count(SkillsFactor(SkillCount(input.resume)), n) == if RuleOf(n) == 3 && Fires(input, n) then 1 else 0
  {
  }

  lemma SeniorCount(input: RiskInput, n: FactorName)
    ensures Count(SeniorFactor(IsSeniorRole(input.rawTitle), Years(input)), n)
      == if RuleOf(n) == 4 && Fires(input, n) then 1 else 0
  {
  }

  /** The count over the five rules' factors is the sum of their counts. */
  lemma CountFive(a: seq<RiskFactor>, m: seq<RiskFactor>, e: seq<RiskFactor>, k: seq<RiskFactor>,
                  s: seq<RiskFactor>, n: FactorName)
    ensures Count(a + m + e + k + s, n) == Count(a, n) + Count(m, n) + Count(e, n) + Count(k, n) + Count(s, n)
  {
    CountAppend(a, m, n);
    CountAppend(a + m, e, n);
    CountAppend(a + m + e, k, n);
    CountAppend(a + m + e + k, s, n);
  }

  /** Every key is recorded once when its rule fires and never otherwise. */
  lemma FactorKeys(input: RiskInput, fmt: real -> string, n: FactorName)
    ensures Count(Factors(input, fmt), n) == if Fires(input, n) then 1 else 0
  {
    CountFive(AtsFactor(input.ats.atsScore, fmt), MissingFactor(input.ats.missingMust),
      ExperienceFactor(Years(input)), SkillsFactor(SkillCount(input.resume)),
      SeniorFactor(IsSeniorRole(input.rawTitle), Years(input)), n);
    AtsCount(input, fmt, n);
    MissingCount(input, n);
    ExperienceCount(input, n);
    SkillsCount(input, n);
    SeniorCount(input, n);
  }

  /** At most one ATS factor and at most one experience factor: an ATS
      factor appears exactly when the ATS score is below 0.5, and an
      experience factor exactly when the experience is under 3 years. */
  lemma OneFactorPerBand(input: RiskInput, fmt: real -> string)
    ensures var fs := Factors(input, fmt);
      && Count(fs, VeryLowAts) + Count(fs, LowAts) == (if input.ats.atsScore < 0.5 then 1 else 0)
      && Count(fs, VeryLowExperience) + Count(fs, LowExperience) == (if Years(input) < 3.0 then 1 else 0)
  {
    FactorKeys(input, fmt, VeryLowAts);
    FactorKeys(input, fmt, LowAts);
    FactorKeys(input, fmt, VeryLowExperience);
    FactorKeys(input, fmt, LowExperience);
  }

  /** The seniority factor appears exactly when the lower-cased title names
      a senior keyword and the experience is under 3 years. */
  lemma SeniorFactorWhen(input: RiskInput, fmt: real -> string)
    ensures Count(Factors(input, fmt), SeniorRoleLowExperience) ==
      (if (exists i :: 0 <= i < |SeniorKeywords| && Contains(Lower(input.rawTitle.GetOr("")), SeniorKeywords[i]))
          && Years(input) < 3.0 then 1 else 0)
  {
    FactorKeys(input, fmt, SeniorRoleLowExperience);
    SeniorRoleMeaning(input.rawTitle);
  }

  /** A missing experience figure is scored like 0 years. */
  lemma MissingYearsAsZero(input: RiskInput, fmt: real -> string)
    requires input.totalYears.None?
    ensures Adjust(input, fmt) == Adjust(input.(totalYears := Some(0.0)), fmt)
  {
    assert Years(input.(totalYears := Some(0.0))) == Years(input) == 0.0;
  }
}
