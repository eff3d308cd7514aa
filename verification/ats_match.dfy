/** `ats_match_domain`: compares the skills a job asks for with the skills a
    resume lists, as set algebra on normalised skill names plus a coverage
    score in [0, 1]. */
module AtsMatch {
  import opened Wrappers
  import opened Text
  import opened Lexicographic

  /** A normalised skill name: non-empty, trimmed and lower-case. */
  predicate IsSkill(x: string) {
    |x| > 0 && IsTrimmed(x) && Lower(x) == x
  }

  /** One entry of a skill list after `s.strip().lower()`; None for a
      non-string (None in the list) or blank entry, which is dropped. */
  function NormalizeOne(s: Option<string>): (r: Option<string>)
    ensures r.Some? ==> IsSkill(r.value)
  {
    if s.Some? && |Trim(s.value)| > 0 then
      LowerIdempotent(Trim(s.value));
      Some(Lower(Trim(s.value)))
    else None
  }

  /** `_normalize_skills`: the set of normalised names, listed in sorted
      order. */
  function NormalizeSkills(skills: seq<Option<string>>): (r: seq<string>)
    ensures Sorted(r)
    ensures forall x :: x in r <==> exists i :: 0 <= i < |skills| && NormalizeOne(skills[i]) == Some(x)
    decreases |skills|
  {
    if |skills| == 0 then []
    else
      var rest := NormalizeSkills(skills[1..]);
      assert forall i :: 1 <= i < |skills| ==> skills[i] == skills[1..][i - 1];
      match NormalizeOne(skills[0])
      case None => rest
      case Some(x) => Insert(x, rest)
  }

  /** Every listed skill is normalised. */
  lemma NormalizedAreSkills(skills: seq<Option<string>>)
    ensures forall x :: x in NormalizeSkills(skills) ==> IsSkill(x)
  {
  }

  function AsEntries(xs: seq<string>): (r: seq<Option<string>>)
    ensures |r| == |xs| && forall i :: 0 <= i < |xs| ==> r[i] == Some(xs[i])
  {
    seq(|xs|, i requires 0 <= i < |xs| => Some(xs[i]))
  }

  /** A normalised skill survives normalisation unchanged. */
  lemma NormalizeOneFixed(x: string)
    requires IsSkill(x)
    ensures NormalizeOne(Some(x)) == Some(x)
  {
    TrimmedFixed(x);
  }

  /** Normalising already normalised skills changes nothing. */
  lemma {:induction false} NormalizeIdempotent(xs: seq<string>)
    requires Sorted(xs) && forall i :: 0 <= i < |xs| ==> IsSkill(xs[i])
    ensures NormalizeSkills(AsEntries(xs)) == xs
    decreases |xs|
  {
    if |xs| > 0 {
      var es := AsEntries(xs);
      assert es[1..] == AsEntries(xs[1..]);
      assert Sorted(xs[1..]);
      NormalizeIdempotent(xs[1..]);
      NormalizeOneFixed(xs[0]);
      var r := Insert(xs[0], xs[1..]);
      assert NormalizeSkills(es) == r;
      forall x ensures x in r <==> x in xs {
        TailMembers(xs, x);
      }
      SortedUnique(r, xs);
    }
  }

  /** In particular the output of the normalisation is a fixed point. */
  lemma NormalizeTwice(skills: seq<Option<string>>)
    ensures NormalizeSkills(AsEntries(NormalizeSkills(skills))) == NormalizeSkills(skills)
  {
    var xs := NormalizeSkills(skills);
    NormalizedAreSkills(skills);
    assert forall i :: 0 <= i < |xs| ==> xs[i] in xs;
    NormalizeIdempotent(xs);
  }

  /** `a & b` and `a - b` on sorted listings. */
  function Intersect(a: seq<string>, b: seq<string>): (r: seq<string>)
    requires Sorted(a)
    ensures Sorted(r) && forall x :: x in r <==> x in a && x in b
  {
    Filter(a, x => x in b)
  }

  function Minus(a: seq<string>, b: seq<string>): (r: seq<string>)
    requires Sorted(a)
    ensures Sorted(r) && forall x :: x in r <==> x in a && x !in b
  {
    Filter(a, x => x !in b)
  }

  /** Matched and missing skills split the required ones. */
  lemma IntersectMinusSplit(a: seq<string>, b: seq<string>)
    requires Sorted(a)
    ensures |Intersect(a, b)| + |Minus(a, b)| == |a|
  {
    FilterSplit(a, x => x in b, x => x !in b);
  }

  datatype JobScan = JobScan(mustHave: seq<Option<string>>, niceToHave: seq<Option<string>>)

  /** Either list of the resume scan may be missing (`or []`). */
  datatype ResumeScan = ResumeScan(globalSkills: Option<seq<Option<string>>>, toolsAndTech: Option<seq<Option<string>>>)

  datatype AtsResult = AtsResult(
    atsScore: real,
    matchedSkills: seq<string>,
    missingMust: seq<string>,
    missingNice: seq<string>,
    extraResume: seq<string>,
    explanation: string)

  const WeightMust: real := 0.7
  const WeightNice: real := 0.3
  /** The score of a job that names no skills. */
  const Neutral: real := 0.5

  /** The coverage ratio of one category; 1.0 when the job names none. */
  function Coverage(matched: nat, total: nat): (r: real)
    requires matched <= total
    ensures 0.0 <= r <= 1.0
    ensures total > 0 && matched == total ==> r == 1.0
    ensures total > 0 && matched == 0 ==> r == 0.0
  {
    if total > 0 then matched as real / total as real else 1.0
  }

  /** `max(0.0, min(1.0, x))`. */
  function Clamp01(x: real): (r: real)
    ensures 0.0 <= r <= 1.0
    ensures 0.0 <= x <= 1.0 ==> r == x
  {
    if x > 1.0 then 1.0 else if x < 0.0 then 0.0 else x
  }

  /** The score before the clamp, by which categories the job names. */
  function Combined(mustTotal: nat, niceTotal: nat, mustScore: real, niceScore: real): real {
    if mustTotal == 0 && niceTotal == 0 then Neutral
    else if mustTotal == 0 then niceScore
    else if niceTotal == 0 then mustScore
    else WeightMust * mustScore + WeightNice * niceScore
  }

  /** The combination of two coverages already lies in [0, 1], so the
      final clamp never changes it. */
  lemma CombinedInRange(mustTotal: nat, niceTotal: nat, mustScore: real, niceScore: real)
    requires 0.0 <= mustScore <= 1.0 && 0.0 <= niceScore <= 1.0
    ensures 0.0 <= Combined(mustTotal, niceTotal, mustScore, niceScore) <= 1.0
  {
  }

  /** "Matched k/n <kind> skills". */
  function MatchedPart(k: nat, n: nat, kind: string): string {
    "Matched " + NatToString(k) + "/" + NatToString(n) + " " + kind + " skills"
  }

  /** `prefix + ", ".join(names)` when `names` is non-empty. */
  function ListPart(prefix: string, names: seq<string>): seq<string> {
    if |names| > 0 then [prefix + Join(names, ", ")] else []
  }

  /** The sentences of the explanation, in order. */
  function ExplanationParts(must: seq<string>, nice: seq<string>, matchedMust: seq<string>, matchedNice: seq<string>,
                            missingMust: seq<string>, missingNice: seq<string>, extra: seq<string>): seq<string> {
    [if |must| > 0 then MatchedPart(|matchedMust|, |must|, "must-have")
     else "Job did not specify any explicit must-have skills"]
    + (if |nice| > 0 then [MatchedPart(|matchedNice|, |nice|, "nice-to-have")] else [])
    + ListPart("Missing must-have skills: ", missingMust)
    + ListPart("Missing nice-to-have skills: ", missingNice)
    + ListPart("Extra skills on the resume: ", extra)
  }

  /** `ats_match_domain(input)`. */
  function Match(job: JobScan, resume: ResumeScan): (r: AtsResult)
    ensures 0.0 <= r.atsScore <= 1.0
    ensures Sorted(r.matchedSkills) && Sorted(r.missingMust) && Sorted(r.missingNice) && Sorted(r.extraResume)
  {
    var must := NormalizeSkills(job.mustHave);
    var nice := NormalizeSkills(job.niceToHave);
    var all := NormalizeSkills(resume.globalSkills.GetOr([]) + resume.toolsAndTech.GetOr([]));
    var matchedMust := Intersect(must, all);
    var matchedNice := Intersect(nice, all);
    var missingMust := Minus(must, all);
    var missingNice := Minus(nice, all);
    var extra := Filter(all, x => x !in must && x !in nice);
    IntersectMinusSplit(must, all);
    IntersectMinusSplit(nice, all);
    var score := Clamp01(Combined(|must|, |nice|, Coverage(|matchedMust|, |must|), Coverage(|matchedNice|, |nice|)));
    var parts := ExplanationParts(must, nice, matchedMust, matchedNice, missingMust, missingNice, extra);
    AtsResult(score, matchedMust, missingMust, missingNice, extra, Join(parts, ". "))
  }

  /** The normalised sets the matcher compares. */
  function MustSet(job: JobScan): seq<string> {
    NormalizeSkills(job.mustHave)
  }

  function NiceSet(job: JobScan): seq<string> {
    NormalizeSkills(job.niceToHave)
  }

  function ResumeSet(resume: ResumeScan): seq<string> {
    NormalizeSkills(resume.globalSkills.GetOr([]) + resume.toolsAndTech.GetOr([]))
  }

  /** The skill lists: matched and missing must-haves partition the
      must-haves, missing nice-to-haves are the unmatched nice-to-haves,
      the extras are the resume's skills the job does not name, and the
      matched list holds must-have matches only. */
  lemma MatchSets(job: JobScan, resume: ResumeScan)
    ensures var r := Match(job, resume);
      && (forall x :: x in r.matchedSkills <==> x in MustSet(job) && x in ResumeSet(resume))
      && (forall x :: x in r.missingMust <==> x in MustSet(job) && x !in ResumeSet(resume))
      && (forall x :: x in r.missingNice <==> x in NiceSet(job) && x !in ResumeSet(resume))
      && (forall x :: x in r.extraResume <==> x in ResumeSet(resume) && x !in MustSet(job) && x !in NiceSet(job))
      && |r.matchedSkills| + |r.missingMust| == |MustSet(job)|
  {
    IntersectMinusSplit(MustSet(job), ResumeSet(resume));
  }

  /** The score: 0.5 for a job without skills, the coverage of the one
      category named, or 0.7 of the must-have coverage plus 0.3 of the
      nice-to-have coverage, never altered by the clamp. */
  lemma MatchScore(job: JobScan, resume: ResumeScan)
    ensures var must := MustSet(job);
      var nice := NiceSet(job);
      var all := ResumeSet(resume);
      var m := Coverage(|Intersect(must, all)|, |must|);
      var n := Coverage(|Intersect(nice, all)|, |nice|);
      var s := Match(job, resume).atsScore;
      && (|must| == 0 && |nice| == 0 ==> s == 0.5)
      && (|must| == 0 && |nice| > 0 ==> s == n)
      && (|must| > 0 && |nice| == 0 ==> s == m)
      && (|must| > 0 && |nice| > 0 ==> s == 0.7 * m + 0.3 * n)
  {
    var must := MustSet(job);
    var nice := NiceSet(job);
    var all := ResumeSet(resume);
    IntersectMinusSplit(must, all);
    IntersectMinusSplit(nice, all);
    CombinedInRange(|must|, |nice|, Coverage(|Intersect(must, all)|, |must|), Coverage(|Intersect(nice, all)|, |nice|));
  }

  /** A list with no members is empty. Kept apart from its caller, whose
      facts already rule out a first element. */
  lemma NoMembersEmpty(s: seq<string>)
    ensures (forall x :: x !in s) ==> |s| == 0
  {
    if |s| > 0 {
      assert s[0] in s;
    }
  }

  /** When `b` holds every element of `a`, all of `a` is matched. */
  lemma AllMatched(a: seq<string>, b: seq<string>)
    requires Sorted(a) && forall x :: x in a ==> x in b
    ensures |Intersect(a, b)| == |a|
  {
    IntersectMinusSplit(a, b);
    NoMembersEmpty(Minus(a, b));
  }

  /** A resume holding every skill the job names scores 1.0. */
  lemma FullCoverage(job: JobScan, resume: ResumeScan)
    requires |MustSet(job)| + |NiceSet(job)| > 0
    requires forall x :: x in MustSet(job) || x in NiceSet(job) ==> x in ResumeSet(resume)
    ensures Match(job, resume).atsScore == 1.0
  {
    MatchScore(job, resume);
    AllMatched(MustSet(job), ResumeSet(resume));
    AllMatched(NiceSet(job), ResumeSet(resume));
  }

  /** The explanation opens with the must-have sentence. */
  lemma ExplanationOpens(job: JobScan, resume: ResumeScan)
    ensures var must := MustSet(job);
      var e := Match(job, resume).explanation;
      && (|must| > 0 ==> StartsWith(e, MatchedPart(|Intersect(must, ResumeSet(resume))|, |must|, "must-have")))
      && (|must| == 0 ==> StartsWith(e, "Job did not specify any explicit must-have skills"))
  {
    var must := MustSet(job);
    var nice := NiceSet(job);
    var all := ResumeSet(resume);
    var parts := ExplanationParts(must, nice, Intersect(must, all), Intersect(nice, all),
      Minus(must, all), Minus(nice, all), Filter(all, x => x !in must && x !in nice));
    JoinStartsWith(parts, ". ");
  }
}
