/**
  * The OA trigger probability: an additive score over a normalised posting
  * and a normalised resume, clamped to [0, 1], and the recommendation label
  * derived from it. Scores are exact rationals.
  */
module Engine {
  import opened Models

  const BaseScore: real := 0.5

  /** The resume status that the visa term reacts to; matched exactly. */
  const VisaRequired: string := "Visa Required"

  /** Meeting the required years, falling short by at most one year, or
      falling short by more. */
  function ExperienceAdjustment(gap: real): real {
    if gap >= 0.0 then 0.2 else if gap >= -1.0 then -0.1 else -0.3
  }

  /** Python's `set(list)`. */
  function SkillSet(skills: seq<string>): (s: set<string>)
    ensures forall x :: x in s <==> x in skills
  {
    set x | x in skills
  }

  /** The share of the required skills that the resume holds; a posting
      without required skills counts as fully covered. */
  function OverlapRatio(required: set<string>, held: set<string>): (ratio: real)
    ensures 0.0 <= ratio <= 1.0
    ensures ratio == 1.0 <==> required <= held
  {
    if required == {} then 1.0
    else
      var common := required * held;
      SubsetCardinality(common, required);
      assert |common| == |required| <==> required <= held by {
        if |common| == |required| {
          EqualCardinalitySubset(common, required);
        }
        if required <= held {
          assert common == required;
        }
      }
      var c := |common| as real;
      var n := |required| as real;
      DivisionThreshold(c, n, 1.0);
      DivisionThreshold(n, n, c / n);
      c / n
  }

  /** Overlap bands: at least 0.8, at least 0.5, below 0.2, and a band in
      between that adds nothing. */
  function SkillAdjustment(ratio: real): real {
    if ratio >= 0.8 then 0.3 else if ratio >= 0.5 then 0.1 else if ratio < 0.2 then -0.2 else 0.0
  }

  function VisaAdjustment(signal: VisaSignal, status: string): real {
    if signal == Unlikely && status == VisaRequired then -0.5
    else if signal == Likely && status == VisaRequired then 0.1
    else 0.0
  }

  /** A posting that asks for no experience at all. */
  function EntryLevelBonus(requiredYears: real): real {
    if requiredYears == 0.0 then 0.1 else 0.0
  }

  /** The score before clamping. */
  function RawScore(job: NormalizedJob, resume: NormalizedResume): real {
    BaseScore
    + ExperienceAdjustment(resume.yearsOfExperience - job.experienceYears)
    + SkillAdjustment(OverlapRatio(SkillSet(job.requiredSkills), SkillSet(resume.skills)))
    + VisaAdjustment(job.visaSponsorship, resume.visaStatus)
    + EntryLevelBonus(job.experienceYears)
  }

  /** `max(0.0, min(1.0, score))`. */
  function Clamp(score: real): (r: real)
    ensures 0.0 <= r <= 1.0
    ensures 0.0 <= score <= 1.0 ==> r == score
    ensures score < 0.0 ==> r == 0.0
    ensures score > 1.0 ==> r == 1.0
  {
    if 1.0 < score then 1.0 else if score < 0.0 then 0.0 else score
  }

  /** The probability of an online assessment for this pair. */
  function Probability(job: NormalizedJob, resume: NormalizedResume): (p: real)
    ensures 0.0 <= p <= 1.0
  {
    Clamp(RawScore(job, resume))
  }

  /** Accumulates the score term by term and clamps it. */
  method CalculateProbability(job: NormalizedJob, resume: NormalizedResume) returns (p: real)
    ensures p == Probability(job, resume)
    ensures 0.0 <= p <= 1.0
  {
    var score := BaseScore;

    var gap := resume.yearsOfExperience - job.experienceYears;
    if gap >= 0.0 {
      score := score + 0.2;
    } else if gap >= -1.0 {
      score := score - 0.1;
    } else {
      score := score - 0.3;
    }

    var jobSkills := set s | s in job.requiredSkills;
    var resumeSkills := set s | s in resume.skills;
    var ratio;
    if jobSkills == {} {
      ratio := 1.0;
    } else {
      var common := jobSkills * resumeSkills;
      ratio := (|common| as real) / (|jobSkills| as real);
    }
    assert ratio == OverlapRatio(SkillSet(job.requiredSkills), SkillSet(resume.skills));
    if ratio >= 0.8 {
      score := score + 0.3;
    } else if ratio >= 0.5 {
      score := score + 0.1;
    } else if ratio < 0.2 {
      score := score - 0.2;
    }

    if job.visaSponsorship == Unlikely && resume.visaStatus == VisaRequired {
      score := score - 0.5;
    } else if job.visaSponsorship == Likely && resume.visaStatus == VisaRequired {
      score := score + 0.1;
    }

    if job.experienceYears == 0.0 {
      score := score + 0.1;
    }

    var capped := if 1.0 <= score then 1.0 else score;
    p := if 0.0 >= capped then 0.0 else capped;
  }

  datatype Recommendation = StrongApply | Apply | LowPriority | Skip {
    function Label(): string {
      match this
      case StrongApply => "STRONG APPLY"
      case Apply => "APPLY"
      case LowPriority => "LOW PRIORITY"
      case Skip => "SKIP"
    }

    /** Higher is more worth applying to. */
    function Rank(): nat {
      match this
      case StrongApply => 3
      case Apply => 2
      case LowPriority => 1
      case Skip => 0
    }
  }

  /** The label for a probability, with inclusive lower bounds 0.8, 0.6 and 0.4. */
  function GetRecommendation(probability: real): (r: Recommendation)
    ensures r.Rank() == 3 <==> probability >= 0.8
    ensures r.Rank() >= 2 <==> probability >= 0.6
    ensures r.Rank() >= 1 <==> probability >= 0.4
  {
    if probability >= 0.8 then StrongApply
    else if probability >= 0.6 then Apply
    else if probability >= 0.4 then LowPriority
    else Skip
  }

  // ------------------------------------------------------------ cardinality

  lemma {:induction false} SubsetCardinality(a: set<string>, b: set<string>)
    requires a <= b
    ensures |a| <= |b|
    decreases b
  {
    if a != {} {
      var x :| x in a;
      SubsetCardinality(a - {x}, b - {x});
    }
  }

  lemma EqualCardinalitySubset(a: set<string>, b: set<string>)
    requires a <= b && |a| == |b|
    ensures a == b
  {
    assert b == a + (b - a);
    assert |b - a| == 0;
  }

  /** Comparing a quotient with a threshold is comparing cross products. */
  lemma DivisionThreshold(c: real, n: real, t: real)
    requires n > 0.0
    ensures c / n >= t <==> c >= t * n
    ensures c / n <= t <==> c <= t * n
    ensures c / n == t <==> c == t * n
  {
    var q := c / n;
    assert q * n == c;
    assert c - t * n == (q - t) * n;
  }

  // ------------------------------------------------------------ properties

  /** The labels are totally ordered by rank: a higher probability never
      yields a lower-ranked label. */
  lemma RecommendationMonotone(p: real, q: real)
    requires p <= q
    ensures GetRecommendation(p).Rank() <= GetRecommendation(q).Rank()
  {
  }

  lemma ClampMonotone(a: real, b: real)
    requires a <= b
    ensures Clamp(a) <= Clamp(b)
  {
  }

  /** More years of experience on the resume never lower the probability. */
  lemma ExperienceNeverHurts(job: NormalizedJob, resume: NormalizedResume, years: real)
    requires years >= resume.yearsOfExperience
    ensures Probability(job, resume.(yearsOfExperience := years)) >= Probability(job, resume)
  {
    var more := resume.(yearsOfExperience := years);
    assert ExperienceAdjustment(years - job.experienceYears) >=
           ExperienceAdjustment(resume.yearsOfExperience - job.experienceYears);
    ClampMonotone(RawScore(job, resume), RawScore(job, more));
  }

  /** A larger share of required skills never gives a smaller adjustment. */
  lemma OverlapMonotone(required: set<string>, held: set<string>, more: set<string>)
    requires held <= more
    ensures OverlapRatio(required, held) <= OverlapRatio(required, more)
    ensures SkillAdjustment(OverlapRatio(required, held)) <= SkillAdjustment(OverlapRatio(required, more))
  {
    if required != {} {
      var n := |required| as real;
      SubsetCardinality(required * held, required * more);
      var a := |required * held| as real;
      var b := |required * more| as real;
      DivisionThreshold(a, n, b / n);
      DivisionThreshold(b, n, b / n);
    }
  }

  /** A resume holding a superset of the skills never scores lower. */
  lemma SkillsNeverHurt(job: NormalizedJob, resume: NormalizedResume, skills: seq<string>)
    requires SkillSet(resume.skills) <= SkillSet(skills)
    ensures Probability(job, resume.(skills := skills)) >= Probability(job, resume)
  {
    OverlapMonotone(SkillSet(job.requiredSkills), SkillSet(resume.skills), SkillSet(skills));
    ClampMonotone(RawScore(job, resume), RawScore(job, resume.(skills := skills)));
  }

  /** Skills are compared as sets: repeating or reordering the required
      skills changes nothing. */
  lemma OnlySkillSetsMatter(job: NormalizedJob, resume: NormalizedResume, required: seq<string>, held: seq<string>)
    requires SkillSet(required) == SkillSet(job.requiredSkills)
    requires SkillSet(held) == SkillSet(resume.skills)
    ensures Probability(job.(requiredSkills := required), resume.(skills := held)) == Probability(job, resume)
  {
  }

  /** The overlap bands in whole numbers: with `c` of `n` required skills
      held, +0.3 when 5c >= 4n, +0.1 when 2c >= n, -0.2 when 5c < n, and
      nothing otherwise. */
  lemma OverlapBandsByCount(required: set<string>, held: set<string>)
    requires required != {}
    ensures var c := |required * held|;
            var n := |required|;
            SkillAdjustment(OverlapRatio(required, held)) ==
              if 5 * c >= 4 * n then 0.3
              else if 2 * c >= n then 0.1
              else if 5 * c < n then -0.2
              else 0.0
  {
    var c := |required * held| as real;
    var n := |required| as real;
    var ratio := OverlapRatio(required, held);
    assert ratio == c / n;
    DivisionThreshold(c, n, 0.8);
    DivisionThreshold(c, n, 0.5);
    DivisionThreshold(c, n, 0.2);
  }

  /** A posting that says no sponsorship, scored against a resume that needs
      a visa, loses exactly 0.5 against any other status; no other term
      can make up for it beyond 0.6, so it is never a strong apply. */
  lemma KillSwitch(job: NormalizedJob, resume: NormalizedResume, other: string)
    requires job.visaSponsorship == Unlikely && resume.visaStatus == VisaRequired
    requires other != VisaRequired
    ensures RawScore(job, resume) == RawScore(job, resume.(visaStatus := other)) - 0.5
    ensures Probability(job, resume) <= 0.6
    ensures GetRecommendation(Probability(job, resume)).Rank() <= Apply.Rank()
  {
  }

  /** A posting with no required years and no parsed skills, against a
      resume with non-negative years that the kill switch does not hit,
      scores at least 1.1 before clamping, so 1.0 and a strong apply. */
  lemma EntryLevelWithoutSkills(job: NormalizedJob, resume: NormalizedResume)
    requires job.experienceYears == 0.0 && job.requiredSkills == []
    requires resume.yearsOfExperience >= 0.0
    requires !(job.visaSponsorship == Unlikely && resume.visaStatus == VisaRequired)
    ensures RawScore(job, resume) >= 1.1
    ensures Probability(job, resume) == 1.0
    ensures GetRecommendation(Probability(job, resume)) == StrongApply
  {
    assert SkillSet(job.requiredSkills) == {};
  }

  /** Four required skills of which the resume holds two, with the years
      met exactly: half coverage gives +0.1, so 0.5 + 0.2 + 0.1 = 0.8
      before the visa and entry-level terms. */
  lemma HalfOverlapScenario(job: NormalizedJob, resume: NormalizedResume)
    requires |SkillSet(job.requiredSkills)| == 4
    requires |SkillSet(job.requiredSkills) * SkillSet(resume.skills)| == 2
    requires resume.yearsOfExperience == job.experienceYears
    ensures RawScore(job, resume) ==
            0.8 + VisaAdjustment(job.visaSponsorship, resume.visaStatus) + EntryLevelBonus(job.experienceYears)
  {
    OverlapBandsByCount(SkillSet(job.requiredSkills), SkillSet(resume.skills));
  }
}
