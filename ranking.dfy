/** `match_resume_to_jobs`: score every job against one candidate profile,
    sort the results by final score (highest first, ties in input order) and
    number them from 1. */
module Ranking {
  import opened Wrappers
  import opened Numeric
  import opened Seqs
  import opened Matcher
  import opened Sorting

  /** The résumé profile; a `None` field is a key the dictionary lacks. */
  datatype Profile = Profile(
    extractedSkills: Option<seq<string>>,
    parsedRole: Option<string>,
    experienceYears: Option<int>)

  /** A row of the jobs table; a `None` field is a key the dictionary lacks. */
  datatype Job = Job(
    id: Option<int>,
    company: Option<string>,
    jobTitle: Option<string>,
    jobFunction: Option<string>,
    vacancies: Option<string>,
    qualification: Option<string>,
    experience: Option<string>)

  /** One entry of the ranked output. The three factor scores are
      percentages with two decimals, like the final score. */
  datatype MatchResult = MatchResult(
    jobId: int,
    company: string,
    jobTitle: string,
    jobFunction: string,
    vacancies: string,
    qualification: string,
    experienceRequired: string,
    finalScore: real,
    skillScore: real,
    roleScore: real,
    experienceScore: real,
    matchLabel: string,
    matchedSkills: seq<string>,
    missingSkills: seq<string>,
    rank: nat)

  /** The `KeyError` raised by indexing a job that lacks a required key. */
  datatype JobError = MissingKey(key: string)

  /** The error the job raises, if any: `id` is read first, then `company`,
      then `job_title`; every other key has a default. */
  function RequiredKeyError(job: Job): (e: Option<JobError>)
    ensures e.None? <==> job.id.Some? && job.company.Some? && job.jobTitle.Some?
  {
    if job.id.None? then Some(MissingKey("id"))
    else if job.company.None? then Some(MissingKey("company"))
    else if job.jobTitle.None? then Some(MissingKey("job_title"))
    else None
  }

  predicate AllWellFormed(jobs: seq<Job>) {
    forall i :: 0 <= i < |jobs| ==> RequiredKeyError(jobs[i]).None?
  }

  /** The error of the first job, in input order, that raises one. */
  function FirstKeyError(jobs: seq<Job>): (e: Option<JobError>)
    ensures e.None? <==> AllWellFormed(jobs)
    ensures e.Some? ==>
      exists i ::
        && 0 <= i < |jobs|
        && e == RequiredKeyError(jobs[i])
        && forall k :: 0 <= k < i ==> RequiredKeyError(jobs[k]).None?
  {
    if jobs == [] then None
    else if RequiredKeyError(jobs[0]).Some? then RequiredKeyError(jobs[0])
    else
      var e := FirstKeyError(jobs[1..]);
      if e.Some? then
        var i :| 0 <= i < |jobs[1..]| && e == RequiredKeyError(jobs[1..][i])
          && forall k :: 0 <= k < i ==> RequiredKeyError(jobs[1..][k]).None?;
        assert e == RequiredKeyError(jobs[i + 1]);
        assert forall k :: 0 <= k < i + 1 ==> RequiredKeyError(jobs[k]).None? by {
          forall k | 0 <= k < i + 1 ensures RequiredKeyError(jobs[k]).None? {
            if k > 0 { assert jobs[k] == jobs[1..][k - 1]; }
          }
        }
        e
      else
        assert AllWellFormed(jobs) by {
          forall k | 0 <= k < |jobs| ensures RequiredKeyError(jobs[k]).None? {
            if k > 0 { assert jobs[k] == jobs[1..][k - 1]; }
          }
        }
        e
  }

  /** `round(x * 100, 2)`: a factor score as a percentage with two decimals. */
  function Percent(x: real): (p: real)
    requires 0.0 <= x <= 1.0
    ensures 0.0 <= p <= 100.0 && IsHundredths(p)
    ensures p - 100.0 * x <= 0.005 && 100.0 * x - p <= 0.005
  {
    Round2Between(x * 100.0, 0.0, 100.0);
    Round2IsHundredths(x * 100.0);
    Round2(x * 100.0)
  }

  /** The result record for one job, with rank 0 until the ranks are set.
      The final score combines the unrounded factors; the three factor
      fields are those factors as percentages. */
  function ScoreJob(profile: Profile, job: Job): (r: MatchResult)
    requires RequiredKeyError(job).None?
    ensures r.rank == 0
    ensures 0.0 <= r.finalScore <= 100.0 && IsHundredths(r.finalScore)
    ensures 0.0 <= r.skillScore <= 100.0 && 0.0 <= r.roleScore <= 100.0 && 0.0 <= r.experienceScore <= 100.0
    ensures r.matchLabel == MatchLabel(r.finalScore)
    ensures r.jobId == job.id.value && r.company == job.company.value && r.jobTitle == job.jobTitle.value
    ensures var skills := profile.extractedSkills.GetOr([]);
      var jobFunction := job.jobFunction.GetOr("");
      var s := SkillScore(skills, jobFunction);
      var ro := RoleScore(profile.parsedRole, job.jobTitle.value);
      var e := ExperienceScore(profile.experienceYears, job.experience.GetOr(""));
      && r.finalScore == FinalScore(s, ro, e)
      && r.skillScore == Percent(s) && r.roleScore == Percent(ro) && r.experienceScore == Percent(e)
      && r.matchedSkills == MatchedSkills(skills, jobFunction)
      && r.missingSkills == MissingSkills(skills, jobFunction)
    ensures && r.jobFunction == job.jobFunction.GetOr("") && r.vacancies == job.vacancies.GetOr("")
      && r.qualification == job.qualification.GetOr("") && r.experienceRequired == job.experience.GetOr("")
  {
    var skills := profile.extractedSkills.GetOr([]);
    var jobFunction := job.jobFunction.GetOr("");
    var s := SkillScore(skills, jobFunction);
    var ro := RoleScore(profile.parsedRole, job.jobTitle.value);
    var e := ExperienceScore(profile.experienceYears, job.experience.GetOr(""));
    var final := FinalScore(s, ro, e);
    FinalScore_Bounds(s, ro, e);
    MatchResult(
      job.id.value, job.company.value, job.jobTitle.value, jobFunction,
      job.vacancies.GetOr(""), job.qualification.GetOr(""), job.experience.GetOr(""),
      final, Percent(s), Percent(ro), Percent(e),
      MatchLabel(final),
      MatchedSkills(skills, jobFunction), MissingSkills(skills, jobFunction),
      0)
  }

  /** The qualification is carried into the result and nowhere else: a job
      that differs only in its qualification gets the same scores. */
  lemma ScoreJob_QualificationIgnored(profile: Profile, job: Job, q: Option<string>)
    requires RequiredKeyError(job).None?
    ensures ScoreJob(profile, job.(qualification := q))
      == ScoreJob(profile, job).(qualification := q.GetOr(""))
  {
  }

  /** The results of the scoring loop, in input order. */
  function ScoreAll(profile: Profile, jobs: seq<Job>): (rs: seq<MatchResult>)
    requires AllWellFormed(jobs)
    ensures |rs| == |jobs|
  {
    if jobs == [] then []
    else ScoreAll(profile, jobs[..|jobs| - 1]) + [ScoreJob(profile, jobs[|jobs| - 1])]
  }

  lemma {:induction false} ScoreAll_Unranked(profile: Profile, jobs: seq<Job>)
    requires AllWellFormed(jobs)
    ensures forall r :: r in ScoreAll(profile, jobs) ==> r.rank == 0
  {
    if jobs != [] {
      ScoreAll_Unranked(profile, jobs[..|jobs| - 1]);
    }
  }

  lemma {:induction false} ScoreAll_At(profile: Profile, jobs: seq<Job>, i: nat)
    requires AllWellFormed(jobs) && i < |jobs|
    ensures ScoreAll(profile, jobs)[i] == ScoreJob(profile, jobs[i])
  {
    if i < |jobs| - 1 {
      ScoreAll_At(profile, jobs[..|jobs| - 1], i);
    }
  }

  // ---------------------------------------------------------------------------
  // `results.sort(key=lambda x: x["final_score"], reverse=True)`
  // ---------------------------------------------------------------------------

  /** The sort key. */
  function FinalScoreOf(r: MatchResult): real { r.finalScore }

  // ---------------------------------------------------------------------------
  // Ranks and the whole batch
  // ---------------------------------------------------------------------------

  /** `result["rank"] = index + 1` for every position. */
  function AssignRanks(rs: seq<MatchResult>): (out: seq<MatchResult>)
    ensures |out| == |rs|
    ensures forall i :: 0 <= i < |rs| ==> out[i].rank == i + 1
  {
    seq(|rs|, i requires 0 <= i < |rs| => rs[i].(rank := i + 1))
  }

  /** A result with its rank reset, for comparing ranked and unranked lists. */
  function Unranked(rs: seq<MatchResult>): seq<MatchResult> {
    seq(|rs|, i requires 0 <= i < |rs| => rs[i].(rank := 0))
  }

  /** The outcome of the scoring loop: the first missing required key as
      an error, or one result per job in input order. */
  function ScoreBatch(profile: Profile, jobs: seq<Job>): Result<seq<MatchResult>, JobError> {
    match FirstKeyError(jobs)
    case Some(e) => Failure(e)
    case None => Success(ScoreAll(profile, jobs))
  }

  /** The outcome of `match_resume_to_jobs`: the scoring loop's error, or its
      results sorted and ranked. */
  function MatchAll(profile: Profile, jobs: seq<Job>): Result<seq<MatchResult>, JobError> {
    match ScoreBatch(profile, jobs)
    case Failure(e) => Failure(e)
    case Success(rs) => Success(AssignRanks(SortDescending(rs, FinalScoreOf)))
  }

  /** `match_resume_to_jobs`: the scoring loop, the sort, the ranking loop. */
  method MatchResumeToJobs(profile: Profile, jobs: seq<Job>) returns (out: Result<seq<MatchResult>, JobError>)
    ensures out == MatchAll(profile, jobs)
  {
    var scored := ScoreJobs(profile, jobs);
    if scored.Failure? {
      return Failure(scored.error);
    }
    var results := SortDescending(scored.value, FinalScoreOf);
    results := SetRanks(results);
    return Success(results);
  }

  /** The ranking loop: `result["rank"] = i + 1` for each position `i`. */
  method SetRanks(sorted: seq<MatchResult>) returns (results: seq<MatchResult>)
    ensures results == AssignRanks(sorted)
  {
    results := sorted;
    var k := 0;
    while k < |results|
      invariant 0 <= k <= |results| == |sorted|
      invariant forall j :: 0 <= j < k ==> results[j] == sorted[j].(rank := j + 1)
      invariant forall j :: k <= j < |results| ==> results[j] == sorted[j]
    {
      results := results[k := results[k].(rank := k + 1)];
      k := k + 1;
    }
  }

  /** The loop over the jobs: reads the required keys of each job in turn
      and stops at the first one missing. */
  method ScoreJobs(profile: Profile, jobs: seq<Job>) returns (out: Result<seq<MatchResult>, JobError>)
    ensures out == ScoreBatch(profile, jobs)
  {
    var results: seq<MatchResult> := [];
    var i := 0;
    while i < |jobs|
      invariant 0 <= i <= |jobs|
      invariant AllWellFormed(jobs[..i])
      invariant results == ScoreAll(profile, jobs[..i])
    {
      var job := jobs[i];
      var err := RequiredKeyError(job);
      if err.Some? {
        FirstKeyErrorAt(jobs, i);
        return Failure(err.value);
      }
      WellFormedExtend(jobs, i);
      ScoreAllExtend(profile, jobs, i);
      results := results + [ScoreJob(profile, job)];
      i := i + 1;
    }
    assert jobs[..i] == jobs;
    return Success(results);
  }

  lemma WellFormedExtend(jobs: seq<Job>, i: nat)
    requires i < |jobs| && AllWellFormed(jobs[..i]) && RequiredKeyError(jobs[i]).None?
    ensures AllWellFormed(jobs[..i + 1]) && jobs[..i + 1][..i] == jobs[..i]
  {
    assert forall k :: 0 <= k < i ==> jobs[..i + 1][k] == jobs[..i][k];
  }

  lemma ScoreAllExtend(profile: Profile, jobs: seq<Job>, i: nat)
    requires i < |jobs| && AllWellFormed(jobs[..i + 1]) && jobs[..i + 1][..i] == jobs[..i]
    ensures AllWellFormed(jobs[..i])
    ensures ScoreAll(profile, jobs[..i + 1]) == ScoreAll(profile, jobs[..i]) + [ScoreJob(profile, jobs[i])]
  {
    assert forall k :: 0 <= k < i ==> jobs[..i][k] == jobs[..i + 1][k];
    assert jobs[..i + 1][i] == jobs[i];
  }

  lemma FirstKeyErrorAt(jobs: seq<Job>, i: nat)
    requires i < |jobs| && RequiredKeyError(jobs[i]).Some?
    requires AllWellFormed(jobs[..i])
    ensures FirstKeyError(jobs) == RequiredKeyError(jobs[i])
  {
    forall k | 0 <= k < i ensures RequiredKeyError(jobs[k]).None? {
      assert jobs[..i][k] == jobs[k];
    }
    assert !AllWellFormed(jobs);
    var e := FirstKeyError(jobs);
    var w :| 0 <= w < |jobs| && e == RequiredKeyError(jobs[w])
      && forall k :: 0 <= k < w ==> RequiredKeyError(jobs[k]).None?;
    assert w == i;
  }

  /** A batch fails exactly when some job lacks a required key; otherwise
      there is one ranked result per job, numbered 1, 2, ... in order. */
  lemma MatchAll_Shape(profile: Profile, jobs: seq<Job>)
    ensures MatchAll(profile, jobs).Failure? <==> exists i :: 0 <= i < |jobs| && RequiredKeyError(jobs[i]).Some?
    ensures MatchAll(profile, jobs).Success? ==>
      var rs := MatchAll(profile, jobs).value;
      && |rs| == |jobs|
      && (forall i :: 0 <= i < |rs| ==> rs[i].rank == i + 1)
  {
  }

  lemma UnrankedRanks(rs: seq<MatchResult>)
    requires forall r :: r in rs ==> r.rank == 0
    ensures Unranked(AssignRanks(rs)) == rs
  {
    forall i | 0 <= i < |rs| ensures Unranked(AssignRanks(rs))[i] == rs[i] {
      assert rs[i] in rs;
    }
  }

  /** The ranked list is the scored list reordered: sorted by final score,
      nothing added or lost, and equal scores in input order. */
  lemma MatchAll_Ranked(profile: Profile, jobs: seq<Job>, v: real)
    requires AllWellFormed(jobs)
    ensures var rs := MatchAll(profile, jobs).value;
      && Descending(rs, FinalScoreOf)
      && multiset(Unranked(rs)) == multiset(ScoreAll(profile, jobs))
      && WithKey(Unranked(rs), FinalScoreOf, v) == WithKey(ScoreAll(profile, jobs), FinalScoreOf, v)
  {
    var scored := ScoreAll(profile, jobs);
    var sorted := SortDescending(scored, FinalScoreOf);
    SortDescending_Spec(scored, FinalScoreOf, v);
    SortedUnranked(profile, jobs);
    UnrankedRanks(sorted);
    RanksKeepOrder(sorted);
  }

  lemma SortedUnranked(profile: Profile, jobs: seq<Job>)
    requires AllWellFormed(jobs)
    ensures forall r :: r in SortDescending(ScoreAll(profile, jobs), FinalScoreOf) ==> r.rank == 0
  {
    var scored := ScoreAll(profile, jobs);
    ScoreAll_Unranked(profile, jobs);
    forall r | r in SortDescending(scored, FinalScoreOf) ensures r.rank == 0 {
      assert r in multiset(SortDescending(scored, FinalScoreOf));
    }
  }

  /** Setting ranks leaves the scores, and so their order, untouched. */
  lemma RanksKeepOrder(rs: seq<MatchResult>)
    requires Descending(rs, FinalScoreOf)
    ensures Descending(AssignRanks(rs), FinalScoreOf)
  {
    var out := AssignRanks(rs);
    forall i, j | 0 <= i < j < |out| ensures FinalScoreOf(out[i]) >= FinalScoreOf(out[j]) {
      assert FinalScoreOf(out[i]) == FinalScoreOf(rs[i]);
      assert FinalScoreOf(out[j]) == FinalScoreOf(rs[j]);
    }
  }

  /** The batch error is the one the first faulty job raises, so a missing
      `id` is reported as such whatever the later jobs hold. */
  lemma MatchAll_FirstError(profile: Profile, jobs: seq<Job>, i: nat)
    requires i < |jobs| && RequiredKeyError(jobs[i]).Some?
    requires forall j :: 0 <= j < i ==> RequiredKeyError(jobs[j]).None?
    ensures MatchAll(profile, jobs) == Failure(RequiredKeyError(jobs[i]).value)
  {
    FirstKeyErrorAt(jobs, i);
  }
}
