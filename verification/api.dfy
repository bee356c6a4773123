/** The three pieces of the API layer (app/main.py) that carry logic: turning
    a stored profile into the dictionary the engine consumes, storing a posted
    profile, and ranking the active jobs for `GET /jobs/top`. */
module Api {
  import opened Wrappers
  import opened Seqs
  import opened Text
  import opened Fuzzy
  import opened Models
  import opened StableSort
  import opened Scoring

  // ---------------------------------------------------------------------------
  // _profile_to_dict

  /** The non-empty strings of `xs`, in order, each as often as it occurs. */
  function DropEmpty(xs: seq<string>): (r: seq<string>)
    ensures forall i :: 0 <= i < |r| ==> r[i] != ""
    ensures IsSubseq(r, xs)
    ensures forall x :: x != "" ==> multiset(r)[x] == multiset(xs)[x]
  {
    if |xs| == 0 then []
    else
      var rest := DropEmpty(xs[1..]);
      assert [xs[0]] + xs[1..] == xs;
      SubseqCons(xs[0], rest, xs[1..]);
      if xs[0] != "" then
        assert ([xs[0]] + rest)[1..] == rest;
        [xs[0]] + rest
      else rest
  }

  lemma {:induction false} DropEmptyOfNonEmpty(xs: seq<string>)
    requires forall i :: 0 <= i < |xs| ==> xs[i] != ""
    ensures DropEmpty(xs) == xs
  {
    if |xs| > 0 {
      DropEmptyOfNonEmpty(xs[1..]);
      assert [xs[0]] + xs[1..] == xs;
    }
  }

  /** `[clean(p) for p in pieces if clean(p)]`: the cleaned pieces in order,
      every non-empty one kept as often as it occurs and no empty one. */
  function KeepNonBlank(pieces: seq<string>, clean: string -> string): (r: seq<string>)
    ensures forall i :: 0 <= i < |r| ==> r[i] != "" && exists j :: 0 <= j < |pieces| && r[i] == clean(pieces[j])
    ensures IsSubseq(r, MapSeq(clean, pieces))
    ensures forall x :: x != "" ==> multiset(r)[x] == multiset(MapSeq(clean, pieces))[x]
  {
    var all := MapSeq(clean, pieces);
    var r := DropEmpty(all);
    SubseqMembers(r, all);
    forall i | 0 <= i < |r| ensures exists j :: 0 <= j < |pieces| && r[i] == clean(pieces[j]) {
      MapSeqMember(clean, pieces, r[i]);
    }
    r
  }

  /** Pieces that are already non-blank and clean are all kept, unchanged. */
  lemma KeepNonBlankOfClean(xs: seq<string>, clean: string -> string)
    requires forall i :: 0 <= i < |xs| ==> xs[i] != "" && clean(xs[i]) == xs[i]
    ensures KeepNonBlank(xs, clean) == xs
  {
    assert MapSeq(clean, xs) == xs;
    DropEmptyOfNonEmpty(xs);
  }

  /** `[p.strip() for p in pieces if p.strip()]` */
  function CleanPieces(pieces: seq<string>): (r: seq<string>)
    ensures forall i :: 0 <= i < |r| ==> r[i] != "" && exists j :: 0 <= j < |pieces| && r[i] == Strip(pieces[j])
    ensures IsSubseq(r, MapSeq(Strip, pieces))
    ensures forall x :: x != "" ==> multiset(r)[x] == multiset(MapSeq(Strip, pieces))[x]
  {
    KeepNonBlank(pieces, Strip)
  }

  /** `[p.strip() for p in (text or "").split(sep) if p.strip()]`: the
      non-blank pieces, stripped, none containing the separator; every
      non-blank stripped piece is kept, in order and as often as it occurs. */
  function SplitClean(text: Option<string>, sep: char): (r: seq<string>)
    ensures forall i :: 0 <= i < |r| ==> r[i] != "" && Trimmed(r[i]) && sep !in r[i]
    ensures IsSubseq(r, MapSeq(Strip, Split(OrEmpty(text), sep)))
    ensures forall x :: x != "" ==> multiset(r)[x] == multiset(MapSeq(Strip, Split(OrEmpty(text), sep)))[x]
  {
    var pieces := Split(OrEmpty(text), sep);
    var r := CleanPieces(pieces);
    forall i | 0 <= i < |r| ensures Trimmed(r[i]) && sep !in r[i] {
      var j :| 0 <= j < |pieces| && r[i] == Strip(pieces[j]);
      if sep in r[i] {
        StripMembers(pieces[j], sep);
      }
    }
    r
  }

  /** `_profile_to_dict(p)` */
  function ProfileToDict(p: ProfileRecord): (d: ProfileDict)
    ensures d.id == p.id && d.fullName == p.fullName && d.email == p.email
    ensures d.phone == p.phone && d.location == p.location
    ensures d.linkedin == p.linkedin && d.summary == p.summary
    ensures forall i :: 0 <= i < |d.skills| ==> d.skills[i] != "" && Trimmed(d.skills[i]) && ',' !in d.skills[i]
    ensures forall i :: 0 <= i < |d.truthBullets| ==>
      d.truthBullets[i] != "" && Trimmed(d.truthBullets[i]) && '\n' !in d.truthBullets[i]
    ensures IsSubseq(d.skills, MapSeq(Strip, Split(OrEmpty(p.skillsCsv), ',')))
    ensures forall x :: x != "" ==> multiset(d.skills)[x] == multiset(MapSeq(Strip, Split(OrEmpty(p.skillsCsv), ',')))[x]
    ensures IsSubseq(d.truthBullets, MapSeq(Strip, Split(OrEmpty(p.truthBullets), '\n')))
    ensures forall x :: x != "" ==>
      multiset(d.truthBullets)[x] == multiset(MapSeq(Strip, Split(OrEmpty(p.truthBullets), '\n')))[x]
    ensures p.resumeText == None ==> d.resumeText == ""
    ensures p.resumeText.Some? ==> d.resumeText == p.resumeText.value
  {
    ProfileDict(p.id, p.fullName, p.email, p.phone, p.location, p.linkedin, p.summary,
      SplitClean(p.skillsCsv, ','), SplitClean(p.truthBullets, '\n'), OrEmpty(p.resumeText))
  }

  /** A profile stored without skills or bullets reads back with empty
      lists. */
  lemma MissingListsReadEmpty(p: ProfileRecord)
    requires p.skillsCsv == None && p.truthBullets == None
    ensures ProfileToDict(p).skills == [] && ProfileToDict(p).truthBullets == []
  {
    assert Split("", ',') == [""];
    assert Split("", '\n') == [""];
    assert Strip("") == "";
  }

  // ---------------------------------------------------------------------------
  // create_or_update_profile

  /** The stored record after `POST /profile`: the existing row is updated in
      place, keeping its id and resume text; otherwise a new row with id
      `newId` (chosen by the database) and no resume text is created. Skills
      are joined with "," and bullets with "\n". */
  function SaveProfile(existing: Option<ProfileRecord>, payload: ProfileIn, newId: int): (r: ProfileRecord)
    ensures existing.Some? ==> r.id == existing.value.id && r.resumeText == existing.value.resumeText
    ensures existing.None? ==> r.id == newId && r.resumeText == None
    ensures r.fullName == payload.fullName && r.email == payload.email && r.phone == payload.phone
    ensures r.location == payload.location && r.linkedin == payload.linkedin && r.summary == payload.summary
    ensures r.skillsCsv == Some(Join(payload.skills, ','))
    ensures r.truthBullets == Some(Join(payload.truthBullets, '\n'))
  {
    var skills := Some(Join(payload.skills, ','));
    var bullets := Some(Join(payload.truthBullets, '\n'));
    match existing
    case Some(e) =>
      e.(fullName := payload.fullName, email := payload.email, phone := payload.phone,
         location := payload.location, linkedin := payload.linkedin, summary := payload.summary,
         skillsCsv := skills, truthBullets := bullets)
    case None =>
      ProfileRecord(newId, payload.fullName, payload.email, payload.phone, payload.location,
        payload.linkedin, payload.summary, skills, bullets, None)
  }

  /** The items `_profile_to_dict` can produce: non-empty, stripped, without
      the separator. */
  ghost predicate CleanItems(xs: seq<string>, sep: char)
  {
    forall i :: 0 <= i < |xs| ==> xs[i] != "" && Trimmed(xs[i]) && sep !in xs[i]
  }

  lemma CleanPiecesOfClean(xs: seq<string>, sep: char)
    requires CleanItems(xs, sep)
    ensures CleanPieces(xs) == xs
  {
    forall i | 0 <= i < |xs| ensures Strip(xs[i]) == xs[i] {
      StripOfTrimmed(xs[i]);
    }
    KeepNonBlankOfClean(xs, Strip);
  }

  /** Joining clean items and splitting them again is the identity. */
  lemma JoinThenSplitClean(xs: seq<string>, sep: char)
    requires CleanItems(xs, sep)
    ensures SplitClean(Some(Join(xs, sep)), sep) == xs
  {
    if |xs| == 0 {
      assert Split("", sep) == [""];
      assert Strip("") == "";
      assert KeepNonBlank([""], Strip) == [] + KeepNonBlank([], Strip);
    } else {
      SplitJoin(xs, sep);
      CleanPiecesOfClean(xs, sep);
    }
  }

  /** Saving a profile and reading it back returns the posted skills and
      bullets, when each is non-empty, stripped and free of its separator. */
  lemma SaveThenReadRoundTrip(existing: Option<ProfileRecord>, payload: ProfileIn, newId: int)
    requires CleanItems(payload.skills, ',') && CleanItems(payload.truthBullets, '\n')
    ensures ProfileToDict(SaveProfile(existing, payload, newId)).skills == payload.skills
    ensures ProfileToDict(SaveProfile(existing, payload, newId)).truthBullets == payload.truthBullets
    ensures ProfileToDict(SaveProfile(existing, payload, newId)).fullName == payload.fullName
    ensures ProfileToDict(SaveProfile(existing, payload, newId)).summary == payload.summary
  {
    JoinThenSplitClean(payload.skills, ',');
    JoinThenSplitClean(payload.truthBullets, '\n');
  }

  /** Reading a stored profile, saving it back and reading it again changes
      nothing: what `_profile_to_dict` produces is always clean. */
  lemma ReadSaveReadStable(p: ProfileRecord, payload: ProfileIn)
    requires payload.skills == ProfileToDict(p).skills
    requires payload.truthBullets == ProfileToDict(p).truthBullets
    ensures ProfileToDict(SaveProfile(Some(p), payload, p.id)).skills == ProfileToDict(p).skills
    ensures ProfileToDict(SaveProfile(Some(p), payload, p.id)).truthBullets == ProfileToDict(p).truthBullets
  {
    SaveThenReadRoundTrip(Some(p), payload, p.id);
  }

  // ---------------------------------------------------------------------------
  // top_jobs

  datatype ApiError = NoProfile

  /** `(s, job)` */
  datatype ScoredJob = ScoredJob(score: real, job: Job)

  function ScoreOfPair(p: ScoredJob): real { p.score }

  function JobOfPair(p: ScoredJob): Job { p.job }

  /** `.filter(models.Job.is_active == True)` */
  function ActiveJobs(jobs: seq<Job>): (r: seq<Job>)
    ensures IsSubseq(r, jobs)
    ensures forall j :: j in r <==> j in jobs && j.isActive
  {
    if |jobs| == 0 then []
    else
      var rest := ActiveJobs(jobs[1..]);
      SubseqCons(jobs[0], rest, jobs[1..]);
      assert [jobs[0]] + jobs[1..] == jobs;
      if jobs[0].isActive then
        assert ([jobs[0]] + rest)[1..] == rest;
        [jobs[0]] + rest
      else rest
  }

  /** Pairs every job with its fit. */
  function ScoreAll(jobs: seq<Job>, fit: Job -> real): (r: seq<ScoredJob>)
    ensures |r| == |jobs|
    ensures forall i :: 0 <= i < |r| ==> r[i] == ScoredJob(fit(jobs[i]), jobs[i])
  {
    seq(|jobs|, i requires 0 <= i < |jobs| => ScoredJob(fit(jobs[i]), jobs[i]))
  }

  /** The sort-and-take of `top_jobs` for a given fit: the best `limit` jobs
      by non-increasing fit, ties in input order (Python slice semantics for
      `limit`). */
  function TakeBest(jobs: seq<Job>, fit: Job -> real, limit: int): (r: seq<Job>)
    ensures limit >= 0 ==> |r| == Min(limit, |jobs|)
    ensures limit < 0 ==> |r| == Max(|jobs| + limit, 0)
    ensures SortedDesc(r, fit)
    ensures multiset(r) <= multiset(jobs)
    ensures KeepsBest(r, jobs, fit)
    ensures TiesFirst(r, jobs, fit)
  {
    var scored := ScoreAll(jobs, fit);
    var sorted := Sort(scored, ScoreOfPair);
    var top := PyPrefix(sorted, limit);
    PairsSortLikeJobs(jobs, fit);
    MapSeqPrefix(JobOfPair, sorted, |top|);
    SortedPrefixBest(Sort(jobs, fit), jobs, fit, |top|);
    PrefixSubMultiset(Sort(jobs, fit), |top|);
    MapSeq(JobOfPair, top)
  }

  /** Sorting the `(score, job)` pairs by score lists the jobs exactly as
      sorting the jobs by fit does. */
  lemma PairsSortLikeJobs(jobs: seq<Job>, fit: Job -> real)
    ensures MapSeq(JobOfPair, Sort(ScoreAll(jobs, fit), ScoreOfPair)) == Sort(jobs, fit)
  {
    var scored := ScoreAll(jobs, fit);
    var sorted := Sort(scored, ScoreOfPair);
    var m := MapSeq(JobOfPair, sorted);
    assert MapSeq(JobOfPair, scored) == jobs;
    PairsKeepFit(scored, sorted, fit);
    JobsOfSortedPairs(sorted, fit);
    forall v ensures WithKey(m, fit, v) == WithKey(jobs, fit, v) {
      WithKeyMap(sorted, JobOfPair, ScoreOfPair, fit, v);
      WithKeyMap(scored, JobOfPair, ScoreOfPair, fit, v);
    }
    AnyStableSortAgrees(jobs, m, fit);
  }

  /** Pairs sorted by score, each scored by its job's fit, list their jobs by
      non-increasing fit. */
  lemma JobsOfSortedPairs(top: seq<ScoredJob>, fit: Job -> real)
    requires SortedDesc(top, ScoreOfPair)
    requires forall i :: 0 <= i < |top| ==> top[i].score == fit(top[i].job)
    ensures SortedDesc(MapSeq(JobOfPair, top), fit)
  {
    var r := MapSeq(JobOfPair, top);
    forall i, j | 0 <= i < j < |r| ensures fit(r[i]) >= fit(r[j]) {
      assert ScoreOfPair(top[i]) >= ScoreOfPair(top[j]);
    }
  }

  /** Reordering scored pairs keeps every pair's score equal to its job's fit. */
  lemma PairsKeepFit(scored: seq<ScoredJob>, sorted: seq<ScoredJob>, fit: Job -> real)
    requires forall i :: 0 <= i < |scored| ==> scored[i].score == fit(scored[i].job)
    requires multiset(sorted) == multiset(scored)
    ensures forall i :: 0 <= i < |sorted| ==> sorted[i].score == fit(sorted[i].job)
  {
    forall i | 0 <= i < |sorted| ensures sorted[i].score == fit(sorted[i].job) {
      assert sorted[i] in multiset(sorted);
      assert sorted[i] in scored;
    }
  }

  /** The best `limit` active jobs by `fit`. */
  function TopActive(jobs: seq<Job>, fit: Job -> real, limit: int): (r: seq<Job>)
    ensures limit >= 0 ==> |r| == Min(limit, |ActiveJobs(jobs)|)
    ensures limit < 0 ==> |r| == Max(|ActiveJobs(jobs)| + limit, 0)
    ensures forall i :: 0 <= i < |r| ==> r[i] in jobs && r[i].isActive
    ensures SortedDesc(r, fit)
    ensures multiset(r) <= multiset(ActiveJobs(jobs))
    ensures KeepsBest(r, ActiveJobs(jobs), fit)
    ensures TiesFirst(r, ActiveJobs(jobs), fit)
  {
    var top := TakeBest(ActiveJobs(jobs), fit, limit);
    ActiveMembers(jobs, top);
    top
  }

  /** Whatever is drawn from the active jobs is an active job. */
  lemma ActiveMembers(jobs: seq<Job>, top: seq<Job>)
    requires multiset(top) <= multiset(ActiveJobs(jobs))
    ensures forall i :: 0 <= i < |top| ==> top[i] in jobs && top[i].isActive
  {
    forall i | 0 <= i < |top| ensures top[i] in jobs && top[i].isActive {
      assert top[i] in multiset(top);
    }
  }

  /** The key `top_jobs` sorts by: `score_job` of the profile dictionary
      against the job's description (`None` read as ""), passed through
      `round2`, which stands for `round(total, 2)`. */
  function JobFit(prof: ProfileDict, sim: Similarity, round2: real -> real): Job -> real
  {
    (job: Job) => round2(ScoreJob(prof.skills, prof.truthBullets, OrEmpty(job.description), sim).score)
  }

  /** `top_jobs(limit)`: fails without a profile; otherwise the best `limit`
      active jobs by rounded fit, ties in query order. */
  function TopJobs(profile: Option<ProfileRecord>, jobs: seq<Job>, limit: int, sim: Similarity, round2: real -> real): (r: Result<seq<Job>, ApiError>)
    ensures r.Err? <==> profile.None?
    ensures r.Ok? && limit >= 0 ==> |r.value| == Min(limit, |ActiveJobs(jobs)|)
    ensures r.Ok? && limit < 0 ==> |r.value| == Max(|ActiveJobs(jobs)| + limit, 0)
    ensures r.Ok? ==> forall i :: 0 <= i < |r.value| ==> r.value[i] in jobs && r.value[i].isActive
    ensures r.Ok? ==> SortedDesc(r.value, JobFit(ProfileToDict(profile.value), sim, round2))
    ensures r.Ok? ==> multiset(r.value) <= multiset(ActiveJobs(jobs))
    ensures r.Ok? ==> KeepsBest(r.value, ActiveJobs(jobs), JobFit(ProfileToDict(profile.value), sim, round2))
    ensures r.Ok? ==> TiesFirst(r.value, ActiveJobs(jobs), JobFit(ProfileToDict(profile.value), sim, round2))
  {
    match profile
    case None => Err(NoProfile)
    case Some(p) => Ok(TopActive(jobs, JobFit(ProfileToDict(p), sim, round2), limit))
  }

  /** When every job fits equally well, the sort-and-take returns the first
      `limit` jobs in their given order. */
  lemma EqualFitKeepsOrder(jobs: seq<Job>, fit: Job -> real, limit: int)
    requires limit >= 0
    requires forall i, j :: 0 <= i < |jobs| && 0 <= j < |jobs| ==> fit(jobs[i]) == fit(jobs[j])
    ensures TakeBest(jobs, fit, limit) == jobs[..Min(limit, |jobs|)]
  {
    SortOfSorted(jobs, fit);
    PairsSortLikeJobs(jobs, fit);
    MapSeqPrefix(JobOfPair, Sort(ScoreAll(jobs, fit), ScoreOfPair), Min(limit, |jobs|));
  }
}
