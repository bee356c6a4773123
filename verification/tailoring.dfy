/** The tailored resume content (app/tailoring.py): the profile's identity
    fields, up to ten truth-locked highlights, and the description's keywords
    split by the profile's skills. */
module Tailoring {
  import opened Wrappers
  import opened Seqs
  import opened Text
  import opened Utils
  import opened Fuzzy
  import opened Models
  import opened Rewriter
  import opened Scoring

  /** `max_bullets=10` */
  const MaxHighlights: nat := 10

  /** The dictionary `build_tailored_resume_content` returns. */
  datatype TailoredContent = TailoredContent(
    fullName: string,
    email: string,
    phone: Option<string>,
    location: Option<string>,
    linkedin: Option<string>,
    summary: Option<string>,
    skills: seq<string>,
    tailoredHighlights: seq<string>,
    jobTitle: string,
    company: string,
    matchedKeywords: seq<string>,
    missingKeywords: seq<string>)

  /** `prof_skills = [s.lower() for s in skills]`, as a set: the comprehension
      only tests membership in it. Unlike the scorer, no stripping: entries
      have no capitals, and a skill without capitals is an entry as it is,
      spaces and all. */
  function LoweredSkills(skills: seq<string>): (r: set<string>)
    ensures forall k :: k in r ==> NoCapitals(k)
    ensures forall i :: 0 <= i < |skills| && NoCapitals(skills[i]) ==> skills[i] in r
  {
    var r := set i | 0 <= i < |skills| :: Lower(skills[i]);
    forall i | 0 <= i < |skills| && NoCapitals(skills[i]) ensures skills[i] in r {
      LowerOfNoCapitals(skills[i]);
    }
    r
  }

  /** The two keyword comprehensions of `build_tailored_resume_content`:
      `keywords` split in order by whether a lower-cased skill equals them. */
  function SplitBySkills(keywords: seq<string>, skills: seq<string>): (r: (seq<string>, seq<string>))
    ensures SplitsInOrder(keywords, r.0, r.1, LoweredSkills(skills))
    ensures forall k :: k in r.0 <==> k in keywords && exists i :: 0 <= i < |skills| && Lower(skills[i]) == k
  {
    var prof := LoweredSkills(skills);
    KeepDropSplit(keywords, prof);
    var r := (Keep(keywords, prof), Drop(keywords, prof));
    SubseqMembers(r.0, keywords);
    r
  }

  /** `build_tailored_resume_content(profile, job)`. */
  function BuildTailoredResumeContent(profile: ProfileDict, job: Job, sim: Similarity): (r: TailoredContent)
    ensures r.fullName == profile.fullName && r.email == profile.email
    ensures r.phone == profile.phone && r.location == profile.location
    ensures r.linkedin == profile.linkedin && r.summary == profile.summary
    ensures r.skills == profile.skills
    ensures r.jobTitle == job.title && r.company == job.company
    ensures |r.tailoredHighlights| == Min(MaxHighlights, |profile.truthBullets|)
    ensures forall k :: 0 <= k < |r.tailoredHighlights| ==>
      exists i :: 0 <= i < |profile.truthBullets| && r.tailoredHighlights[k] == NormalizeText(profile.truthBullets[i])
    ensures multiset(r.tailoredHighlights) <= multiset(MapSeq(NormalizeText, profile.truthBullets))
    ensures r.tailoredHighlights
      == MapSeq(TextOf, PyPrefix(RankTruthBullets(profile.truthBullets, OrEmpty(job.description), sim), MaxHighlights))
    ensures SplitsInOrder(ExtractKeywords(OrEmpty(job.description)), r.matchedKeywords, r.missingKeywords,
      LoweredSkills(profile.skills))
    ensures (r.matchedKeywords, r.missingKeywords)
      == SplitBySkills(ExtractKeywords(OrEmpty(job.description)), profile.skills)
  {
    var jdText := OrEmpty(job.description);
    var highlights := BuildHighlights(profile.truthBullets, jdText, MaxHighlights, sim);
    HighlightsAreTruthLocked(profile.truthBullets, jdText, MaxHighlights, sim);
    var split := SplitBySkills(ExtractKeywords(jdText), profile.skills);
    TailoredContent(
      profile.fullName, profile.email, profile.phone, profile.location, profile.linkedin, profile.summary,
      profile.skills, highlights, job.title, job.company, split.0, split.1)
  }

  /** The matched keywords are exactly the vocabulary terms found in the
      raw, lower-cased description that equal some lower-cased skill. */
  lemma TailoredMatchedKeywords(profile: ProfileDict, job: Job, sim: Similarity)
    ensures forall k :: k in BuildTailoredResumeContent(profile, job, sim).matchedKeywords <==>
      k in Vocabulary && Contains(Lower(OrEmpty(job.description)), k)
      && exists i :: 0 <= i < |profile.skills| && Lower(profile.skills[i]) == k
  {
    var r := BuildTailoredResumeContent(profile, job, sim);
    var split := SplitBySkills(ExtractKeywords(OrEmpty(job.description)), profile.skills);
    assert r.matchedKeywords == split.0;
  }

  /** A job without a description has no keywords, matched or missing. */
  lemma NoDescriptionNoKeywords(profile: ProfileDict, job: Job, sim: Similarity)
    requires job.description == None
    ensures BuildTailoredResumeContent(profile, job, sim).matchedKeywords == []
    ensures BuildTailoredResumeContent(profile, job, sim).missingKeywords == []
  {
    var r := BuildTailoredResumeContent(profile, job, sim);
    ExtractFromEmpty();
    SubseqEqualLength(r.matchedKeywords, []);
    SubseqMembers(r.matchedKeywords, []);
    SubseqMembers(r.missingKeywords, []);
  }

  /** A skill typed with a leading space never matches here, because the
      tailoring compares lower-cased skills without stripping them ... */
  lemma PaddedSkillMissedByTailoring(profile: ProfileDict, job: Job, sim: Similarity)
    requires profile.skills == [" python"]
    requires Contains(Lower(OrEmpty(job.description)), "python")
    ensures "python" in BuildTailoredResumeContent(profile, job, sim).missingKeywords
  {
    var r := BuildTailoredResumeContent(profile, job, sim);
    assert "python" in Vocabulary;
    assert Lower(" python")[0] == ' ';
    assert "python" !in LoweredSkills(profile.skills);
  }

  /** ... while the scorer strips skills and does count it as matched. */
  lemma PaddedSkillMatchedByScoring(jdText: string, sim: Similarity)
    requires Contains(PreparedDescription(jdText), "python")
    ensures "python" in ScoreJob([" python"], [], jdText, sim).matched
  {
    var r := ScoreJob([" python"], [], jdText, sim);
    PythonInDescription(jdText);
    PaddedPythonSkill();
    assert "python" !in r.missing;
  }

  lemma PaddedPythonStrips()
    ensures Strip(" python") == "python" && Strip(Lower(" python")) == "python"
  {
    var w := "python";
    assert w[0] == 'p' && w[|w| - 1] == 'n';
    StripLeadingSpace(w);
    assert [' '] + w == " python";
    LowerOfNoCapitals(" python");
  }

  lemma PythonInDescription(jdText: string)
    requires Contains(PreparedDescription(jdText), "python")
    ensures "python" in DescriptionKeywords(jdText)
  {
    assert "python" in Vocabulary;
    LowerIdempotent(NormalizeText(jdText));
  }

  lemma PaddedPythonSkill()
    ensures "python" in SkillSet([" python"])
  {
    PaddedPythonStrips();
    assert [" python"][0] == " python";
  }

  lemma PowerBiLower()
    ensures Lower("power bi") == "power bi" && Lower("power\nbi") == "power\nbi"
  {
    LowerOfNoCapitals("power bi");
    LowerOfNoCapitals("power\nbi");
  }

  lemma PowerBiNormalizes()
    ensures NormalizeText("power\nbi") == "power bi"
  {
    var a, b := "power", "bi";
    assert forall i :: 0 <= i < |a| ==> !IsSpace(a[i]);
    assert forall i :: 0 <= i < |b| ==> !IsSpace(b[i]);
    NormalizeBreak(a, "\n", b);
    assert a + ("\n" + b) == "power\nbi";
    assert a + (" " + b) == "power bi";
  }

  lemma PowerBiInVocabulary()
    ensures "power bi" in Vocabulary
  {
    assert Vocabulary[15] == "power bi";
  }

  lemma PowerBiNotInRaw()
    ensures "power bi" !in ExtractKeywords("power\nbi")
  {
    PowerBiLower();
    assert "power\nbi"[5] != "power bi"[5];
    ContainsSameLength("power\nbi", "power bi");
  }

  /** "power\nbi" normalises to "power bi", which the scorer's keyword pass
      finds ... */
  lemma LineBreakJoinedForScoring()
    ensures PreparedDescription("power\nbi") == "power bi"
    ensures "power bi" in DescriptionKeywords("power\nbi")
  {
    PowerBiNormalizes();
    PowerBiLower();
    PowerBiInVocabulary();
    assert "power bi" <= "power bi";
  }

  /** ... but the tailoring reads the raw description, where the line break
      keeps "power bi" from matching: it is neither matched nor missing. */
  lemma LineBreakMissedByTailoring(profile: ProfileDict, job: Job, sim: Similarity)
    requires job.description == Some("power\nbi")
    ensures "power bi" !in BuildTailoredResumeContent(profile, job, sim).matchedKeywords
    ensures "power bi" !in BuildTailoredResumeContent(profile, job, sim).missingKeywords
  {
    var r := BuildTailoredResumeContent(profile, job, sim);
    PowerBiNotInRaw();
    SubseqMembers(r.matchedKeywords, ExtractKeywords("power\nbi"));
    SubseqMembers(r.missingKeywords, ExtractKeywords("power\nbi"));
  }
}
