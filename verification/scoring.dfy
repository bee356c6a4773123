/** Job fit scoring (app/scoring.py): the job's vocabulary keywords split into
    those the profile's skills cover and those it misses, a keyword score of up
    to 70 and a best-bullet similarity score of up to 30. */
module Scoring {
  import opened Seqs
  import opened Text
  import opened Utils
  import opened Fuzzy

  /** `(total, matched, missing)`; the total is kept unrounded. */
  datatype FitScore = FitScore(score: real, matched: seq<string>, missing: seq<string>)

  /** `set(s.lower().strip() for s in skills if s.strip())`: every entry is
      non-empty, stripped and free of capitals, and a skill already in that
      form is an entry as it is. */
  function SkillSet(skills: seq<string>): (r: set<string>)
    ensures forall k :: k in r ==> k != "" && Trimmed(k) && NoCapitals(k)
    ensures forall i :: 0 <= i < |skills| && skills[i] != "" && Trimmed(skills[i]) && NoCapitals(skills[i]) ==>
      skills[i] in r
  {
    var r := set i | 0 <= i < |skills| && Strip(skills[i]) != "" :: Strip(Lower(skills[i]));
    forall i | 0 <= i < |skills| && Strip(skills[i]) != ""
      ensures Strip(Lower(skills[i])) != "" && NoCapitals(Strip(Lower(skills[i])))
    {
      SkillEntryClean(skills[i]);
    }
    forall i | 0 <= i < |skills| && skills[i] != "" && Trimmed(skills[i]) && NoCapitals(skills[i])
      ensures skills[i] in r
    {
      LowerOfNoCapitals(skills[i]);
      StripOfTrimmed(skills[i]);
    }
    r
  }

  /** A skill that is not blank strips, after lower-casing, to a non-empty
      string without capitals. */
  lemma SkillEntryClean(skill: string)
    requires Strip(skill) != ""
    ensures Strip(Lower(skill)) != "" && NoCapitals(Strip(Lower(skill)))
  {
    var low := Lower(skill);
    StripEmptyIffBlank(skill);
    var i :| 0 <= i < |skill| && !IsSpace(skill[i]);
    LowerKeepsSpaces(skill);
    assert !IsSpace(low[i]);
    StripEmptyIffBlank(low);
    StripKeepsNoCapitals(low);
  }

  /** `len(matched) / len(jd_keywords) * 70.0`, or 0 without keywords. */
  function KeywordScore(matched: nat, total: nat): (r: real)
    requires matched <= total
    ensures 0.0 <= r <= 70.0
    ensures matched == 0 ==> r == 0.0
    ensures 0 < total == matched ==> r == 70.0
    ensures 0 < total ==> (r == 70.0 <==> matched == total)
  {
    if total > 0 then matched as real / total as real * 70.0 else 0.0
  }

  /** `(best / 100.0) * 30.0` over the bullets, or 0 without bullets. */
  function BulletScore(bullets: seq<string>, jd: string, sim: Similarity): (r: real)
    ensures 0.0 <= r
    ensures Bounded(sim) ==> r <= 30.0
    ensures |bullets| == 0 ==> r == 0.0
    ensures forall i :: 0 <= i < |bullets| ==> sim(Lower(bullets[i]), jd) / 100.0 * 30.0 <= r
    ensures r == 0.0 || exists i :: 0 <= i < |bullets| && r == sim(Lower(bullets[i]), jd) / 100.0 * 30.0
    ensures Bounded(sim) && |bullets| > 0 ==>
      exists i :: 0 <= i < |bullets| && r == sim(Lower(bullets[i]), jd) / 100.0 * 30.0
  {
    if |bullets| > 0 then
      var best := BestRatio(bullets, jd, sim);
      assert Bounded(sim) && best == 0.0 ==> best == sim(Lower(bullets[0]), jd);
      best / 100.0 * 30.0
    else 0.0
  }

  /** `score_job(profile_skills, truth_bullets, jd_text)`. */
  function ScoreJob(skills: seq<string>, bullets: seq<string>, jdText: string, sim: Similarity): (r: FitScore)
    ensures SplitsInOrder(DescriptionKeywords(jdText), r.matched, r.missing, SkillSet(skills))
    ensures forall k :: k in r.matched ==>
      exists i :: 0 <= i < |skills| && Strip(skills[i]) != "" && Strip(Lower(skills[i])) == k
    ensures forall k, i :: k in r.missing && 0 <= i < |skills| && Strip(skills[i]) != "" ==>
      Strip(Lower(skills[i])) != k
    ensures Bounded(sim) ==> 0.0 <= r.score <= 100.0
    ensures r.score == KeywordScore(|r.matched|, |DescriptionKeywords(jdText)|)
      + BulletScore(bullets, PreparedDescription(jdText), sim)
  {
    ScoreAgainst(skills, bullets, PreparedDescription(jdText), DescriptionKeywords(jdText), sim)
  }

  /** The body of `score_job` once the description has been prepared (`jd`)
      and its vocabulary keywords extracted (`keywords`). */
  function ScoreAgainst(skills: seq<string>, bullets: seq<string>, jd: string, keywords: seq<string>,
                        sim: Similarity): (r: FitScore)
    ensures SplitsInOrder(keywords, r.matched, r.missing, SkillSet(skills))
    ensures forall k :: k in r.matched ==>
      exists i :: 0 <= i < |skills| && Strip(skills[i]) != "" && Strip(Lower(skills[i])) == k
    ensures forall k, i :: k in r.missing && 0 <= i < |skills| && Strip(skills[i]) != "" ==>
      Strip(Lower(skills[i])) != k
    ensures Bounded(sim) ==> 0.0 <= r.score <= 100.0
    ensures r.score == KeywordScore(|r.matched|, |keywords|) + BulletScore(bullets, jd, sim)
  {
    var prof := SkillSet(skills);
    var matched := Keep(keywords, prof);
    var missing := Drop(keywords, prof);
    KeepDropSplit(keywords, prof);
    SubseqMembers(matched, keywords);
    FitScore(KeywordScore(|matched|, |keywords|) + BulletScore(bullets, jd, sim), matched, missing)
  }

  /** With no skills and no bullets the score is 0 and nothing matches, for
      any description. */
  lemma EmptyProfileScoresZero(jdText: string, sim: Similarity)
    ensures ScoreJob([], [], jdText, sim).score == 0.0
    ensures ScoreJob([], [], jdText, sim).matched == []
    ensures ScoreJob([], [], jdText, sim).missing == DescriptionKeywords(jdText)
  {
    var keywords := DescriptionKeywords(jdText);
    var r := ScoreJob([], [], jdText, sim);
    assert forall k :: k !in SkillSet([]);
    NoMembersEmpty(r.matched);
    SubseqEqualLength(r.missing, keywords);
    assert r.score == KeywordScore(0, |keywords|) + BulletScore([], PreparedDescription(jdText), sim);
  }

  /** When the description has keywords and the skills cover all of them,
      nothing is missing and the keyword part is the full 70. */
  lemma FullCoverageScores70(skills: seq<string>, bullets: seq<string>, jdText: string, sim: Similarity)
    requires |DescriptionKeywords(jdText)| > 0
    requires forall k :: k in DescriptionKeywords(jdText) ==> k in SkillSet(skills)
    ensures ScoreJob(skills, bullets, jdText, sim).missing == []
    ensures ScoreJob(skills, bullets, jdText, sim).matched == DescriptionKeywords(jdText)
    ensures ScoreJob(skills, bullets, jdText, sim).score
      == 70.0 + BulletScore(bullets, PreparedDescription(jdText), sim)
  {
    var keywords := DescriptionKeywords(jdText);
    var r := ScoreJob(skills, bullets, jdText, sim);
    SubseqMembers(r.missing, keywords);
    NoMembersEmpty(r.missing);
    SubseqEqualLength(r.matched, keywords);
  }
}
