/** Truth-locked bullet ranking and experience reordering (app/rewriter.py).
    Bullets are only selected, reordered and whitespace-normalised, never
    reworded. */
module Rewriter {
  import opened Wrappers
  import opened Seqs
  import opened Text
  import opened Utils
  import opened Fuzzy
  import opened StableSort

  /** `(i, b_norm, score)` */
  datatype RankedBullet = RankedBullet(index: nat, text: string, score: real)

  function ScoreOf(b: RankedBullet): real { b.score }

  function IndexOf(b: RankedBullet): int { b.index }

  function TextOf(b: RankedBullet): string { b.text }

  /** The positions of `keywords` whose keyword occurs in `low`. */
  ghost function HitPositions(keywords: seq<string>, low: string): set<int>
  {
    set i | 0 <= i < |keywords| && Contains(low, keywords[i])
  }

  /** `sum(1 for k in jd_kws if k in b_low)`: the number of positions of
      `keywords` whose keyword occurs in `low`. */
  function KeywordHits(keywords: seq<string>, low: string): (r: nat)
    ensures r == |HitPositions(keywords, low)|
    ensures r <= |keywords|
    ensures r == 0 <==> forall i :: 0 <= i < |keywords| ==> !Contains(low, keywords[i])
    ensures r == |keywords| <==> forall i :: 0 <= i < |keywords| ==> Contains(low, keywords[i])
  {
    if |keywords| == 0 then 0
    else
      var n := |keywords| - 1;
      HitsOfSnoc(keywords, low);
      KeywordHits(keywords[..n], low) + (if Contains(low, keywords[n]) then 1 else 0)
  }

  /** The hit positions of a list are those of its front plus, when it hits,
      the last position. */
  lemma HitsOfSnoc(keywords: seq<string>, low: string)
    requires |keywords| > 0
    ensures forall i :: 0 <= i < |keywords| - 1 ==> keywords[..|keywords| - 1][i] == keywords[i]
    ensures |HitPositions(keywords, low)| == |HitPositions(keywords[..|keywords| - 1], low)|
      + (if Contains(low, keywords[|keywords| - 1]) then 1 else 0)
  {
    var n := |keywords| - 1;
    var front := keywords[..n];
    var hits := HitPositions(front, low);
    var all := HitPositions(keywords, low);
    assert forall i :: 0 <= i < n ==> front[i] == keywords[i];
    if Contains(low, keywords[n]) {
      assert all == hits + {n};
      assert n !in hits;
    } else {
      assert all == hits;
    }
  }

  /** `kw_hits * 2.0 + fuzzy * 3.0` for one bullet, where `jd` and `keywords`
      are the prepared description and its keywords. */
  function Relevance(bullet: string, jd: string, keywords: seq<string>, sim: Similarity): real
  {
    var low := Lower(NormalizeText(bullet));
    KeywordHits(keywords, low) as real * 2.0 + sim(low, jd) / 100.0 * 3.0
  }

  /** Each bullet's relevance lies between 0 and two points per keyword plus three. */
  lemma RelevanceBounds(bullet: string, jd: string, keywords: seq<string>, sim: Similarity)
    requires Bounded(sim)
    ensures 0.0 <= Relevance(bullet, jd, keywords, sim) <= 2.0 * |keywords| as real + 3.0
  {
    var low := Lower(NormalizeText(bullet));
    assert 0.0 <= sim(low, jd) <= 100.0;
  }

  /** The list built by the loop of `rank_truth_bullets`, before sorting. */
  function Decorate(bullets: seq<string>, jd: string, keywords: seq<string>, sim: Similarity): seq<RankedBullet>
  {
    seq(|bullets|, i requires 0 <= i < |bullets| =>
      RankedBullet(i, NormalizeText(bullets[i]), Relevance(bullets[i], jd, keywords, sim)))
  }

  /** Every ranked entry is the decorated entry of its own index. */
  lemma RankedEntriesAreDecorated(d: seq<RankedBullet>, r: seq<RankedBullet>)
    requires forall i :: 0 <= i < |d| ==> d[i].index == i
    requires multiset(r) == multiset(d)
    ensures forall k :: 0 <= k < |r| ==> r[k].index < |d| && r[k] == d[r[k].index]
  {
    forall k | 0 <= k < |r| ensures r[k].index < |d| && r[k] == d[r[k].index] {
      assert r[k] in multiset(r);
      assert r[k] in d;
    }
  }

  lemma IndexedTagsIncrease(d: seq<RankedBullet>)
    requires forall i :: 0 <= i < |d| ==> d[i].index == i
    ensures IncreasingTags(d, IndexOf)
  {
  }

  lemma IndexedNoDups(d: seq<RankedBullet>)
    requires forall i :: 0 <= i < |d| ==> d[i].index == i
    ensures NoDups(d)
  {
  }

  /** Sorting entries tagged with their own positions keeps every entry,
      never repeats one, and orders ties by position. */
  lemma SortIndexed(d: seq<RankedBullet>)
    requires forall i :: 0 <= i < |d| ==> d[i].index == i
    ensures forall k :: 0 <= k < |Sort(d, ScoreOf)| ==>
      Sort(d, ScoreOf)[k].index < |d| && Sort(d, ScoreOf)[k] == d[Sort(d, ScoreOf)[k].index]
    ensures forall k, l :: 0 <= k < l < |Sort(d, ScoreOf)| ==> Sort(d, ScoreOf)[k].index != Sort(d, ScoreOf)[l].index
    ensures forall k, l :: 0 <= k < l < |Sort(d, ScoreOf)| && Sort(d, ScoreOf)[k].score == Sort(d, ScoreOf)[l].score ==>
      Sort(d, ScoreOf)[k].index < Sort(d, ScoreOf)[l].index
  {
    var r := Sort(d, ScoreOf);
    RankedEntriesAreDecorated(d, r);
    IndexedNoDups(d);
    PermutationNoDups(r, d);
    IndexedTagsIncrease(d);
    StableByTag(d, ScoreOf, IndexOf);
    forall k, l | 0 <= k < l < |r| && r[k].score == r[l].score ensures r[k].index < r[l].index {
      assert ScoreOf(r[k]) == ScoreOf(r[l]);
      assert IndexOf(r[k]) < IndexOf(r[l]);
    }
  }

  /** The ranking against an already prepared description `jd` and its
      keywords: every bullet exactly once, paired with its index and
      normalised text, by non-increasing relevance, ties in original order. */
  function Rank(bullets: seq<string>, jd: string, keywords: seq<string>, sim: Similarity): (r: seq<RankedBullet>)
    ensures |r| == |bullets|
    ensures forall k :: 0 <= k < |r| ==>
      && r[k].index < |bullets|
      && r[k].text == NormalizeText(bullets[r[k].index])
      && r[k].score == Relevance(bullets[r[k].index], jd, keywords, sim)
    ensures forall k, l :: 0 <= k < l < |r| ==> r[k].index != r[l].index
    ensures forall k, l :: 0 <= k < l < |r| ==> r[k].score >= r[l].score
    ensures forall k, l :: 0 <= k < l < |r| && r[k].score == r[l].score ==> r[k].index < r[l].index
  {
    var d := Decorate(bullets, jd, keywords, sim);
    SortIndexed(d);
    Sort(d, ScoreOf)
  }

  /** `rank_truth_bullets(truth_bullets, jd_text)`: the description is
      normalised and lower-cased and its keywords extracted before ranking. */
  function RankTruthBullets(bullets: seq<string>, jdText: string, sim: Similarity): (r: seq<RankedBullet>)
    ensures |r| == |bullets|
    ensures forall k :: 0 <= k < |r| ==>
      && r[k].index < |bullets|
      && r[k].text == NormalizeText(bullets[r[k].index])
      && r[k].score == Relevance(bullets[r[k].index], PreparedDescription(jdText), DescriptionKeywords(jdText), sim)
    ensures forall k, l :: 0 <= k < l < |r| ==> r[k].index != r[l].index
    ensures forall k, l :: 0 <= k < l < |r| ==> r[k].score >= r[l].score
    ensures forall k, l :: 0 <= k < l < |r| && r[k].score == r[l].score ==> r[k].index < r[l].index
  {
    Rank(bullets, PreparedDescription(jdText), DescriptionKeywords(jdText), sim)
  }

  /** With a similarity in [0, 100], every ranked score lies in
      [0, 2 * |keywords| + 3]. */
  lemma RankedScoresBounded(bullets: seq<string>, jdText: string, sim: Similarity)
    requires Bounded(sim)
    ensures forall k :: 0 <= k < |bullets| ==>
      0.0 <= RankTruthBullets(bullets, jdText, sim)[k].score <= 2.0 * |DescriptionKeywords(jdText)| as real + 3.0
  {
    var r := RankTruthBullets(bullets, jdText, sim);
    forall k | 0 <= k < |r|
      ensures 0.0 <= r[k].score <= 2.0 * |DescriptionKeywords(jdText)| as real + 3.0
    {
      RelevanceBounds(bullets[r[k].index], PreparedDescription(jdText), DescriptionKeywords(jdText), sim);
    }
  }

  /** The body of `build_highlights` against a prepared description. Its
      fallback never changes the result: the highlights are the texts of the
      top of the ranking for every limit. */
  function Highlights(bullets: seq<string>, jd: string, keywords: seq<string>, maxBullets: int, sim: Similarity): (r: seq<string>)
    ensures maxBullets >= 0 ==> |r| == Min(maxBullets, |bullets|)
    ensures maxBullets < 0 ==> |r| == Max(|bullets| + maxBullets, 0)
    ensures r == MapSeq(TextOf, PyPrefix(Rank(bullets, jd, keywords, sim), maxBullets))
  {
    var ranked := Rank(bullets, jd, keywords, sim);
    var selected := MapSeq(TextOf, PyPrefix(ranked, maxBullets));
    PyPrefixSameLength(ranked, bullets, maxBullets);
    if |selected| == 0 && |bullets| > 0 then MapSeq(NormalizeText, PyPrefix(bullets, maxBullets))
    else selected
  }

  /** `build_highlights(truth_bullets, jd_text, max_bullets)`: the texts of
      the first `max_bullets` ranked bullets. */
  function BuildHighlights(bullets: seq<string>, jdText: string, maxBullets: int, sim: Similarity): (r: seq<string>)
    ensures maxBullets >= 0 ==> |r| == Min(maxBullets, |bullets|)
    ensures maxBullets < 0 ==> |r| == Max(|bullets| + maxBullets, 0)
    ensures r == MapSeq(TextOf, PyPrefix(RankTruthBullets(bullets, jdText, sim), maxBullets))
  {
    Highlights(bullets, PreparedDescription(jdText), DescriptionKeywords(jdText), maxBullets, sim)
  }

  lemma DecoratedTexts(bullets: seq<string>, jd: string, keywords: seq<string>, sim: Similarity)
    ensures MapSeq(TextOf, Decorate(bullets, jd, keywords, sim)) == MapSeq(NormalizeText, bullets)
  {
  }

  lemma HighlightsMultiset(bullets: seq<string>, jd: string, keywords: seq<string>, maxBullets: int, sim: Similarity)
    ensures multiset(Highlights(bullets, jd, keywords, maxBullets, sim)) <= multiset(MapSeq(NormalizeText, bullets))
  {
    var d := Decorate(bullets, jd, keywords, sim);
    var ranked := Rank(bullets, jd, keywords, sim);
    assert ranked == Sort(d, ScoreOf);
    var n := |PyPrefix(ranked, maxBullets)|;
    SortMapMultiset(d, ScoreOf, TextOf);
    DecoratedTexts(bullets, jd, keywords, sim);
    MapSeqPrefix(TextOf, ranked, n);
    PrefixSubMultiset(MapSeq(TextOf, ranked), n);
  }

  /** Truth-locking: every highlight is the normalised form of an input bullet,
      and no bullet is used more often than it occurs. */
  lemma HighlightsAreTruthLocked(bullets: seq<string>, jdText: string, maxBullets: int, sim: Similarity)
    ensures forall k :: 0 <= k < |BuildHighlights(bullets, jdText, maxBullets, sim)| ==>
      exists i :: 0 <= i < |bullets| && BuildHighlights(bullets, jdText, maxBullets, sim)[k] == NormalizeText(bullets[i])
    ensures multiset(BuildHighlights(bullets, jdText, maxBullets, sim)) <= multiset(MapSeq(NormalizeText, bullets))
  {
    var r := BuildHighlights(bullets, jdText, maxBullets, sim);
    HighlightsMultiset(bullets, PreparedDescription(jdText), DescriptionKeywords(jdText), maxBullets, sim);
    forall k | 0 <= k < |r| ensures exists i :: 0 <= i < |bullets| && r[k] == NormalizeText(bullets[i]) {
      assert r[k] in multiset(r);
      MapSeqMember(NormalizeText, bullets, r[k]);
    }
  }

  /** Every bullet has the same relevance. */
  predicate EquallyRelevant(bullets: seq<string>, jd: string, keywords: seq<string>, sim: Similarity)
  {
    forall i, j :: 0 <= i < |bullets| && 0 <= j < |bullets| ==>
      Relevance(bullets[i], jd, keywords, sim) == Relevance(bullets[j], jd, keywords, sim)
  }

  lemma UniformHighlights(bullets: seq<string>, jd: string, keywords: seq<string>, maxBullets: int, sim: Similarity)
    requires maxBullets >= 0
    requires EquallyRelevant(bullets, jd, keywords, sim)
    ensures Highlights(bullets, jd, keywords, maxBullets, sim)
      == MapSeq(NormalizeText, bullets)[..Min(maxBullets, |bullets|)]
  {
    var d := Decorate(bullets, jd, keywords, sim);
    assert SortedDesc(d, ScoreOf);
    SortOfSorted(d, ScoreOf);
    var n := Min(maxBullets, |bullets|);
    DecoratedTexts(bullets, jd, keywords, sim);
    MapSeqPrefix(TextOf, d, n);
  }

  /** When every bullet is equally relevant, the highlights are the first
      `max_bullets` normalised bullets in their original order. */
  lemma UniformRelevanceKeepsOrder(bullets: seq<string>, jdText: string, maxBullets: int, sim: Similarity)
    requires maxBullets >= 0
    requires EquallyRelevant(bullets, PreparedDescription(jdText), DescriptionKeywords(jdText), sim)
    ensures BuildHighlights(bullets, jdText, maxBullets, sim)
      == MapSeq(NormalizeText, bullets)[..Min(maxBullets, |bullets|)]
  {
    UniformHighlights(bullets, PreparedDescription(jdText), DescriptionKeywords(jdText), maxBullets, sim);
  }

  /** With an empty description, and a similarity that gives 0 against the
      empty string, `build_highlights` keeps the original order. */
  lemma EmptyDescriptionKeepsOrder(bullets: seq<string>, maxBullets: int, sim: Similarity)
    requires maxBullets >= 0
    requires forall a :: sim(a, "") == 0.0
    ensures BuildHighlights(bullets, "", maxBullets, sim)
      == MapSeq(NormalizeText, bullets)[..Min(maxBullets, |bullets|)]
  {
    NothingRelevantWithoutDescription(bullets, sim);
    UniformHighlights(bullets, "", [], maxBullets, sim);
    PreparedEmpty();
  }

  lemma NothingRelevantWithoutDescription(bullets: seq<string>, sim: Similarity)
    requires forall a :: sim(a, "") == 0.0
    ensures EquallyRelevant(bullets, "", [], sim)
  {
    forall i, j | 0 <= i < |bullets| && 0 <= j < |bullets|
      ensures Relevance(bullets[i], "", [], sim) == Relevance(bullets[j], "", [], sim)
    {
      NoRelevanceWithoutDescription(bullets[i], sim);
      NoRelevanceWithoutDescription(bullets[j], sim);
    }
  }

  lemma NoRelevanceWithoutDescription(bullet: string, sim: Similarity)
    requires forall a :: sim(a, "") == 0.0
    ensures Relevance(bullet, "", [], sim) == 0.0
  {
  }

  // ---------------------------------------------------------------------------
  // reorder_experience_sections

  /** An experience block; `bullets` is `None` when the key is missing or
      holds `None`, and each bullet may itself be `None`. */
  datatype Experience = Experience(company: string, role: string, bullets: Option<seq<Option<string>>>)

  /** `[(b or "") for b in (exp.get("bullets", []) or [])]` */
  function BulletTexts(e: Experience): seq<string>
  {
    match e.bullets
    case None => []
    case Some(bs) => MapSeq(OrEmpty, bs)
  }

  /** The best similarity of any of the experience's bullets to `jd`. */
  function BestMatch(e: Experience, jd: string, sim: Similarity): real
  {
    BestRatio(BulletTexts(e), jd, sim)
  }

  function ExperienceKey(jd: string, sim: Similarity): Experience -> real
  {
    e => BestMatch(e, jd, sim)
  }

  /** `reorder_experience_sections(experiences, jd_text)`: the same blocks,
      untouched, by non-increasing best match, ties in original order. */
  function ReorderExperienceSections(exps: seq<Experience>, jdText: string, sim: Similarity): (r: seq<Experience>)
    ensures multiset(r) == multiset(exps)
    ensures forall i, j :: 0 <= i < j < |r| ==>
      BestMatch(r[i], PreparedDescription(jdText), sim) >= BestMatch(r[j], PreparedDescription(jdText), sim)
    ensures SameTies(r, exps, ExperienceKey(PreparedDescription(jdText), sim))
  {
    Sort(exps, ExperienceKey(PreparedDescription(jdText), sim))
  }

  /** A block with no bullets scores 0 and is never placed ahead of a block
      with a positive best match. */
  lemma BulletlessNeverAhead(exps: seq<Experience>, jdText: string, sim: Similarity)
    ensures forall i, j :: 0 <= i < j < |exps| && BulletTexts(ReorderExperienceSections(exps, jdText, sim)[i]) == [] ==>
      BestMatch(ReorderExperienceSections(exps, jdText, sim)[j], PreparedDescription(jdText), sim) == 0.0
  {
  }

  /** Of two blocks, the one with the strictly better match comes first. */
  lemma BetterBlockFirst(a: Experience, b: Experience, jdText: string, sim: Similarity)
    requires BestMatch(b, PreparedDescription(jdText), sim) > BestMatch(a, PreparedDescription(jdText), sim)
    ensures ReorderExperienceSections([a, b], jdText, sim) == [b, a]
  {
    SortPairSwaps(a, b, ExperienceKey(PreparedDescription(jdText), sim));
  }
}
