/** The fuzzy-matching primitive `rapidfuzz.fuzz.token_set_ratio` is foreign
    code; the model takes it as a parameter and relies only on its documented
    range, 0 to 100. */
module Fuzzy {
  import opened Text

  type Similarity = (string, string) -> real

  ghost predicate Bounded(sim: Similarity)
  {
    forall a, b :: 0.0 <= sim(a, b) <= 100.0
  }

  /** `best = 0; for t in texts: best = max(best, sim(t.lower(), jd))`: the
      largest ratio of any lower-cased text against `jd`, and 0 when there is
      no text. */
  function BestRatio(texts: seq<string>, jd: string, sim: Similarity): (r: real)
    ensures r >= 0.0
    ensures forall i :: 0 <= i < |texts| ==> sim(Lower(texts[i]), jd) <= r
    ensures r == 0.0 || exists i :: 0 <= i < |texts| && r == sim(Lower(texts[i]), jd)
    ensures Bounded(sim) ==> r <= 100.0
  {
    if |texts| == 0 then 0.0
    else
      var init := texts[..|texts| - 1];
      var prev := BestRatio(init, jd, sim);
      var cur := sim(Lower(texts[|texts| - 1]), jd);
      assert forall i :: 0 <= i < |init| ==> init[i] == texts[i];
      if cur > prev then cur else prev
  }
}
