/** The text helpers of app/utils.py: whitespace normalisation, vocabulary
    keyword extraction, file-name slugs and `{{KEY}}` templating. */
module Utils {
  import opened Wrappers
  import opened Seqs
  import opened Text

  // ---------------------------------------------------------------------------
  // normalize_text

  /** The non-whitespace characters of `s`, in order. */
  function NonSpace(s: string): string
  {
    if |s| == 0 then "" else (if IsSpace(s[0]) then "" else [s[0]]) + NonSpace(s[1..])
  }

  lemma {:induction false} NonSpaceAppend(a: string, b: string)
    ensures NonSpace(a + b) == NonSpace(a) + NonSpace(b)
  {
    if |a| > 0 {
      assert (a + b)[1..] == a[1..] + b;
      NonSpaceAppend(a[1..], b);
    } else {
      assert a + b == b;
    }
  }

  lemma {:induction false} NonSpaceBlank(s: string)
    requires forall i :: 0 <= i < |s| ==> IsSpace(s[i])
    ensures NonSpace(s) == ""
  {
    if |s| > 0 {
      NonSpaceBlank(s[1..]);
    }
  }

  lemma NonSpaceLStrip(s: string)
    ensures NonSpace(LStrip(s)) == NonSpace(s)
  {
    var r := LStrip(s);
    assert s == s[..|s| - |r|] + r;
    NonSpaceAppend(s[..|s| - |r|], r);
    NonSpaceBlank(s[..|s| - |r|]);
  }

  lemma NonSpaceRStrip(s: string)
    ensures NonSpace(RStrip(s)) == NonSpace(s)
  {
    var r := RStrip(s);
    assert s == r + s[|r|..];
    NonSpaceAppend(r, s[|r|..]);
    NonSpaceBlank(s[|r|..]);
  }

  /** Stripping removes only whitespace. */
  lemma NonSpaceStrip(s: string)
    ensures NonSpace(Strip(s)) == NonSpace(s)
  {
    NonSpaceLStrip(s);
    NonSpaceRStrip(LStrip(s));
  }

  /** `re.sub(r"\s+", " ", s)`: every maximal run of whitespace becomes a single
      space. The result's only whitespace is `' '`, never two in a row. */
  function CollapseSpaces(s: string): (r: string)
    ensures forall i :: 0 <= i < |r| && IsSpace(r[i]) ==> r[i] == ' '
    ensures forall i :: 0 <= i < |r| - 1 ==> !(IsSpace(r[i]) && IsSpace(r[i + 1]))
    ensures |s| > 0 && !IsSpace(s[0]) ==> |r| > 0 && r[0] == s[0]
    decreases |s|
  {
    if |s| == 0 then ""
    else if IsSpace(s[0]) then
      var rest := CollapseSpaces(LStrip(s[1..]));
      PrependKeepsSpacing(' ', rest);
      " " + rest
    else
      var rest := CollapseSpaces(s[1..]);
      PrependKeepsSpacing(s[0], rest);
      [s[0]] + rest
  }

  /** Putting a character in front keeps the spacing rules, provided a space
      is never put before another whitespace character. */
  lemma PrependKeepsSpacing(c: char, rest: string)
    requires forall i :: 0 <= i < |rest| && IsSpace(rest[i]) ==> rest[i] == ' '
    requires forall i :: 0 <= i < |rest| - 1 ==> !(IsSpace(rest[i]) && IsSpace(rest[i + 1]))
    requires IsSpace(c) ==> c == ' ' && (|rest| == 0 || !IsSpace(rest[0]))
    ensures forall i :: 0 <= i < |[c] + rest| && IsSpace(([c] + rest)[i]) ==> ([c] + rest)[i] == ' '
    ensures forall i :: 0 <= i < |[c] + rest| - 1 ==> !(IsSpace(([c] + rest)[i]) && IsSpace(([c] + rest)[i + 1]))
  {
    var r := [c] + rest;
    forall i | 1 <= i < |r| ensures r[i] == rest[i - 1] { }
  }

  lemma {:induction false} CollapseKeepsNonSpace(s: string)
    ensures NonSpace(CollapseSpaces(s)) == NonSpace(s)
    decreases |s|
  {
    if |s| > 0 {
      if IsSpace(s[0]) {
        var l := LStrip(s[1..]);
        CollapseKeepsNonSpace(l);
        NonSpaceLStrip(s[1..]);
        NonSpaceAppend(" ", CollapseSpaces(l));
      } else {
        CollapseKeepsNonSpace(s[1..]);
        NonSpaceAppend([s[0]], CollapseSpaces(s[1..]));
      }
    }
  }

  /** The shape `normalize_text` produces: no whitespace at the ends, no
      whitespace other than `' '`, and never two whitespace characters in a row. */
  ghost predicate IsNormalized(s: string)
  {
    && Trimmed(s)
    && (forall i :: 0 <= i < |s| && IsSpace(s[i]) ==> s[i] == ' ')
    && (forall i :: 0 <= i < |s| - 1 ==> !(IsSpace(s[i]) && IsSpace(s[i + 1])))
  }

  /** `normalize_text(t)` for a present `t`. */
  function NormalizeText(t: string): (r: string)
    ensures IsNormalized(r)
  {
    var c := CollapseSpaces(t);
    var r := Strip(c);
    assert forall i :: 0 <= i < |r| ==> r[i] == c[StripStart(c) + i];
    r
  }

  /** `normalize_text(t)` where `t` may be `None`. */
  function NormalizeNullable(t: Option<string>): (r: string)
    ensures IsNormalized(r)
    ensures t.None? ==> r == ""
  {
    NormalizeEmpty();
    NormalizeText(OrEmpty(t))
  }

  lemma NormalizeEmpty()
    ensures NormalizeText("") == ""
  {
    assert CollapseSpaces("") == "";
  }

  /** Normalisation keeps every non-whitespace character, in order. */
  lemma NormalizeKeepsNonSpace(t: string)
    ensures NonSpace(NormalizeText(t)) == NonSpace(t)
  {
    CollapseKeepsNonSpace(t);
    NonSpaceStrip(CollapseSpaces(t));
  }

  lemma {:induction false} CollapseOfNormalized(s: string)
    requires forall i :: 0 <= i < |s| && IsSpace(s[i]) ==> s[i] == ' '
    requires forall i :: 0 <= i < |s| - 1 ==> !(IsSpace(s[i]) && IsSpace(s[i + 1]))
    ensures CollapseSpaces(s) == s
    decreases |s|
  {
    if |s| > 0 {
      CollapseOfNormalized(s[1..]);
      if IsSpace(s[0]) {
        assert LStrip(s[1..]) == s[1..];
      }
      assert [s[0]] + s[1..] == s;
    }
  }

  /** A whitespace-free word passes through unchanged. */
  lemma {:induction false} CollapseAfterWord(a: string, t: string)
    requires forall i :: 0 <= i < |a| ==> !IsSpace(a[i])
    ensures CollapseSpaces(a + t) == a + CollapseSpaces(t)
  {
    if |a| > 0 {
      var s := a + t;
      assert s[0] == a[0] && !IsSpace(s[0]);
      assert s[1..] == a[1..] + t;
      assert CollapseSpaces(s) == [a[0]] + CollapseSpaces(s[1..]);
      CollapseAfterWord(a[1..], t);
      assert [a[0]] + (a[1..] + CollapseSpaces(t)) == a + CollapseSpaces(t);
    } else {
      assert a + t == t;
    }
  }

  /** A non-empty run of whitespace before a whitespace-free word becomes a
      single space. */
  lemma CollapseBeforeWord(w: string, b: string)
    requires |w| > 0 && forall i :: 0 <= i < |w| ==> IsSpace(w[i])
    requires forall i :: 0 <= i < |b| ==> !IsSpace(b[i])
    ensures CollapseSpaces(w + b) == " " + b
  {
    CollapseOfRun(w, b);
    CollapseOfNormalized(b);
  }

  /** A leading whitespace run collapses to one space in front of whatever
      follows it, provided that does not start with whitespace. */
  lemma CollapseOfRun(w: string, b: string)
    requires |w| > 0 && forall i :: 0 <= i < |w| ==> IsSpace(w[i])
    requires |b| == 0 || !IsSpace(b[0])
    ensures CollapseSpaces(w + b) == " " + CollapseSpaces(b)
  {
    assert (w + b)[0] == w[0];
    assert (w + b)[1..] == w[1..] + b;
    LStripOfRun(w[1..], b);
  }

  /** Left-stripping a whitespace run in front of a word leaves the word. */
  lemma {:induction false} LStripOfRun(w: string, b: string)
    requires forall i :: 0 <= i < |w| ==> IsSpace(w[i])
    requires |b| == 0 || !IsSpace(b[0])
    ensures LStrip(w + b) == b
  {
    if |w| > 0 {
      assert (w + b)[1..] == w[1..] + b;
      LStripOfRun(w[1..], b);
    } else {
      assert w + b == b;
    }
  }

  /** Normalising two non-empty whitespace-free words separated by a non-empty
      run of whitespace joins them with a single space. */
  lemma NormalizeBreak(a: string, w: string, b: string)
    requires |a| > 0 && |b| > 0
    requires forall i :: 0 <= i < |a| ==> !IsSpace(a[i])
    requires forall i :: 0 <= i < |b| ==> !IsSpace(b[i])
    requires |w| > 0 && forall i :: 0 <= i < |w| ==> IsSpace(w[i])
    ensures NormalizeText(a + (w + b)) == a + (" " + b)
  {
    CollapseAfterWord(a, w + b);
    CollapseBeforeWord(w, b);
    var r := a + (" " + b);
    assert r[0] == a[0] && r[|r| - 1] == b[|b| - 1];
    StripOfTrimmed(r);
  }

  /** The strings `normalize_text` leaves unchanged are exactly the normalised ones. */
  lemma NormalizeFixedPoints(s: string)
    ensures NormalizeText(s) == s <==> IsNormalized(s)
  {
    if IsNormalized(s) {
      CollapseOfNormalized(s);
      StripOfTrimmed(s);
    }
  }

  lemma NormalizeIdempotent(t: string)
    ensures NormalizeText(NormalizeText(t)) == NormalizeText(t)
  {
    NormalizeFixedPoints(NormalizeText(t));
  }

  /** Lower-casing a normalised string keeps it normalised. */
  lemma LowerKeepsNormalized(s: string)
    requires IsNormalized(s)
    ensures IsNormalized(Lower(s))
  {
    LowerKeepsSpaces(s);
  }

  // ---------------------------------------------------------------------------
  // extract_keywords

  /** The fixed, ordered tool vocabulary of `extract_keywords`. */
  const Vocabulary: seq<string> := [
    "databricks", "spark", "python", "sql", "snowflake", "azure", "aws", "gcp", "synapse",
    "adf", "airflow", "dbt", "kafka", "hadoop", "tableau", "power bi", "kibana", "elasticsearch",
    "terraform", "docker", "kubernetes", "delta lake", "pyspark", "scala", "java", "git",
    "fastapi", "sqlalchemy", "nifi", "opensearch", "s3", "blob storage", "lakehouse", "druid"
  ]

  /** The first loop: every tool that is a substring of `text`, in tool order. */
  function FoundTools(tools: seq<string>, text: string): (r: seq<string>)
    ensures IsSubseq(r, tools)
    ensures forall k :: k in r <==> k in tools && Contains(text, k)
  {
    if |tools| == 0 then []
    else
      var rest := FoundTools(tools[1..], text);
      SubseqCons(tools[0], rest, tools[1..]);
      assert [tools[0]] + tools[1..] == tools;
      if Contains(text, tools[0]) then
        assert ([tools[0]] + rest)[1..] == rest;
        [tools[0]] + rest
      else rest
  }

  /** The second loop: drop repeats (and anything already in `seen`), keeping
      first occurrences in order. */
  function Dedup(xs: seq<string>, seen: set<string>): (r: seq<string>)
    ensures IsSubseq(r, xs)
    ensures NoDups(r)
    ensures forall k :: k in r <==> k in xs && k !in seen
    ensures forall i, j :: 0 <= i < j < |r| ==> FirstIndex(xs, r[i]) < FirstIndex(xs, r[j])
  {
    if |xs| == 0 then []
    else
      assert [xs[0]] + xs[1..] == xs;
      if xs[0] in seen then
        var rest := Dedup(xs[1..], seen);
        SubseqCons(xs[0], rest, xs[1..]);
        FirstIndexPastHead(xs, rest);
        rest
      else
        var rest := Dedup(xs[1..], seen + {xs[0]});
        assert ([xs[0]] + rest)[1..] == rest;
        FirstIndexPastHead(xs, rest);
        [xs[0]] + rest
  }

  /** Elements other than the head are first found one place later in `xs`
      than in its tail. */
  lemma FirstIndexPastHead(xs: seq<string>, ys: seq<string>)
    requires |xs| > 0
    requires forall k :: k in ys ==> k in xs[1..] && k != xs[0]
    ensures forall k :: k in ys ==> FirstIndex(xs, k) == FirstIndex(xs[1..], k) + 1
  {
  }

  /** `extract_keywords(text)` for a present `text`: the vocabulary terms that
      occur as substrings of the lower-cased text, once each, in vocabulary order. */
  function ExtractKeywords(text: string): (r: seq<string>)
    ensures IsSubseq(r, Vocabulary)
    ensures NoDups(r)
    ensures forall k :: k in r <==> k in Vocabulary && Contains(Lower(text), k)
  {
    var found := FoundTools(Vocabulary, Lower(text));
    var r := Dedup(found, {});
    SubseqTrans(r, found, Vocabulary);
    r
  }

  lemma VocabularyTermsNonEmpty(k: string)
    requires k in Vocabulary
    ensures |k| > 0
  {
  }

  lemma NoKeywordInEmpty(k: string)
    ensures k !in ExtractKeywords("")
  {
    assert Lower("") == "";
    if k in Vocabulary {
      VocabularyTermsNonEmpty(k);
      ContainsInEmpty(k);
    }
  }

  /** Empty text, and a missing text, yield no keywords. */
  lemma ExtractFromEmpty()
    ensures ExtractKeywords("") == []
    ensures ExtractKeywords(OrEmpty(None)) == []
  {
    var r := ExtractKeywords("");
    if |r| > 0 {
      NoKeywordInEmpty(r[0]);
    }
  }

  /** Matching is by substring: a found term implies every vocabulary term inside it. */
  lemma ImpliedKeyword(text: string, k: string, k': string)
    requires k in ExtractKeywords(text)
    requires k' in Vocabulary && Contains(k, k')
    ensures k' in ExtractKeywords(text)
  {
    ContainsTrans(Lower(text), k, k');
  }

  lemma SparkInsidePyspark()
    ensures "spark" in Vocabulary && Contains("pyspark", "spark")
  {
    assert Vocabulary[1] == "spark";
    assert OccursAt("pyspark", "spark", 2);
    OccursContains("pyspark", "spark", 2);
  }

  lemma SqlInsideSqlalchemy()
    ensures "sql" in Vocabulary && Contains("sqlalchemy", "sql")
  {
    assert Vocabulary[3] == "sql";
    assert OccursAt("sqlalchemy", "sql", 0);
    OccursContains("sqlalchemy", "sql", 0);
  }

  /** "pyspark" found implies "spark" found. */
  lemma PysparkImpliesSpark(text: string)
    requires "pyspark" in ExtractKeywords(text)
    ensures "spark" in ExtractKeywords(text)
  {
    SparkInsidePyspark();
    ImpliedKeyword(text, "pyspark", "spark");
  }

  /** "sqlalchemy" found implies "sql" found. */
  lemma SqlalchemyImpliesSql(text: string)
    requires "sqlalchemy" in ExtractKeywords(text)
    ensures "sql" in ExtractKeywords(text)
  {
    SqlInsideSqlalchemy();
    ImpliedKeyword(text, "sqlalchemy", "sql");
  }

  // ---------------------------------------------------------------------------
  // safe_slug

  /** The characters the slug's regular expression keeps: `[a-zA-Z0-9_\- ]`. */
  predicate SlugChar(c: char)
  {
    'a' <= c <= 'z' || 'A' <= c <= 'Z' || '0' <= c <= '9' || c == '_' || c == '-' || c == ' '
  }

  /** `re.sub(r"[^a-zA-Z0-9_\- ]+", "", s)`: delete every other character.
      What remains is a subsequence of `s` holding only slug characters, and
      every slug character of `s` as often as it occurs there. */
  function KeepSlugChars(s: string): (r: string)
    ensures |r| <= |s|
    ensures forall i :: 0 <= i < |r| ==> SlugChar(r[i])
    ensures IsSubseq(r, s)
    ensures forall c :: SlugChar(c) ==> multiset(r)[c] == multiset(s)[c]
  {
    if |s| == 0 then ""
    else
      var rest := KeepSlugChars(s[1..]);
      assert [s[0]] + s[1..] == s;
      SubseqCons(s[0], rest, s[1..]);
      if SlugChar(s[0]) then
        assert ([s[0]] + rest)[1..] == rest;
        [s[0]] + rest
      else rest
  }

  lemma {:induction false} KeepSlugCharsOfSlug(s: string)
    requires forall i :: 0 <= i < |s| ==> SlugChar(s[i])
    ensures KeepSlugChars(s) == s
  {
    if |s| > 0 {
      KeepSlugCharsOfSlug(s[1..]);
      assert [s[0]] + s[1..] == s;
    }
  }

  /** Replacing a one-character pattern rewrites exactly those characters. */
  lemma {:induction false} ReplaceOneChar(s: string, a: char, b: char)
    ensures ReplaceAll(s, [a], [b]) == seq(|s|, i requires 0 <= i < |s| => if s[i] == a then b else s[i])
  {
    if |s| > 0 {
      ReplaceOneChar(s[1..], a, b);
    }
  }

  /** `s.replace(" ", "_")` on slug characters leaves slug characters and no space. */
  lemma UnderscoreSpaces(s: string)
    requires forall i :: 0 <= i < |s| ==> SlugChar(s[i])
    ensures |ReplaceAll(s, " ", "_")| == |s|
    ensures forall i :: 0 <= i < |s| ==> SlugChar(ReplaceAll(s, " ", "_")[i]) && ReplaceAll(s, " ", "_")[i] != ' '
  {
    ReplaceOneChar(s, ' ', '_');
  }

  /** A stripped prefix of slug characters is made of slug characters. */
  lemma StrippedPrefixChars(kept: string, n: int)
    requires forall i :: 0 <= i < |kept| ==> SlugChar(kept[i])
    ensures |Strip(PyPrefix(kept, n))| <= |PyPrefix(kept, n)|
    ensures forall i :: 0 <= i < |Strip(PyPrefix(kept, n))| ==> SlugChar(Strip(PyPrefix(kept, n))[i])
  {
    var p := PyPrefix(kept, n);
    var c := Strip(p);
    assert forall i :: 0 <= i < |c| ==> c[i] == p[StripStart(p) + i];
  }

  /** `safe_slug(s, max_len)` for a present `s`. */
  function SafeSlug(s: string, maxLen: int): (r: string)
    ensures maxLen >= 0 ==> |r| <= maxLen
    ensures forall i :: 0 <= i < |r| ==> SlugChar(r[i]) && r[i] != ' '
  {
    var kept := KeepSlugChars(Strip(s));
    var cut := Strip(PyPrefix(kept, maxLen));
    StrippedPrefixChars(kept, maxLen);
    UnderscoreSpaces(cut);
    ReplaceAll(cut, " ", "_")
  }

  lemma NoSpaceTrimmed(r: string)
    requires forall i :: 0 <= i < |r| ==> SlugChar(r[i]) && r[i] != ' '
    ensures Trimmed(r)
  {
  }

  /** A string of slug characters without spaces, no longer than the limit,
      is its own slug. */
  lemma SafeSlugFixedPoint(r: string, maxLen: int)
    requires 0 <= maxLen && |r| <= maxLen
    requires forall i :: 0 <= i < |r| ==> SlugChar(r[i]) && r[i] != ' '
    ensures SafeSlug(r, maxLen) == r
  {
    NoSpaceTrimmed(r);
    SlugCutOfSlug(r, maxLen);
    SpaceFreeNotContains(r);
  }

  /** A stripped string of slug characters within the limit keeps its length
      in the slug, with each space turned into `'_'` and every other
      character kept in its place. */
  lemma SafeSlugOfTrimmedSlug(s: string, maxLen: int)
    requires 0 <= maxLen && |s| <= maxLen
    requires forall i :: 0 <= i < |s| ==> SlugChar(s[i])
    requires Trimmed(s)
    ensures |SafeSlug(s, maxLen)| == |s|
    ensures forall i :: 0 <= i < |s| ==> SafeSlug(s, maxLen)[i] == if s[i] == ' ' then '_' else s[i]
  {
    SlugCutOfSlug(s, maxLen);
    ReplaceOneChar(s, ' ', '_');
  }

  /** A string of slug characters without spaces, of any length, is cut to
      its first `max_len` characters and otherwise kept. */
  lemma SafeSlugCut(s: string, maxLen: int)
    requires 0 <= maxLen
    requires forall i :: 0 <= i < |s| ==> SlugChar(s[i]) && s[i] != ' '
    ensures SafeSlug(s, maxLen) == s[..Min(maxLen, |s|)]
  {
    var p := s[..Min(maxLen, |s|)];
    assert forall i :: 0 <= i < |p| ==> p[i] == s[i];
    SlugPrefixOfSlug(s, maxLen);
    SpaceFreeNotContains(p);
  }

  /** Stripping, filtering and cutting such a string leaves its first
      `max_len` characters. */
  lemma SlugPrefixOfSlug(s: string, maxLen: int)
    requires 0 <= maxLen
    requires forall i :: 0 <= i < |s| ==> SlugChar(s[i]) && s[i] != ' '
    ensures Strip(PyPrefix(KeepSlugChars(Strip(s)), maxLen)) == s[..Min(maxLen, |s|)]
  {
    var p := s[..Min(maxLen, |s|)];
    NoSpaceTrimmed(s);
    calc {
      Strip(PyPrefix(KeepSlugChars(Strip(s)), maxLen));
      { StripOfTrimmed(s); }
      Strip(PyPrefix(KeepSlugChars(s), maxLen));
      { KeepSlugCharsOfSlug(s); }
      Strip(PyPrefix(s, maxLen));
      { assert PyPrefix(s, maxLen) == p; }
      Strip(p);
      { assert forall i :: 0 <= i < |p| ==> p[i] == s[i]; NoSpaceTrimmed(p); StripOfTrimmed(p); }
      p;
    }
  }

  /** Such a string survives stripping, filtering and cutting unchanged. */
  lemma SlugCutOfSlug(r: string, maxLen: int)
    requires 0 <= maxLen && |r| <= maxLen
    requires forall i :: 0 <= i < |r| ==> SlugChar(r[i])
    requires Trimmed(r)
    ensures Strip(PyPrefix(KeepSlugChars(Strip(r)), maxLen)) == r
  {
    calc {
      Strip(PyPrefix(KeepSlugChars(Strip(r)), maxLen));
      { StripOfTrimmed(r); }
      Strip(PyPrefix(KeepSlugChars(r), maxLen));
      { KeepSlugCharsOfSlug(r); }
      Strip(PyPrefix(r, maxLen));
      { WholePrefix(r, maxLen); }
      r;
    }
  }

  lemma WholePrefix(r: string, maxLen: int)
    requires 0 <= maxLen && |r| <= maxLen
    requires Trimmed(r)
    ensures Strip(PyPrefix(r, maxLen)) == r
  {
    assert PyPrefix(r, maxLen) == r;
    StripOfTrimmed(r);
  }

  /** Filtering a concatenation filters each part. */
  lemma {:induction false} KeepSlugCharsAppend(a: string, b: string)
    ensures KeepSlugChars(a + b) == KeepSlugChars(a) + KeepSlugChars(b)
  {
    if |a| > 0 {
      assert (a + b)[1..] == a[1..] + b;
      KeepSlugCharsAppend(a[1..], b);
    } else {
      assert a + b == b;
    }
  }

  /** A character the slug does not allow, between two parts that do not
      start or end in whitespace, makes no difference to the slug. */
  lemma SafeSlugDropsOther(a: string, c: char, b: string, maxLen: int)
    requires |a| > 0 && |b| > 0 && !IsSpace(a[0]) && !IsSpace(b[|b| - 1])
    requires !SlugChar(c)
    ensures SafeSlug(a + [c] + b, maxLen) == SafeSlug(a + b, maxLen)
  {
    var s := a + [c] + b;
    assert s[0] == a[0] && s[|s| - 1] == b[|b| - 1];
    assert (a + b)[0] == a[0] && (a + b)[|a + b| - 1] == b[|b| - 1];
    StripOfTrimmed(s);
    StripOfTrimmed(a + b);
    DropOtherKept(a, c, b);
  }

  lemma DropOtherKept(a: string, c: char, b: string)
    requires !SlugChar(c)
    ensures KeepSlugChars(a + [c] + b) == KeepSlugChars(a + b)
  {
    calc {
      KeepSlugChars(a + [c] + b);
      { KeepSlugCharsAppend(a + [c], b); }
      KeepSlugChars(a + [c]) + KeepSlugChars(b);
      { KeepSlugCharsAppend(a, [c]); KeepOther(c); }
      KeepSlugChars(a) + "" + KeepSlugChars(b);
      { assert KeepSlugChars(a) + "" == KeepSlugChars(a); }
      KeepSlugChars(a) + KeepSlugChars(b);
      { KeepSlugCharsAppend(a, b); }
      KeepSlugChars(a + b);
    }
  }

  lemma KeepOther(c: char)
    requires !SlugChar(c)
    ensures KeepSlugChars([c]) == ""
  {
    assert [c][1..] == "";
  }

  /** Text without a space does not contain `" "`. */
  lemma {:induction false} SpaceFreeNotContains(s: string)
    requires forall i :: 0 <= i < |s| ==> s[i] != ' '
    ensures !Contains(s, " ")
    decreases |s|
  {
    if |s| > 0 {
      assert s[0] != ' ';
      SpaceFreeNotContains(s[1..]);
    }
  }

  lemma SafeSlugIdempotent(s: string, maxLen: int)
    requires maxLen >= 0
    ensures SafeSlug(SafeSlug(s, maxLen), maxLen) == SafeSlug(s, maxLen)
  {
    SafeSlugFixedPoint(SafeSlug(s, maxLen), maxLen);
  }

  /** A missing name gives the empty slug. */
  lemma SafeSlugOfNone(maxLen: int)
    ensures SafeSlug(OrEmpty(None), maxLen) == ""
  {
  }

  // ---------------------------------------------------------------------------
  // render_template

  function Placeholder(key: string): string
  {
    "{{" + key + "}}"
  }

  /** `render_template(template, data)`: for each entry in order, replace every
      `{{KEY}}` by the value (already converted with `str`). */
  function RenderTemplate(template: string, data: seq<(string, string)>): (r: string)
    ensures |data| == 0 ==> r == template
    decreases |data|
  {
    if |data| == 0 then template
    else RenderTemplate(ReplaceAll(template, Placeholder(data[0].0), data[0].1), data[1..])
  }

  /** A template without `"{{"` has no placeholder to fill, whatever the data. */
  lemma {:induction false} RenderWithoutBraces(template: string, data: seq<(string, string)>)
    requires !Contains(template, "{{")
    ensures RenderTemplate(template, data) == template
    decreases |data|
  {
    if |data| > 0 {
      var p := Placeholder(data[0].0);
      if Contains(template, p) {
        assert OccursAt(p, "{{", 0);
        OccursContains(p, "{{", 0);
        ContainsTrans(template, p, "{{");
      }
      RenderWithoutBraces(template, data[1..]);
    }
  }

  // ---------------------------------------------------------------------------
  // The job description as `score_job` and `rank_truth_bullets` both prepare it

  /** `normalize_text(jd_text).lower()` */
  function PreparedDescription(jdText: string): (r: string)
    ensures IsNormalized(r)
  {
    LowerKeepsNormalized(NormalizeText(jdText));
    Lower(NormalizeText(jdText))
  }

  /** `extract_keywords(normalize_text(jd_text).lower())` */
  function DescriptionKeywords(jdText: string): seq<string>
  {
    ExtractKeywords(PreparedDescription(jdText))
  }

  lemma PreparedEmpty()
    ensures PreparedDescription("") == ""
    ensures DescriptionKeywords("") == []
  {
    NormalizeEmpty();
    ExtractFromEmpty();
  }
}
