# Job-apply-assistant matching and tailoring core, in Dafny

This project models the matching and tailoring engine of the job-apply
assistant. That engine turns a profile's skills and "truth bullets", plus a
job description, into four things:

- the description's tool keywords;
- a fit score;
- highlights ranked by relevance;
- the tailored resume payload.

It also models the pure edges around that engine:

- row validation and shaping in the CSV job import;
- the skills and bullets text that a profile is saved as and read back from;
- the sort-and-take that selects the top jobs.

Everything is an immutable datatype and a pure function, except the CSV loop, which is a method with loop invariants.

Modules, following the source files:

| module | file | models |
|---|---|---|
| `Wrappers` | wrappers.dfy | `Option` and `Result` |
| `Seqs` | seqs.dfy | subsequences, duplicate-freedom, Python prefix slicing (`s[:n]` with negative `n`), order-preserving splits, `map` over sequences and multisets |
| `Text` | text.dfy | `str` and `re` primitives: ASCII `lower`, whitespace, `strip`, substring search, `split`/`join` on one separator, `replace` |
| `StableSort` | stable_sort.dfy | Python's stable `list.sort(key=..., reverse=True)`, as a descending insertion sort |
| `Fuzzy` | fuzzy.dfy | the similarity parameter that stands in for `rapidfuzz.fuzz.token_set_ratio`, and the "best ratio" loop |
| `Models` | models.dfy | the stored job and profile records, the profile payload and the profile dictionary |
| `Utils` | utils.dfy | app/utils.py |
| `Scoring` | scoring.dfy | app/scoring.py |
| `Rewriter` | rewriter.dfy | app/rewriter.py |
| `Tailoring` | tailoring.dfy | app/tailoring.py |
| `CsvImport` | csv_import.dfy | app/importers/csv_import.py over already tokenised records |
| `Api` | api.dfy | `_profile_to_dict`, the joins of `create_or_update_profile`, and `top_jobs` from app/main.py |

How foreign behaviour is handled:

- **The similarity.** `token_set_ratio` is a function parameter `sim`. The
  functions assume nothing about it. Lemmas assume at most two properties,
  each as a `requires`:
  - the documented range 0..100, through `Bounded(sim)`, where a bound is
    stated;
  - `sim(a, "") == 0` for every `a`: a bullet shares no token with an empty
    description. Only the empty-description lemmas assume it:
    `EmptyDescriptionKeepsOrder`, `NothingRelevantWithoutDescription` and
    `NoRelevanceWithoutDescription`.

  No symmetry or other property of the library is assumed.
- **Python's sort.** It is stable. The model's insertion sort is proved
  equal to *any* sorted, stable rearrangement (`AnyStableSortAgrees`), so
  it stands for Timsort exactly.
- **Scores** are real numbers.
- **Rounding in `top_jobs`.** The sort key `round(total, 2)` is a function
  parameter `round2` of `TopJobs`, with no property assumed.

## Model

| member | source | states |
|---|---|---|
| Text.Lower | app/utils.py:10 | no ASCII capital remains; each capital becomes the small letter 32 code points above it; every other character is kept; the length is kept |
| Text.LowerKeepsSpaces | app/scoring.py:6 | lower-casing neither creates nor removes whitespace, position by position |
| Text.LowerIdempotent | app/scoring.py:6 | lower-casing twice is lower-casing once |
| Text.Strip | app/main.py:25 | `strip` returns a contiguous piece of the input with no whitespace at either end, and everything cut off is whitespace |
| Text.StripIdempotent | app/scoring.py:9 | stripping twice is stripping once |
| Text.StripEmptyIffBlank | app/scoring.py:9 | a string strips to `""` exactly when it is all whitespace (the `if s.strip()` filter) |
| Text.StripMembers | app/scoring.py:9 | stripping introduces no character that was not in the input |
| Text.StripKeepsNoCapitals | app/scoring.py:9 | stripping text without capitals leaves none |
| Text.ContainsIffOccurs | app/utils.py:19 | the `k in text` test holds exactly when `k` occurs at some position of `text` |
| Text.ContainsTrans | app/utils.py:19 | a substring of a substring is a substring |
| Text.ContainsSameLength | app/utils.py:19 | a pattern as long as the text is found in it only if it is the text |
| Text.ContainsInEmpty | app/utils.py:10-19 | only the empty pattern is found in the empty text |
| Text.Split | app/main.py:25-26 | `split(sep)` yields at least one piece and no piece contains the separator |
| Text.Join | app/main.py:53-54 | `sep.join(xs)` starts with the first piece and is as long as all pieces together plus one separator between each two; no pieces give `""` |
| Text.SplitJoin | app/main.py:53-54 | splitting a `join` of at least one separator-free piece gives the pieces back |
| Text.JoinSplit | app/main.py:25-26 | joining the pieces of a split gives the text back |
| Text.ReplaceAll | app/utils.py:38 | `replace` leaves the string unchanged when the pattern does not occur or is replaced by itself, and keeps the length when the replacement is as long as the pattern |
| Text.ReplaceLeftmost | app/utils.py:38 | `replace` scans left to right: text before the first occurrence of the pattern is kept, that occurrence becomes the replacement, and the scan resumes after it |
| StableSort.Sort | app/rewriter.py:27 | the sort is a permutation, ordered by non-increasing key, and for every key value the tied elements keep their input order |
| StableSort.AnyStableSortAgrees | app/rewriter.py:27 | every sorted, stable rearrangement of the input equals `Sort`, so the model agrees with Python's stable sort |
| StableSort.SortOfSorted | app/main.py:220 | input already in non-increasing key order, and in particular input whose keys are all equal, comes back unchanged |
| StableSort.StableByTag | app/rewriter.py:27 | when elements carry increasing tags (their original positions), tied elements still have increasing tags after sorting |
| StableSort.SortMapMultiset | app/main.py:220-221 | sorting permutes any projection of the elements (the jobs of `(score, job)` pairs) as well |
| StableSort.SortedPrefixBest | app/main.py:220-221 | a prefix of a sorted, stable rearrangement holds the best of the input: every element left out has a key no larger than any kept one, and for every key value the kept elements are the first ones of the input with that key |
| StableSort.SortPairSwaps | app/rewriter.py:57 | of two elements, the one with the strictly larger key comes first |
| Fuzzy.BestRatio | app/scoring.py:21-23 | the running `max` is at least every bullet's similarity, is one of them or the initial 0, is never negative, and is at most 100 for a bounded similarity |
| Utils.CollapseSpaces | app/utils.py:6 | after `re.sub(r"\s+", " ", t)` the only whitespace is `' '`, never two whitespace characters are adjacent, and a leading non-space character is kept |
| Utils.NormalizeText | app/utils.py:4-7 | `normalize_text` output has no whitespace at either end, no adjacent whitespace, and no whitespace other than `' '` |
| Utils.NormalizeNullable | app/utils.py:5-7 | `None` normalises to `""`, and any result is normalised |
| Utils.NormalizeKeepsNonSpace | app/utils.py:6 | normalising keeps every non-whitespace character of the input, in order, and adds none |
| Utils.NormalizeFixedPoints | app/utils.py:4-7 | `normalize_text` leaves a string unchanged exactly when the string is already normalised |
| Utils.NormalizeIdempotent | app/utils.py:4-7 | normalising twice is normalising once |
| Utils.NormalizeBreak | app/utils.py:6 | two non-empty whitespace-free words separated by any non-empty run of whitespace normalise to the words joined by one space |
| Utils.CollapseBeforeWord | app/utils.py:6 | a non-empty run of whitespace before a whitespace-free word collapses to a single space |
| Utils.LowerKeepsNormalized | app/scoring.py:6 | lower-casing a normalised description keeps it normalised |
| Utils.FoundTools | app/utils.py:17-20 | the first loop keeps, in vocabulary order, exactly the tools that are substrings of the text |
| Utils.Dedup | app/utils.py:21-26 | the second loop keeps first occurrences in order: a duplicate-free subsequence holding exactly the elements not yet seen, ordered by the position of their first occurrence |
| Utils.ExtractKeywords | app/utils.py:9-26 | the keywords are a duplicate-free subsequence of the 34-term vocabulary, in vocabulary order, and a term is included exactly when it is a substring of the lower-cased text |
| Utils.VocabularyTermsNonEmpty | app/utils.py:11-16 | no vocabulary term is empty |
| Utils.ExtractFromEmpty | app/utils.py:10 | empty text and `None` give no keywords |
| Utils.ImpliedKeyword | app/utils.py:18-20 | when a found term contains another vocabulary term, that term is found too |
| Utils.PysparkImpliesSpark | app/utils.py:18-20 | "pyspark" found implies "spark" found |
| Utils.SqlalchemyImpliesSql | app/utils.py:18-20 | "sqlalchemy" found implies "sql" found |
| Utils.KeepSlugChars | app/utils.py:30 | the filter yields a subsequence of the text holding only `[A-Za-z0-9_- ]`, with every such character of the text as often as it occurs |
| Utils.KeepSlugCharsOfSlug | app/utils.py:30 | text already made of those characters passes the filter unchanged |
| Utils.ReplaceOneChar | app/utils.py:32 | replacing a one-character pattern rewrites exactly the positions holding that character |
| Utils.SafeSlug | app/utils.py:28-32 | for `max_len >= 0` the slug is at most `max_len` long, and for any `max_len` it holds only `[A-Za-z0-9_-]`, with no space |
| Utils.SafeSlugFixedPoint | app/utils.py:28-32 | a string of slug characters without spaces, within the limit, is its own slug |
| Utils.SafeSlugCut | app/utils.py:28-32 | a string of slug characters without spaces, however long, slugs to its first `max_len` characters for `max_len >= 0` |
| Utils.SafeSlugOfTrimmedSlug | app/utils.py:28-32 | a stripped string of slug characters within the limit keeps its length; each space becomes `_` and every other character stays in place |
| Utils.SafeSlugDropsOther | app/utils.py:29-30 | removing a character outside `[A-Za-z0-9_- ]` from between two parts that neither start nor end with whitespace leaves the slug unchanged |
| Utils.KeepSlugCharsAppend | app/utils.py:30 | the filter of a concatenation is the concatenation of the filters |
| Utils.SafeSlugIdempotent | app/utils.py:28-32 | for a fixed `max_len >= 0`, slugging a slug changes nothing |
| Utils.SafeSlugOfNone | app/utils.py:29 | a missing name gives the empty slug |
| Utils.RenderTemplate | app/utils.py:34-39 | with no data the template is returned unchanged |
| Utils.RenderWithoutBraces | app/utils.py:34-39 | a template without `"{{"` is returned unchanged whatever the data |
| Utils.PreparedDescription | app/scoring.py:6 | the description as scored, `normalize_text(jd_text).lower()`, is normalised |
| Utils.PreparedEmpty | app/rewriter.py:12-13 | the empty description prepares to `""` and has no keywords |
| Scoring.KeywordScore | app/scoring.py:15-17 | the keyword score lies in [0, 70]; it is 0 with no match and 70 exactly when every one of at least one keyword matches |
| Scoring.SkillSet | app/scoring.py:9-10 | every skill entry is non-empty, stripped and free of capitals, and a skill already in that form is an entry as it is |
| Scoring.SkillEntryClean | app/scoring.py:9 | a non-blank skill strips, after lower-casing, to a non-empty string without capitals |
| Scoring.BulletScore | app/scoring.py:19-24 | the bullet score is never negative, is 0 without bullets, is at least every bullet's scaled similarity and is 0 or one of them (always one of them for a bounded similarity), and is at most 30 for a bounded similarity |
| Scoring.ScoreJob | app/scoring.py:5-27 | matched and missing split the description's keywords in order; every matched keyword is some non-blank skill lower-cased and stripped, and no missing one is; the total is the keyword score plus the bullet score and lies in [0, 100] |
| Scoring.EmptyProfileScoresZero | app/scoring.py:9-26 | no skills and no bullets score 0, with nothing matched and every keyword missing, for any description |
| Scoring.FullCoverageScores70 | app/scoring.py:12-17 | when the description has keywords and the skills cover all of them, nothing is missing and the keyword part is exactly 70 |
| Rewriter.KeywordHits | app/rewriter.py:20 | the hit count is the number of keyword positions whose keyword occurs in the bullet; it is 0 exactly when none occurs and equals the number of keywords exactly when all occur |
| Rewriter.RelevanceBounds | app/rewriter.py:20-24 | with a bounded similarity a bullet's score lies in [0, 2·keywords + 3] |
| Rewriter.Rank | app/rewriter.py:16-27 | every bullet appears exactly once, with its index, normalised text and score, by non-increasing score, equal scores in ascending index |
| Rewriter.RankTruthBullets | app/rewriter.py:5-28 | against the prepared description, every bullet appears exactly once, with its index, normalised text and score, by non-increasing score, equal scores in ascending index |
| Rewriter.SortIndexed | app/rewriter.py:27 | sorting index-tagged entries keeps each entry, never repeats an index, and orders ties by index |
| Rewriter.RankedScoresBounded | app/rewriter.py:5-28 | with a bounded similarity every ranked score lies in [0, 2·|keywords| + 3] |
| Rewriter.Highlights | app/rewriter.py:30-37 | the highlights are always the texts of the first `max_bullets` ranked bullets, with Python slice length for every `max_bullets` |
| Rewriter.BuildHighlights | app/rewriter.py:30-37 | `build_highlights` returns the texts of the first `max_bullets` entries of `rank_truth_bullets`: `min(max_bullets, n)` of them for a non-negative limit |
| Rewriter.HighlightsAreTruthLocked | app/rewriter.py:30-37 | every highlight is the normalised form of an input bullet, and no bullet is used more often than it occurs |
| Rewriter.UniformRelevanceKeepsOrder | app/rewriter.py:27-32 | when every bullet has the same score, the highlights are the first `max_bullets` normalised bullets in input order |
| Rewriter.EmptyDescriptionKeepsOrder | app/rewriter.py:27-32 | with an empty description and a similarity that gives 0 against `""`, the highlights are the first `max_bullets` normalised bullets in input order |
| Rewriter.NoRelevanceWithoutDescription | app/rewriter.py:20-24 | for a similarity that scores every text 0 against `""`, a bullet scored against an empty description (which has no keywords) scores 0 |
| Rewriter.ReorderExperienceSections | app/rewriter.py:39-58 | the blocks are a permutation of the input, untouched, by non-increasing best match, ties in input order |
| Rewriter.BulletlessNeverAhead | app/rewriter.py:51-57 | a block without bullets is never placed ahead of a block with a positive best match |
| Rewriter.BetterBlockFirst | app/rewriter.py:57 | of two blocks, the one with the strictly better match comes first |
| Tailoring.SplitBySkills | app/tailoring.py:17-34 | matched and missing split the keywords in order, and a keyword is matched exactly when some lower-cased, unstripped skill equals it |
| Tailoring.LoweredSkills | app/tailoring.py:17 | the lower-cased skills have no capitals, and a skill without capitals is among them unchanged, surrounding spaces included |
| Tailoring.BuildTailoredResumeContent | app/tailoring.py:6-35 | identity fields and skills come from the profile, title and company from the job; there are `min(10, n)` highlights, each the normalised form of a bullet, none used more often than it occurs; the highlights are the texts of the first 10 entries of `rank_truth_bullets`; matched and missing split the raw description's keywords in order |
| Tailoring.TailoredMatchedKeywords | app/tailoring.py:16-33 | a keyword is matched exactly when it is a vocabulary term inside the lower-cased raw description and equals some lower-cased skill |
| Tailoring.NoDescriptionNoKeywords | app/tailoring.py:7-16 | a job without a description has empty matched and missing lists |
| Tailoring.PaddedSkillMissedByTailoring | app/tailoring.py:17-34 | with the single skill `" python"` and "python" in the lower-cased description, "python" is listed as missing |
| Tailoring.PaddedSkillMatchedByScoring | app/scoring.py:9-12 | when the prepared description contains "python", the scorer, which strips skills, matches the skill `" python"` |
| Tailoring.PaddedPythonSkill | app/scoring.py:9-10 | the scorer's skill set built from `" python"` contains "python" |
| Tailoring.PowerBiNotInRaw | app/tailoring.py:16 | keyword extraction on the raw text "power\nbi" does not find "power bi" |
| Tailoring.PowerBiNormalizes | app/scoring.py:6 | "power\nbi" normalises and lower-cases to "power bi" |
| Tailoring.LineBreakJoinedForScoring | app/scoring.py:6-7 | the scorer finds the keyword "power bi" in the description "power\nbi" |
| Tailoring.LineBreakMissedByTailoring | app/tailoring.py:16-34 | the tailoring lists "power bi" neither as matched nor as missing for the same description |
| CsvImport.CleanEntry | app/importers/csv_import.py:12 | each key and value is stripped |
| CsvImport.FirstMissingFrom | app/importers/csv_import.py:13-15 | nothing is reported exactly when every required column has a non-empty value; otherwise the first, in `REQUIRED` order, that is empty or absent |
| CsvImport.NoneIfEmpty | app/importers/csv_import.py:20-23 | `value or None` is `None` exactly for `""` and the value otherwise |
| CsvImport.ShapeRow | app/importers/csv_import.py:16-24 | a complete row's four required fields are its non-empty values; `source` defaults to "import"; the description is the row's own, or `""` when absent; `location` and `department` are `None` exactly when missing or empty, and otherwise the stored value |
| CsvImport.ParseCleanRows | app/importers/csv_import.py:10-25 | the loop succeeds exactly when every row is complete, then gives one shaped row per input row, in order; a failure names the first missing column of the first incomplete row |
| CsvImport.ParseJobsCsv | app/importers/csv_import.py:7-25 | for records with distinct raw headers, as `row.items()` gives them, the import succeeds exactly when every cleaned record has all four required values; then it gives one shaped row per record, in order, each valid; a failure names the first missing column of the first incomplete record |
| CsvImport.ShapedRowValid | app/importers/csv_import.py:13-24 | a complete cleaned record holds all four required columns with non-empty values and shapes into a row whose required fields are non-empty, whose texts are stripped and whose optional fields are absent or non-empty |
| CsvImport.CompleteHasRequired | app/importers/csv_import.py:13-15 | a row that passes the required-column check holds a non-empty value for each of the four columns |
| CsvImport.CleanRow | app/importers/csv_import.py:12 | a key is present exactly when some header strips to it, and every key and value is stripped |
| CsvImport.CleanRowLookup | app/importers/csv_import.py:12 | a key is present exactly when some header strips to it, and it holds the stripped value of the last such column |
| CsvImport.MissingValueIsEmpty | app/importers/csv_import.py:12 | a short record's missing value reads exactly like an empty cell |
| Api.KeepNonBlank | app/main.py:25-26 | the kept pieces are a subsequence of the cleaned pieces, with every non-empty cleaned piece as often as it occurs and no empty one |
| Api.CleanPieces | app/main.py:25-26 | the kept pieces are a subsequence of the stripped pieces, each non-empty, with every non-empty stripped piece as often as it occurs |
| Api.SplitClean | app/main.py:25-26 | every piece read back is non-empty, stripped and free of the separator; the pieces are a subsequence of the stripped pieces of the split text, with every non-empty stripped piece as often as it occurs |
| Api.ProfileToDict | app/main.py:24-38 | the scalar fields are copied; skills are the non-empty stripped comma-separated pieces of the stored text, in order, each as often as it occurs, and bullets likewise for lines; a present resume text is copied and a missing one reads `""` |
| Api.MissingListsReadEmpty | app/main.py:25-26 | a profile stored without skills or bullets reads back with empty lists |
| Api.SaveProfile | app/main.py:43-72 | the six scalar fields come from the payload, skills are stored joined by "," and bullets joined by "\n"; an existing row keeps its id and resume text; a new row takes the database's id and has no resume text |
| Api.JoinThenSplitClean | app/main.py:25-54 | joining clean items with the separator and reading them back gives the same list |
| Api.SaveThenReadRoundTrip | app/main.py:25-67 | skills and bullets that are non-empty, stripped and free of their separator read back unchanged after a save, whether the profile existed or not |
| Api.ReadSaveReadStable | app/main.py:24-54 | reading a profile, saving what was read and reading again changes neither list |
| Api.ActiveJobs | app/main.py:190 | the active jobs are a subsequence of the jobs holding exactly the active ones |
| Api.TakeBest | app/main.py:220-221 | Python slice length for every `limit`; non-increasing fit; every job left out fits no better than any job kept; for every fit value the kept jobs are the first input jobs with that fit, in input order |
| Api.PairsSortLikeJobs | app/main.py:220-221 | sorting the `(score, job)` pairs by score lists the jobs exactly as a stable sort of the jobs by fit |
| Api.TopActive | app/main.py:190-221 | the best `limit` active jobs by fit: slice length of the active jobs, each an active input job, non-increasing fit, no left-out active job better than a kept one, ties in query order |
| Api.TopJobs | app/main.py:184-221 | fails exactly when there is no profile; otherwise the best `limit` active jobs by rounded `score_job` fit for that profile, in non-increasing fit, no left-out active job better than a kept one, ties in query order |
| Api.EqualFitKeepsOrder | app/main.py:220-221 | when every job fits equally well, the first `limit` jobs come back in query order |

## Left out

- Scoring.ScoreJob: the total is returned unrounded; `round(..., 2)` is not applied, and the bounds are stated on the unrounded sum.
- Api.TopJobs: the sort key is `round2` of the total, where the parameter `round2` stands for `round(total, 2)` on doubles. Nothing is assumed about it, so every property holds for whatever rounding Python performs; totals that round alike tie and keep query order.
- Floating point: `len(matched) / len(jd_keywords) * 70.0` and the other score arithmetic use exact reals, not IEEE doubles.
- Unicode: `str.lower` is modelled on ASCII letters only. Whitespace (`str.isspace`, `strip` and the regular expression `\s`) is the fixed ASCII set tab, line feed, vertical tab, form feed, carriage return, the four information separators and space. Non-ASCII whitespace and case are not modelled.
- `rapidfuzz.fuzz.token_set_ratio`: it is a foreign library, so it is a parameter. Two of its properties are used, each only as a lemma's hypothesis. The range 0..100 is used where a bound is stated. A score of 0 against the empty string is used by the three empty-description lemmas of `Rewriter`.
- `csv.DictReader`: the tokenisation of the text is not modelled. Records are sequences of (header, optional value) pairs. A record with more fields than the header puts a list under the key `None`, which makes `k.strip()` raise. That case is outside the record type. A header that repeats a raw name gives one dictionary entry, at the first position, holding the last value; records are taken as the items of that dictionary, so `ParseJobsCsv` requires distinct raw headers and the merge itself is not modelled.
- Database and HTTP:
  - The FastAPI routes, SQLAlchemy queries, commits and refreshes of app/main.py are not modelled.
  - The `MatchScore` rows that `top_jobs` writes for each job are not modelled.
  - The id the database assigns to a new profile is a parameter of `SaveProfile`.
  - The HTTP 400/404 errors are the `Err` of a `Result`.
- Not modelled, being I/O, framework glue or declarations without behaviour:
  - PDF resume extraction, the packet and cover-letter files, and `generate_packet`'s use of `safe_slug` for a directory name;
  - app/docgen.py, app/tracker.py, app/sources/greenhouse.py and app/sources/lever.py;
  - app/models.py, app/schemas.py and app/config.py;
  - fix_db.py and scripts/init_db.py.
- Dictionary payloads: `profile.get(...)` and `job.get(...)` with defaults are modelled as total records. A missing key and a present `None` are both `Option.None`. A profile dictionary's `skills` and `truth_bullets` are always lists, as `_profile_to_dict` produces them.
- Utils.RenderTemplate: its contract only says that an empty mapping, or a template without `"{{"`, leaves the template unchanged. The general effect of a sequence of `replace` calls is left unstated. `str(v)` is taken as already applied to the values.
- The fallback in `build_highlights` (app/rewriter.py:35-36) runs only with at least one bullet, and then in two cases: `max_bullets` is 0, or `max_bullets` is at most `-n` for `n` bullets. In both, the fallback returns the normalised bullets of `truth_bullets[:max_bullets]`, and that slice has the same length as `ranked[:max_bullets]`, namely zero. So the fallback runs but never changes the result; `Rewriter.Highlights` and `Rewriter.BuildHighlights` state this.
