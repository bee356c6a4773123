/** Character and string primitives the Python code takes from `str` and `re`:
    whitespace, ASCII lower-casing, `strip`, substring search, `split`/`join` on
    one separator character, and `replace`. */
module Text {
  import opened Wrappers

  /** Python's `t or ""` for a string that may be `None`. */
  function OrEmpty(t: Option<string>): string
  {
    match t
    case None => ""
    case Some(s) => s
  }

  /** The ASCII characters for which Python's `str.isspace` holds (and which
      the regular expression class `\s` matches): tab, line feed, vertical tab,
      form feed, carriage return, the four information separators and space. */
  predicate IsSpace(c: char)
  {
    c == ' ' || '\t' <= c <= '\r' || '\U{1C}' <= c <= '\U{1F}'
  }

  function LowerChar(c: char): char
  {
    if 'A' <= c <= 'Z' then (c as int + 32) as char else c
  }

  /** `str.lower`, restricted to ASCII letters: no capital remains, each
      capital becomes the small letter 32 code points above it, and every
      other character is kept. */
  function Lower(s: string): (r: string)
    ensures |r| == |s|
    ensures NoCapitals(r)
    ensures forall i :: 0 <= i < |s| && 'A' <= s[i] <= 'Z' ==> 'a' <= r[i] <= 'z' && r[i] as int == s[i] as int + 32
    ensures forall i :: 0 <= i < |s| && !('A' <= s[i] <= 'Z') ==> r[i] == s[i]
  {
    seq(|s|, i requires 0 <= i < |s| => LowerChar(s[i]))
  }

  /** No ASCII capital letter occurs in `s`. */
  predicate NoCapitals(s: string)
  {
    forall i :: 0 <= i < |s| ==> !('A' <= s[i] <= 'Z')
  }

  /** Text without capital letters is its own lower case. */
  lemma LowerOfNoCapitals(s: string)
    requires NoCapitals(s)
    ensures Lower(s) == s
  {
  }

  lemma LowerIdempotent(s: string)
    ensures Lower(Lower(s)) == Lower(s)
  {
  }

  /** Lower-casing never creates nor removes whitespace. */
  lemma LowerKeepsSpaces(s: string)
    ensures forall i :: 0 <= i < |s| ==> (IsSpace(Lower(s)[i]) <==> IsSpace(s[i]))
  {
  }

  /** `str.lstrip()` */
  function LStrip(s: string): (r: string)
    ensures |r| <= |s| && r == s[|s| - |r|..]
    ensures |r| == 0 || !IsSpace(r[0])
    ensures forall i :: 0 <= i < |s| - |r| ==> IsSpace(s[i])
  {
    if |s| > 0 && IsSpace(s[0]) then LStrip(s[1..]) else s
  }

  /** `str.rstrip()` */
  function RStrip(s: string): (r: string)
    ensures |r| <= |s| && r == s[..|r|]
    ensures |r| == 0 || !IsSpace(r[|r| - 1])
    ensures forall i :: |r| <= i < |s| ==> IsSpace(s[i])
  {
    if |s| > 0 && IsSpace(s[|s| - 1]) then RStrip(s[..|s| - 1]) else s
  }

  /** No whitespace at either end. */
  ghost predicate Trimmed(s: string)
  {
    |s| == 0 || (!IsSpace(s[0]) && !IsSpace(s[|s| - 1]))
  }

  /** Where `str.strip()` starts cutting: the length of the leading whitespace. */
  function StripStart(s: string): nat
  {
    |s| - |LStrip(s)|
  }

  /** `str.strip()`: the result is a contiguous piece of `s` with no
      whitespace at its ends, and everything cut off is whitespace. */
  function Strip(s: string): (r: string)
    ensures Trimmed(r)
    ensures StripStart(s) + |r| <= |s| && r == s[StripStart(s)..StripStart(s) + |r|]
    ensures forall i :: 0 <= i < StripStart(s) ==> IsSpace(s[i])
    ensures forall i :: StripStart(s) + |r| <= i < |s| ==> IsSpace(s[i])
  {
    var l := LStrip(s);
    var r := RStrip(l);
    InnerPiece(s, l, r);
    assert |r| > 0 ==> r[0] == l[0];
    r
  }

  /** A prefix `r` of a suffix `l` of `s` is a slice of `s`; when what `r`
      leaves of `l` is whitespace, so is everything after the slice. */
  lemma InnerPiece(s: string, l: string, r: string)
    requires |l| <= |s| && l == s[|s| - |l|..]
    requires |r| <= |l| && r == l[..|r|]
    requires forall j :: |r| <= j < |l| ==> IsSpace(l[j])
    ensures r == s[|s| - |l|..|s| - |l| + |r|]
    ensures forall i :: |s| - |l| + |r| <= i < |s| ==> IsSpace(s[i])
  {
    var k := |s| - |l|;
    forall i | k + |r| <= i < |s| ensures IsSpace(s[i]) {
      assert s[i] == l[i - k];
    }
  }

  /** Stripping removes a single leading space from trimmed text. */
  lemma StripLeadingSpace(s: string)
    requires Trimmed(s)
    ensures Strip([' '] + s) == s
  {
    assert ([' '] + s)[1..] == s;
    assert LStrip([' '] + s) == LStrip(s);
  }

  lemma StripOfTrimmed(s: string)
    requires Trimmed(s)
    ensures Strip(s) == s
  {
  }

  /** Stripping text without capitals leaves none. */
  lemma StripKeepsNoCapitals(s: string)
    requires NoCapitals(s)
    ensures NoCapitals(Strip(s))
  {
    var r := Strip(s);
    var a := StripStart(s);
    SliceNoCapitals(s, a, a + |r|);
  }

  lemma SliceNoCapitals(s: string, a: nat, b: nat)
    requires a <= b <= |s| && NoCapitals(s)
    ensures NoCapitals(s[a..b])
  {
    assert forall j :: 0 <= j < b - a ==> s[a..b][j] == s[a + j];
  }

  lemma StripIdempotent(s: string)
    ensures Strip(Strip(s)) == Strip(s)
  {
    StripOfTrimmed(Strip(s));
  }

  /** Stripping keeps only characters of its input. */
  lemma StripMembers(s: string, c: char)
    requires c in Strip(s)
    ensures c in s
  {
    var r := Strip(s);
    var i :| 0 <= i < |r| && r[i] == c;
    assert s[StripStart(s) + i] == c;
  }

  /** A string that is empty or all whitespace strips to "". */
  lemma StripEmptyIffBlank(s: string)
    ensures Strip(s) == "" <==> forall i :: 0 <= i < |s| ==> IsSpace(s[i])
  {
    var r := Strip(s);
    if r != "" {
      assert !IsSpace(s[StripStart(s)]);
    }
  }

  /** `k` occurs in `text` starting at position `i`. */
  predicate OccursAt(text: string, k: string, i: int)
  {
    0 <= i && i + |k| <= |text| && text[i..i + |k|] == k
  }

  /** Python's `k in text` for strings: `k` is a substring of `text`. */
  predicate Contains(text: string, k: string)
    decreases |text|
  {
    k <= text || (|text| > 0 && Contains(text[1..], k))
  }

  lemma {:induction false} ContainsOccurs(text: string, k: string)
    requires Contains(text, k)
    ensures exists i :: OccursAt(text, k, i)
    decreases |text|
  {
    if k <= text {
      assert OccursAt(text, k, 0);
    } else {
      ContainsOccurs(text[1..], k);
      var i :| OccursAt(text[1..], k, i);
      assert text[i + 1..i + 1 + |k|] == text[1..][i..i + |k|];
      assert OccursAt(text, k, i + 1);
    }
  }

  lemma {:induction false} OccursContains(text: string, k: string, i: int)
    requires OccursAt(text, k, i)
    ensures Contains(text, k)
    decreases i
  {
    if i > 0 {
      assert text[1..][i - 1..i - 1 + |k|] == text[i..i + |k|];
      OccursContains(text[1..], k, i - 1);
    }
  }

  lemma ContainsIffOccurs(text: string, k: string)
    ensures Contains(text, k) <==> exists i :: OccursAt(text, k, i)
  {
    if Contains(text, k) {
      ContainsOccurs(text, k);
    }
    if exists i :: OccursAt(text, k, i) {
      var i :| OccursAt(text, k, i);
      OccursContains(text, k, i);
    }
  }

  /** A substring of a substring is a substring. */
  lemma ContainsTrans(text: string, k: string, k': string)
    requires Contains(text, k) && Contains(k, k')
    ensures Contains(text, k')
  {
    ContainsIffOccurs(text, k);
    ContainsIffOccurs(k, k');
    var i :| OccursAt(text, k, i);
    var j :| OccursAt(k, k', j);
    assert forall m :: 0 <= m < |k'| ==> k'[m] == k[j + m] == text[i + j + m];
    assert text[i + j..i + j + |k'|] == k';
    assert OccursAt(text, k', i + j);
    ContainsIffOccurs(text, k');
  }

  /** A substring is never longer than the text. */
  lemma {:induction false} ContainsNeedsRoom(text: string, k: string)
    ensures Contains(text, k) ==> |k| <= |text|
    decreases |text|
  {
    if |text| > 0 {
      ContainsNeedsRoom(text[1..], k);
    }
  }

  /** A substring as long as the text is the text itself. */
  lemma ContainsSameLength(text: string, k: string)
    requires |text| == |k|
    ensures Contains(text, k) <==> text == k
  {
    if |text| > 0 {
      ContainsNeedsRoom(text[1..], k);
    }
  }

  /** Only the empty string occurs in the empty string. */
  lemma ContainsInEmpty(k: string)
    ensures Contains("", k) <==> k == ""
  {
  }

  /** Python's `s.split(sep)` for a one-character separator: the pieces between
      separators, including empty ones; never an empty list. */
  function Split(s: string, sep: char): (r: seq<string>)
    ensures |r| > 0
    ensures forall i :: 0 <= i < |r| ==> sep !in r[i]
  {
    if |s| == 0 then [""]
    else
      var rest := Split(s[1..], sep);
      if s[0] == sep then [""] + rest
      else [[s[0]] + rest[0]] + rest[1..]
  }

  /** The combined length of the pieces. */
  function TotalLength(xs: seq<string>): nat
  {
    if |xs| == 0 then 0 else |xs[0]| + TotalLength(xs[1..])
  }

  /** Python's `sep.join(xs)` for a one-character separator: the first piece
      comes first, and the pieces are all there with one separator between
      each two. */
  function Join(xs: seq<string>, sep: char): (r: string)
    ensures |xs| > 0 ==> |r| == TotalLength(xs) + |xs| - 1
    ensures |xs| == 0 ==> r == ""
    ensures |xs| > 0 ==> xs[0] <= r
  {
    if |xs| == 0 then ""
    else if |xs| == 1 then xs[0]
    else xs[0] + [sep] + Join(xs[1..], sep)
  }

  lemma {:induction false} SplitNoSep(a: string, sep: char)
    requires sep !in a
    ensures Split(a, sep) == [a]
  {
    if |a| > 0 {
      SplitNoSep(a[1..], sep);
      assert [a[0]] + a[1..] == a;
    }
  }

  lemma {:induction false} SplitAfterPiece(a: string, sep: char, b: string)
    requires sep !in a
    ensures Split(a + [sep] + b, sep) == [a] + Split(b, sep)
  {
    if |a| == 0 {
      assert a + [sep] + b == [sep] + b;
      assert ([sep] + b)[1..] == b;
    } else {
      var s := a + [sep] + b;
      assert s[1..] == a[1..] + [sep] + b;
      SplitAfterPiece(a[1..], sep, b);
      assert [a[0]] + a[1..] == a;
    }
  }

  /** Splitting what was joined gives the pieces back, provided no piece
      contains the separator and there is at least one piece. */
  lemma {:induction false} SplitJoin(xs: seq<string>, sep: char)
    requires |xs| > 0
    requires forall i :: 0 <= i < |xs| ==> sep !in xs[i]
    ensures Split(Join(xs, sep), sep) == xs
  {
    if |xs| == 1 {
      SplitNoSep(xs[0], sep);
    } else {
      SplitJoin(xs[1..], sep);
      SplitAfterPiece(xs[0], sep, Join(xs[1..], sep));
      assert [xs[0]] + xs[1..] == xs;
    }
  }

  lemma JoinConsChar(c: char, x: string, ys: seq<string>, sep: char)
    ensures Join([[c] + x] + ys, sep) == [c] + Join([x] + ys, sep)
  {
    if |ys| > 0 {
      assert ([[c] + x] + ys)[1..] == ys;
      assert ([x] + ys)[1..] == ys;
    }
  }

  /** Joining the pieces of a split gives the text back. */
  lemma {:induction false} JoinSplit(s: string, sep: char)
    ensures Join(Split(s, sep), sep) == s
  {
    if |s| > 0 {
      var rest := Split(s[1..], sep);
      JoinSplit(s[1..], sep);
      if s[0] == sep {
        assert ([""] + rest)[1..] == rest;
        assert [s[0]] + s[1..] == s;
      } else {
        assert [rest[0]] + rest[1..] == rest;
        JoinConsChar(s[0], rest[0], rest[1..], sep);
        assert [s[0]] + s[1..] == s;
      }
    }
  }

  /** Python's `s.replace(pat, rep)` for a non-empty pattern: every
      occurrence, scanning left to right without overlaps, is replaced. A
      pattern that does not occur, or a pattern replaced by itself, leaves the
      string unchanged; a replacement as long as the pattern keeps the length. */
  function ReplaceAll(s: string, pat: string, rep: string): (r: string)
    requires |pat| > 0
    ensures !Contains(s, pat) ==> r == s
    ensures rep == pat ==> r == s
    ensures |rep| == |pat| ==> |r| == |s|
    decreases |s|
  {
    if |s| < |pat| then s
    else if s[..|pat|] == pat then
      assert Contains(s, pat);
      assert s[..|pat|] + s[|pat|..] == s;
      rep + ReplaceAll(s[|pat|..], pat, rep)
    else
      assert Contains(s[1..], pat) ==> Contains(s, pat);
      assert [s[0]] + s[1..] == s;
      [s[0]] + ReplaceAll(s[1..], pat, rep)
  }

  /** The scan replaces the leftmost occurrence first: when `pat` does not
      occur in `a`, not even straddling into the occurrence that follows it,
      the text before that occurrence is kept, the occurrence becomes `rep`,
      and the scan carries on after it. */
  lemma {:induction false} ReplaceLeftmost(a: string, pat: string, b: string, rep: string)
    requires |pat| > 0
    requires !Contains(a + pat[..|pat| - 1], pat)
    ensures ReplaceAll(a + pat + b, pat, rep) == a + rep + ReplaceAll(b, pat, rep)
    decreases |a|
  {
    var s := a + pat + b;
    if |a| == 0 {
      assert s == pat + b;
      assert s[..|pat|] == pat && s[|pat|..] == b;
      assert a + rep == rep;
    } else {
      var t := a + pat[..|pat| - 1];
      assert s[..|pat|] == t[..|pat|];
      assert pat <= t ==> Contains(t, pat);
      assert s[..|pat|] != pat;
      assert t[1..] == a[1..] + pat[..|pat| - 1];
      assert Contains(t[1..], pat) ==> Contains(t, pat);
      ReplaceLeftmost(a[1..], pat, b, rep);
      assert s[1..] == a[1..] + pat + b;
      var tail := ReplaceAll(b, pat, rep);
      assert a + rep + tail == [a[0]] + (a[1..] + rep + tail);
    }
  }
}
