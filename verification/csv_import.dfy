/** Row validation and shaping of the CSV job import
    (app/importers/csv_import.py). Each row arrives already tokenised as
    `row.items()` of the dictionary `csv.DictReader` yields: `(header, value)`
    pairs with distinct raw headers, in header order; a value is `None` when
    the record is shorter than the header. */
module CsvImport {
  import opened Wrappers
  import opened Seqs
  import opened Text

  type CsvRow = seq<(string, Option<string>)>

  /** No raw header occurs twice, as in the items of a dictionary. */
  predicate DistinctHeaders(row: CsvRow)
  {
    forall i, j :: 0 <= i < j < |row| ==> row[i].0 != row[j].0
  }

  /** `REQUIRED` */
  const Required: seq<string> := ["source", "company", "title", "url"]

  datatype CsvError = MissingRequiredColumn(column: string)

  /** One job dictionary appended by `parse_jobs_csv`. */
  datatype JobRow = JobRow(
    source: string,
    company: string,
    title: string,
    location: Option<string>,
    url: string,
    description: string,
    department: Option<string>)

  type Entry = (string, Option<string>)

  /** One stripped `(key, value)` pair; a missing value reads as `""`. */
  function CleanEntry(e: Entry): (c: (string, string))
    ensures Trimmed(c.0) && Trimmed(c.1)
  {
    (Strip(e.0), Strip(OrEmpty(e.1)))
  }

  /** A dictionary comprehension over `row` with `entry` computing each
      `key: value`; later pairs overwrite earlier ones. */
  function DictOf(row: CsvRow, entry: Entry -> (string, string)): map<string, string>
  {
    if |row| == 0 then map[]
    else DictOf(row[..|row| - 1], entry)[entry(row[|row| - 1]).0 := entry(row[|row| - 1]).1]
  }

  /** `{k.strip(): (v or "").strip() for k, v in row.items()}`: keys and
      values stripped; a later column wins when two keys strip alike. A key
      is present exactly when some header strips to it. */
  function CleanRow(row: CsvRow): (m: map<string, string>)
    ensures forall k :: k in m <==> exists i :: 0 <= i < |row| && Strip(row[i].0) == k
    ensures forall k :: k in m ==> Trimmed(k) && Trimmed(m[k])
  {
    var m := DictOf(row, CleanEntry);
    forall k ensures (k in m <==> exists i :: 0 <= i < |row| && Strip(row[i].0) == k)
      && (k in m ==> Trimmed(k) && Trimmed(m[k]))
    {
      DictOfLookup(row, CleanEntry, k);
      if k in m {
        var i :| LastWithKey(row, CleanEntry, k, i) && m[k] == CleanEntry(row[i]).1;
      }
    }
    m
  }

  /** `r.get(k, default)` */
  function Get(m: map<string, string>, k: string, default: string): string
  {
    if k in m then m[k] else default
  }

  /** The first required column, in `REQUIRED` order, whose value is missing
      or empty. */
  function FirstMissingFrom(m: map<string, string>, reqs: seq<string>): (r: Option<string>)
    ensures r == None <==> forall i :: 0 <= i < |reqs| ==> Get(m, reqs[i], "") != ""
    ensures r.Some? ==> exists i :: 0 <= i < |reqs| && r.value == reqs[i] && Get(m, reqs[i], "") == ""
                                   && forall j :: 0 <= j < i ==> Get(m, reqs[j], "") != ""
  {
    if |reqs| == 0 then None
    else if Get(m, reqs[0], "") == "" then Some(reqs[0])
    else
      FirstMissingFrom(m, reqs[1..])
  }

  function FirstMissing(m: map<string, string>): Option<string>
  {
    FirstMissingFrom(m, Required)
  }

  predicate RowComplete(m: map<string, string>)
  {
    FirstMissing(m) == None
  }

  /** `value or None` */
  function NoneIfEmpty(s: string): (r: Option<string>)
    ensures r == None <==> s == ""
    ensures r.Some? ==> r.value == s
  {
    if s == "" then None else Some(s)
  }

  /** The dictionary built from one cleaned row: a complete row's four
      required fields are its non-empty values, `source` defaults to
      "import", the description is the row's own or empty, and `location`
      and `department` are `None` exactly when missing or empty. */
  function ShapeRow(m: map<string, string>): (j: JobRow)
    ensures RowComplete(m) ==> && j.source == Get(m, "source", "") && j.company == Get(m, "company", "")
                               && j.title == Get(m, "title", "") && j.url == Get(m, "url", "")
    ensures RowComplete(m) ==> j.source != "" && j.company != "" && j.title != "" && j.url != ""
    ensures "source" !in m ==> j.source == "import"
    ensures j.location == None <==> Get(m, "location", "") == ""
    ensures j.location.Some? ==> "location" in m && j.location.value == m["location"]
    ensures j.department == None <==> Get(m, "department", "") == ""
    ensures j.department.Some? ==> "department" in m && j.department.value == m["department"]
    ensures "description" in m ==> j.description == m["description"]
    ensures "description" !in m ==> j.description == ""
  {
    assert Required[0] == "source" && Required[1] == "company" && Required[2] == "title" && Required[3] == "url";
    JobRow(
      Get(m, "source", "import"),
      Get(m, "company", ""),
      Get(m, "title", ""),
      NoneIfEmpty(Get(m, "location", "")),
      Get(m, "url", ""),
      Get(m, "description", ""),
      NoneIfEmpty(Get(m, "department", "")))
  }

  /** Row `i` is the first incomplete row and `column` its first missing
      required column. */
  predicate FailsFirstAt(ms: seq<map<string, string>>, i: int, column: string)
  {
    && 0 <= i < |ms|
    && (forall j :: 0 <= j < i ==> RowComplete(ms[j]))
    && FirstMissing(ms[i]) == Some(column)
  }

  /** The four required fields are non-empty and every text is stripped. */
  ghost predicate ValidJobRow(j: JobRow)
  {
    && j.source != "" && j.company != "" && j.title != "" && j.url != ""
    && Trimmed(j.source) && Trimmed(j.company) && Trimmed(j.title) && Trimmed(j.url)
    && Trimmed(j.description)
    && (j.location.Some? ==> Trimmed(j.location.value) && j.location.value != "")
    && (j.department.Some? ==> Trimmed(j.department.value) && j.department.value != "")
  }

  /** The loop of `parse_jobs_csv` over already cleaned rows: the first row
      lacking a required value aborts the import, naming the first such
      column; otherwise every row is shaped, in order. */
  method ParseCleanRows(ms: seq<map<string, string>>) returns (r: Result<seq<JobRow>, CsvError>)
    ensures r.Ok? <==> forall i :: 0 <= i < |ms| ==> RowComplete(ms[i])
    ensures r.Ok? ==> |r.value| == |ms|
    ensures r.Ok? ==> forall i :: 0 <= i < |ms| ==> r.value[i] == ShapeRow(ms[i])
    ensures r.Err? ==> exists i :: FailsFirstAt(ms, i, r.error.column)
  {
    var out: seq<JobRow> := [];
    var i := 0;
    while i < |ms|
      invariant 0 <= i <= |ms| && |out| == i
      invariant forall j :: 0 <= j < i ==> RowComplete(ms[j])
      invariant forall j :: 0 <= j < i ==> out[j] == ShapeRow(ms[j])
    {
      var missing := FirstMissing(ms[i]);
      if missing.Some? {
        assert FailsFirstAt(ms, i, missing.value);
        return Err(MissingRequiredColumn(missing.value));
      }
      out := out + [ShapeRow(ms[i])];
      i := i + 1;
    }
    return Ok(out);
  }

  /** `parse_jobs_csv` over tokenised records. */
  method ParseJobsCsv(rows: seq<CsvRow>) returns (r: Result<seq<JobRow>, CsvError>)
    requires forall i :: 0 <= i < |rows| ==> DistinctHeaders(rows[i])
    ensures r.Ok? <==> forall i :: 0 <= i < |rows| ==> RowComplete(CleanRow(rows[i]))
    ensures r.Ok? ==> |r.value| == |rows|
    ensures r.Ok? ==> forall i :: 0 <= i < |rows| ==> r.value[i] == ShapeRow(CleanRow(rows[i]))
    ensures r.Err? ==> exists i :: FailsFirstAt(MapSeq(CleanRow, rows), i, r.error.column)
    ensures r.Ok? ==> forall i :: 0 <= i < |r.value| ==> ValidJobRow(r.value[i])
  {
    r := ParseCleanRows(MapSeq(CleanRow, rows));
    if r.Ok? {
      forall i | 0 <= i < |r.value| ensures ValidJobRow(r.value[i]) {
        ShapedRowValid(rows[i]);
      }
    }
  }

  /** A complete cleaned record holds every required column with a
      non-empty value, and shapes into a valid row: required fields non-empty,
      every text stripped, optional fields absent or non-empty. */
  lemma ShapedRowValid(row: CsvRow)
    requires RowComplete(CleanRow(row))
    ensures ValidJobRow(ShapeRow(CleanRow(row)))
    ensures forall k :: k in Required ==> k in CleanRow(row) && CleanRow(row)[k] != ""
  {
    var m := CleanRow(row);
    ShapedValid(m);
  }

  /** A complete dictionary of stripped keys and values shapes into a valid
      row. */
  lemma ShapedValid(m: map<string, string>)
    requires RowComplete(m)
    requires forall k :: k in m ==> Trimmed(k) && Trimmed(m[k])
    ensures ValidJobRow(ShapeRow(m))
  {
    var j := ShapeRow(m);
    CompleteHasRequired(m);
    assert Trimmed(j.description);
  }

  /** A complete dictionary holds a non-empty value for every required
      column. */
  lemma CompleteHasRequired(m: map<string, string>)
    requires RowComplete(m)
    ensures forall k :: k in Required ==> k in m && m[k] != ""
  {
    assert Required[0] == "source" && Required[1] == "company" && Required[2] == "title" && Required[3] == "url";
  }

  /** Pair `i` is the last whose key is `k`. */
  predicate LastWithKey(row: CsvRow, entry: Entry -> (string, string), k: string, i: int)
  {
    && 0 <= i < |row|
    && entry(row[i]).0 == k
    && forall j :: i < j < |row| ==> entry(row[j]).0 != k
  }

  lemma {:induction false} DictOfLookup(row: CsvRow, entry: Entry -> (string, string), k: string)
    ensures k in DictOf(row, entry) <==> exists i :: 0 <= i < |row| && entry(row[i]).0 == k
    ensures k in DictOf(row, entry) ==>
      exists i :: LastWithKey(row, entry, k, i) && DictOf(row, entry)[k] == entry(row[i]).1
  {
    if |row| > 0 {
      var n := |row| - 1;
      var init := row[..n];
      DictOfLookup(init, entry, k);
      if entry(row[n]).0 == k {
        assert LastWithKey(row, entry, k, n);
      } else if k in DictOf(row, entry) {
        var i :| LastWithKey(init, entry, k, i) && DictOf(init, entry)[k] == entry(init[i]).1;
        assert init[i] == row[i];
        assert LastWithKey(row, entry, k, i);
      } else {
        forall i | 0 <= i < |row| ensures entry(row[i]).0 != k {
          if i < n {
            assert init[i] == row[i];
          }
        }
      }
    }
  }

  /** Which value a key ends up with: a key is present exactly when some
      header strips to it, and then it holds the stripped value of the last
      such column. */
  lemma CleanRowLookup(row: CsvRow, k: string)
    ensures k in CleanRow(row) <==> exists i :: 0 <= i < |row| && Strip(row[i].0) == k
    ensures k in CleanRow(row) ==>
      exists i :: LastWithKey(row, CleanEntry, k, i) && CleanRow(row)[k] == Strip(OrEmpty(row[i].1))
  {
    DictOfLookup(row, CleanEntry, k);
  }

  /** Records whose pairs produce the same entries produce the same
      dictionary. */
  lemma {:induction false} DictOfSameEntries(row: CsvRow, row': CsvRow, entry: Entry -> (string, string))
    requires |row| == |row'|
    requires forall i :: 0 <= i < |row| ==> entry(row[i]) == entry(row'[i])
    ensures DictOf(row, entry) == DictOf(row', entry)
  {
    if |row| > 0 {
      var n := |row| - 1;
      DictOfSameEntries(row[..n], row'[..n], entry);
      assert entry(row[n]) == entry(row'[n]);
    }
  }

  /** Replacing one pair by another that produces the same entry leaves the
      dictionary as it was. */
  lemma DictOfReplace(row: CsvRow, i: nat, e: Entry, entry: Entry -> (string, string))
    requires i < |row| && entry(e) == entry(row[i])
    ensures DictOf(row[i := e], entry) == DictOf(row, entry)
  {
    DictOfSameEntries(row[i := e], row, entry);
  }

  /** A short record's missing value (`None`) reads exactly like an empty
      cell. */
  lemma MissingValueIsEmpty(row: CsvRow, i: nat)
    requires i < |row| && row[i].1 == None
    ensures CleanRow(row[i := (row[i].0, Some(""))]) == CleanRow(row)
  {
    var e := (row[i].0, Some(""));
    assert OrEmpty(e.1) == OrEmpty(row[i].1);
    assert CleanEntry(e) == CleanEntry(row[i]);
    DictOfReplace(row, i, e, CleanEntry);
  }
}
