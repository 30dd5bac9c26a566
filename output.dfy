/**
 * The pure part of `save_to_csv`: the record dictionaries become a table whose
 * columns are selected in a fixed order and renamed, and the file name is
 * derived from the search term. Writing the file is not modelled.
 */
module Output {
  import opened Text
  import opened Dom

  /** The dictionary keys, in the order the columns are selected. */
  const ColumnKeys: seq<string> := ["title", "company", "location", "date_posted"]

  /** The header each selected column is renamed to, position for position. */
  const ColumnHeaders: seq<string> := ["Job Title", "Company", "Location", "Date Posted"]

  /** The `job_info` dictionary of a record: exactly the four keys. */
  function AsDict(r: JobRecord): (d: map<string, string>)
    ensures d.Keys == set k | k in ColumnKeys
  {
    map["title" := r.title, "company" := r.company, "location" := r.location, "date_posted" := r.datePosted]
  }

  /** One table row: the dictionary's values looked up by the selected keys, in column order. */
  function Row(r: JobRecord): (row: seq<string>)
    ensures |row| == |ColumnKeys|
  {
    var d := AsDict(r);
    seq(|ColumnKeys|, i requires 0 <= i < |ColumnKeys| => d[ColumnKeys[i]])
  }

  /** The record a row was made from, read back by position. */
  function FromRow(row: seq<string>): (r: Option<JobRecord>)
    ensures r.Some? <==> |row| == |ColumnKeys|
  {
    if |row| == |ColumnKeys| then Some(JobRecord(row[0], row[1], row[2], row[3])) else None
  }

  /** The table as written: the renamed header line and one row per record. */
  datatype Table = Table(header: seq<string>, rows: seq<seq<string>>)

  /** The table `save_to_csv` writes; `None` when there are no records and nothing is written. */
  function CsvTable(jobs: seq<JobRecord>): Option<Table> {
    if jobs == [] then None
    else Some(Table(ColumnHeaders, seq(|jobs|, i requires 0 <= i < |jobs| => Row(jobs[i]))))
  }

  const FilenamePrefix := "job_details_"
  const FilenameSuffix := ".csv"

  /** The file name: the search term with every space turned into `_`, between a fixed prefix and suffix. */
  function CsvFilename(term: string): string {
    FilenamePrefix + ReplaceChar(term, ' ', '_') + FilenameSuffix
  }

  // ---------------------------------------------------------------- lemmas

  /** The columns come out as title, company, location, date posted, whatever order the dictionary holds them in. */
  lemma RowOrder(r: JobRecord)
    ensures Row(r) == [r.title, r.company, r.location, r.datePosted]
  {
  }

  /** A row holds the whole record: reading it back by position gives the record again. */
  lemma RowRoundTrip(r: JobRecord)
    ensures FromRow(Row(r)) == Some(r)
  {
    RowOrder(r);
  }

  /** A table is written exactly when there are records; it has one row per record, in order, and each row reads back as its record. */
  lemma TableShape(jobs: seq<JobRecord>)
    ensures CsvTable(jobs).None? <==> jobs == []
    ensures CsvTable(jobs).Some? ==>
      var t := CsvTable(jobs).value;
      t.header == ColumnHeaders && |t.rows| == |jobs|
      && forall i :: 0 <= i < |jobs| ==> FromRow(t.rows[i]) == Some(jobs[i])
  {
    if jobs != [] {
      var t := CsvTable(jobs).value;
      forall i | 0 <= i < |jobs| ensures FromRow(t.rows[i]) == Some(jobs[i]) {
        RowRoundTrip(jobs[i]);
      }
    }
  }

  /** The name starts with the prefix, ends with `.csv`, has no space, and keeps the term's length in between. */
  lemma FilenameShape(term: string)
    ensures var name := CsvFilename(term);
      |name| == |FilenamePrefix| + |term| + |FilenameSuffix|
      && name[..|FilenamePrefix|] == FilenamePrefix
      && name[|name| - |FilenameSuffix|..] == FilenameSuffix
      && ' ' !in name
  {
    var name := CsvFilename(term);
    var middle := ReplaceChar(term, ' ', '_');
    ReplaceCharInverse(term, ' ', '_');
    assert name == FilenamePrefix + middle + FilenameSuffix;
    forall k | 0 <= k < |name| ensures name[k] != ' ' {
      if k < |FilenamePrefix| {
        assert name[k] == FilenamePrefix[k];
      } else if k < |FilenamePrefix| + |middle| {
        assert name[k] == middle[k - |FilenamePrefix|];
      } else {
        assert name[k] == FilenameSuffix[k - |FilenamePrefix| - |middle|];
      }
    }
  }

  /** The part of a file name between prefix and suffix. */
  function TermPart(name: string): string
    requires |name| >= |FilenamePrefix| + |FilenameSuffix|
  {
    name[|FilenamePrefix|..|name| - |FilenameSuffix|]
  }

  /** A term without underscores is recovered from its file name by turning `_` back into spaces. */
  lemma FilenameRecoversTerm(term: string)
    requires '_' !in term
    ensures ReplaceChar(TermPart(CsvFilename(term)), '_', ' ') == term
  {
    var middle := ReplaceChar(term, ' ', '_');
    assert TermPart(CsvFilename(term)) == middle;
    ReplaceCharInverse(term, ' ', '_');
  }

  /** Among terms without underscores, distinct terms get distinct file names. */
  lemma FilenameInjective(a: string, b: string)
    requires '_' !in a && '_' !in b
    requires CsvFilename(a) == CsvFilename(b)
    ensures a == b
  {
    FilenameRecoversTerm(a);
    FilenameRecoversTerm(b);
  }

  /**
   * An example: a space and an underscore are not told apart, so two different
   * terms share one file. The two terms are pinned by `requires`, not written
   * into the `ensures`.
   */
  lemma FilenameCollision(a: string, b: string)
    requires a == "data analyst" && b == "data_analyst"
    ensures a != b && CsvFilename(a) == CsvFilename(b)
  {
    assert a[4] != b[4];
    assert ReplaceChar(a, ' ', '_') == b;
    assert ReplaceChar(b, ' ', '_') == b;
  }
}
