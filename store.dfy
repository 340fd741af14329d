/**
 * Reading the sheet back as records, as the store's `get_all_records` does
 * for the scraper at scraper_to_sheets.py line 56: the first row is the
 * header, and every later row becomes a mapping from header names to its
 * cells, padded with "" when the row is short.  Cells are read back exactly
 * as they were written.  With it, the append step and the deduplication
 * index can be related across two runs.
 */
module Store {
  import opened Wrappers
  import opened Text
  import opened Articles
  import opened Dedup
  import opened Sheet
  import opened Ingest

  /** One row zipped with the header; a later repeat of a name overrides an earlier one. */
  function ZipRecord(header: seq<string>, row: seq<string>): Record
    decreases |header|
  {
    if header == [] then map[]
    else
      var cell := if row == [] then "" else row[0];
      map[header[0] := cell] + ZipRecord(header[1..], if row == [] then [] else row[1..])
  }

  /** A record has a key exactly for each header name, whatever the length of the row. */
  lemma {:induction false} ZipRecordKeys(header: seq<string>, row: seq<string>)
    ensures forall k :: k in ZipRecord(header, row) <==> k in header
    decreases |header|
  {
    if header != [] {
      ZipRecordKeys(header[1..], if row == [] then [] else row[1..]);
      assert forall k :: k in header <==> k == header[0] || k in header[1..];
    }
  }

  /** Every row below the header, as a record; an empty sheet has no records. */
  function RecordsOf(values: seq<seq<string>>): (records: seq<Record>)
    ensures values != [] ==> |records| == |values| - 1
  {
    if values == [] then []
    else seq(|values| - 1, i requires 0 <= i < |values| - 1 => ZipRecord(values[0], values[i + 1]))
  }

  /** The record at position `k` is row `k + 1` zipped with the header. */
  lemma RecordsOfAt(values: seq<seq<string>>, k: nat)
    requires k + 1 < |values|
    ensures ZipRecord(values[0], values[k + 1]) == RecordsOf(values)[k]
  {
    var zip := i requires 0 <= i < |values| - 1 => ZipRecord(values[0], values[i + 1]);
    assert RecordsOf(values) == seq(|values| - 1, zip);
  }

  ghost predicate Distinct(keys: seq<string>)
  {
    forall a, b :: 0 <= a < b < |keys| ==> keys[a] != keys[b]
  }

  /** Under a header without repeats, each header name reads back the cell in its column. */
  lemma {:induction false} ZipRecordCells(header: seq<string>, row: seq<string>)
    requires Distinct(header) && |row| == |header|
    ensures forall j :: 0 <= j < |header| ==> Cell(ZipRecord(header, row), header[j]) == row[j]
    decreases |header|
  {
    if header != [] {
      var rest := ZipRecord(header[1..], row[1..]);
      ZipRecordCells(header[1..], row[1..]);
      ZipRecordKeys(header[1..], row[1..]);
      forall j | 0 <= j < |header|
        ensures Cell(ZipRecord(header, row), header[j]) == row[j]
      {
        if j == 0 {
          assert forall k :: 0 <= k < |header[1..]| ==> header[1..][k] != header[0];
        } else {
          assert header[1..][j - 1] == header[j] && row[1..][j - 1] == row[j];
        }
      }
    }
  }

  /** A mention's row, read back under the fixed header, gives back each of its columns. */
  lemma RowReadsBack(m: Mention)
    ensures Cell(ZipRecord(Headers, Row(m)), "title") == m.title
    ensures Cell(ZipRecord(Headers, Row(m)), "published") == m.published
    ensures Cell(ZipRecord(Headers, Row(m)), "link") == m.link
  {
    var row := Row(m);
    assert Distinct(Headers);
    ZipRecordCells(Headers, row);
    assert Headers[0] == "title" && row[0] == m.title;
    assert Headers[1] == "published" && row[1] == m.published;
    assert Headers[4] == "link" && row[4] == m.link;
  }

  /** An append keeps every record read back before it, whatever the sheet's first row holds. */
  lemma OldRecordsSurvive(values: seq<seq<string>>, newRows: seq<seq<string>>)
    ensures forall r :: r in RecordsOf(values) ==> r in RecordsOf(AfterAppend(values, newRows))
  {
    var after := AfterAppend(values, newRows);
    forall r | r in RecordsOf(values)
      ensures r in RecordsOf(after)
    {
      var i :| 0 <= i < |values| - 1 && RecordsOf(values)[i] == r;
      assert after[0] == values[0] && after[i + 1] == values[i + 1];
      assert RecordsOf(after)[i] == r;
    }
  }

  /** After an append, the appended row at position `j` is read back as a record under the header. */
  lemma NewRowReadBackAt(values: seq<seq<string>>, newRows: seq<seq<string>>, j: nat)
    requires values == [] || values[0] == Headers
    requires j < |newRows|
    ensures ZipRecord(Headers, newRows[j]) in RecordsOf(AfterAppend(values, newRows))
  {
    var after := AfterAppend(values, newRows);
    var k := |after| - |newRows| + j - 1;
    assert after[0] == Headers by {
      if values != [] {
        assert after[..|values|][0] == values[0];
      }
    }
    assert after[k + 1] == newRows[j] by {
      assert after[|after| - |newRows|..][j] == newRows[j];
    }
    RecordsOfAt(after, k);
  }

  /** After an append, each appended row is read back as a record under the header. */
  lemma NewRowsReadBack(values: seq<seq<string>>, newRows: seq<seq<string>>)
    requires values == [] || values[0] == Headers
    ensures forall row :: row in newRows ==> ZipRecord(Headers, row) in RecordsOf(AfterAppend(values, newRows))
  {
    forall row | row in newRows
      ensures ZipRecord(Headers, row) in RecordsOf(AfterAppend(values, newRows))
    {
      var j :| 0 <= j < |newRows| && newRows[j] == row;
      NewRowReadBackAt(values, newRows, j);
    }
  }

  /**
   * A candidate whose row was appended is known to the index built from the
   * sheet afterwards: its row reads back with its own title and date.
   */
  lemma AppendedCandidateKnown(values: seq<seq<string>>, newRows: seq<seq<string>>, a: RawArticle,
                               parse: string -> Option<string>, score: string -> real)
    requires values == [] || values[0] == Headers
    requires forall raw :: parse(raw).Some? ==> Strip(parse(raw).value) == parse(raw).value
    requires Row(Candidate(a, parse, score)) in newRows
    ensures IsDuplicate(Candidate(a, parse, score), BuildIndex(RecordsOf(AfterAppend(values, newRows))))
  {
    var m := Candidate(a, parse, score);
    var records := RecordsOf(AfterAppend(values, newRows));
    var rec := ZipRecord(Headers, Row(m));
    NewRowsReadBack(values, newRows);
    assert rec in records;
    RowReadsBack(m);
    CandidateTrimmed(a, parse, score);
    PublishedTrimmed(a, parse, score);
    assert (Strip(Cell(rec, "title")), Strip(Cell(rec, "published"))) == (m.title, m.published);
    assert SameArticle(m, rec);
  }

  /**
   * Running the scraper a second time on the same fetched articles appends
   * nothing: every row the first run appended is read back as a record whose
   * stripped (title, published) pair is the candidate's own signature, and
   * every article the first run skipped is still known.  Assumes the sheet
   * was empty or started with the header, and that the date parser returns
   * strings without surrounding whitespace (as ISO dates are).
   */
  lemma SecondRunAppendsNothing(values: seq<seq<string>>, articles: seq<RawArticle>,
                                parse: string -> Option<string>, score: string -> real)
    requires values == [] || values[0] == Headers
    requires forall raw :: parse(raw).Some? ==> Strip(parse(raw).value) == parse(raw).value
    ensures var ms := Candidates(articles, parse, score);
      var after := AfterAppend(values, Keep(ms, BuildIndex(RecordsOf(values))));
      Keep(ms, BuildIndex(RecordsOf(after))) == []
  {
    var ms := Candidates(articles, parse, score);
    var first := BuildIndex(RecordsOf(values));
    var newRows := Keep(ms, first);
    var after := AfterAppend(values, newRows);
    var second := BuildIndex(RecordsOf(after));
    OldRecordsSurvive(values, newRows);
    KeepMembers(ms, first);
    forall i | 0 <= i < |ms|
      ensures IsDuplicate(ms[i], second)
    {
      if IsDuplicate(ms[i], first) {
        IndexMonotone(ms[i], RecordsOf(values), RecordsOf(after));
      } else {
        assert Row(ms[i]) in newRows;
        AppendedCandidateKnown(values, newRows, articles[i], parse, score);
      }
    }
    KeepNoneUnknown(ms, second);
  }
}
