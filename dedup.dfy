/**
 * The deduplication index (scraper_to_sheets.py lines 56-58) and the test a
 * candidate must fail to be appended (lines 95-97).  The index is built once,
 * from the records already in the sheet, before any article is looked at.
 */
module Dedup {
  import opened Text
  import opened Articles

  /** An existing sheet row as returned by the store: column name to cell text. */
  type Record = map<string, string>

  /** `r.get(key, "")`. */
  function Cell(r: Record, key: string): string
  {
    if key in r then r[key] else ""
  }

  /** A (title, published) pair, the fallback identity of a mention. */
  type Signature = (string, string)

  datatype Index = Index(links: set<string>, sigs: set<Signature>)

  /**
   * The stripped link of every record whose raw link cell is non-empty.  The
   * cell is checked before it is stripped, so "" is in the set only when some
   * record's link cell is non-empty but all whitespace.
   */
  function ExistingLinks(records: seq<Record>): (links: set<string>)
    ensures "" in links ==> exists r :: r in records && Cell(r, "link") != "" && AllSpace(Cell(r, "link"))
  {
    var links := set r | r in records && Cell(r, "link") != "" :: Strip(Cell(r, "link"));
    assert "" in links ==> exists r :: r in records && Cell(r, "link") != "" && AllSpace(Cell(r, "link")) by {
      if "" in links {
        var r :| r in records && Cell(r, "link") != "" && Strip(Cell(r, "link")) == "";
        StripEmptyIff(Cell(r, "link"));
      }
    }
    links
  }

  /** The stripped (title, published) pair of every record. */
  function ExistingSigs(records: seq<Record>): set<Signature>
  {
    set r | r in records :: (Strip(Cell(r, "title")), Strip(Cell(r, "published")))
  }

  /** The index, built once: it calls a candidate a duplicate exactly when some record is the same article. */
  function BuildIndex(records: seq<Record>): (index: Index)
    ensures forall m :: IsDuplicate(m, index) <==> exists r :: r in records && SameArticle(m, r)
  {
    IndexAnswersEveryCandidate(records);
    Index(ExistingLinks(records), ExistingSigs(records))
  }

  /** The skip test: a non-empty link already indexed, or an indexed signature. */
  predicate IsDuplicate(m: Mention, index: Index)
    ensures m.link == "" ==> (IsDuplicate(m, index) <==> (m.title, m.published) in index.sigs)
  {
    (m.link != "" && m.link in index.links) || (m.title, m.published) in index.sigs
  }

  /** Reference definition, one record at a time: the record has the same non-empty link, or the same title and date. */
  ghost predicate SameArticle(m: Mention, r: Record)
  {
    || (m.link != "" && Strip(Cell(r, "link")) == m.link)
    || (Strip(Cell(r, "title")) == m.title && Strip(Cell(r, "published")) == m.published)
  }

  /** The set-based test agrees with comparing the candidate against every existing record. */
  lemma DuplicateIffSameAsSomeRecord(m: Mention, records: seq<Record>)
    ensures IsDuplicate(m, Index(ExistingLinks(records), ExistingSigs(records))) <==>
      exists r :: r in records && SameArticle(m, r)
  {
    if m.link != "" && m.link in ExistingLinks(records) {
      LinkHitHasRecord(m, records);
    } else if (m.title, m.published) in ExistingSigs(records) {
      SigHitHasRecord(m, records);
    }
    if exists r :: r in records && SameArticle(m, r) {
      var r :| r in records && SameArticle(m, r);
      RecordMakesDuplicate(m, records, r);
    }
  }

  /** An indexed link comes from a record with that same link. */
  lemma LinkHitHasRecord(m: Mention, records: seq<Record>)
    requires m.link != "" && m.link in ExistingLinks(records)
    ensures exists r :: r in records && SameArticle(m, r)
  {
    var r :| r in records && Cell(r, "link") != "" && Strip(Cell(r, "link")) == m.link;
    assert SameArticle(m, r);
  }

  /** An indexed signature comes from a record with that same stripped title and date. */
  lemma SigHitHasRecord(m: Mention, records: seq<Record>)
    requires (m.title, m.published) in ExistingSigs(records)
    ensures exists r :: r in records && SameArticle(m, r)
  {
    var r :| r in records && (Strip(Cell(r, "title")), Strip(Cell(r, "published"))) == (m.title, m.published);
    assert SameArticle(m, r);
  }

  /** A record that is the same article puts the candidate's link or signature in the index. */
  lemma RecordMakesDuplicate(m: Mention, records: seq<Record>, r: Record)
    requires r in records && SameArticle(m, r)
    ensures IsDuplicate(m, Index(ExistingLinks(records), ExistingSigs(records)))
  {
    if m.link != "" && Strip(Cell(r, "link")) == m.link {
      assert Cell(r, "link") != "";
    }
  }

  lemma IndexAnswersEveryCandidate(records: seq<Record>)
    ensures forall m :: IsDuplicate(m, Index(ExistingLinks(records), ExistingSigs(records))) <==>
      exists r :: r in records && SameArticle(m, r)
  {
    forall m {
      DuplicateIffSameAsSomeRecord(m, records);
    }
  }

  /**
   * The link set holds the empty string exactly when some record's link cell
   * is non-empty but all whitespace: the cell is checked before it is
   * stripped.  It never matters: a candidate with an empty link is judged by
   * its signature alone.
   */
  lemma EmptyLinkIffBlankCell(m: Mention, records: seq<Record>)
    ensures "" in ExistingLinks(records) <==>
      exists r :: r in records && Cell(r, "link") != "" && AllSpace(Cell(r, "link"))
    ensures m.link == "" ==>
      (IsDuplicate(m, BuildIndex(records)) <==> (m.title, m.published) in ExistingSigs(records))
  {
    if exists r :: r in records && Cell(r, "link") != "" && AllSpace(Cell(r, "link")) {
      var r :| r in records && Cell(r, "link") != "" && AllSpace(Cell(r, "link"));
      StripEmptyIff(Cell(r, "link"));
    }
  }

  /** More existing records can only turn more candidates into duplicates. */
  lemma IndexMonotone(m: Mention, records: seq<Record>, more: seq<Record>)
    requires forall r :: r in records ==> r in more
    ensures IsDuplicate(m, BuildIndex(records)) ==> IsDuplicate(m, BuildIndex(more))
  {
  }
}
