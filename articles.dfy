/**
 * Turning one raw search result into a candidate mention
 * (scraper_to_sheets.py lines 69-99).  The raw result is a mapping whose key
 * names vary from one news source to another; every logical field is looked
 * up through an ordered list of synonym keys.
 */
module Articles {
  import opened Wrappers
  import opened Text
  import opened Tonality

  /**
   * A raw article.  `fields` holds its string-valued keys.  `publisher` is
   * `Some(d)` when the article's "publisher" key holds a dictionary `d`, and
   * `None` when the key is absent or holds anything else.
   */
  datatype RawArticle = RawArticle(fields: map<string, string>, publisher: Option<map<string, string>>)

  /** One row of the mentions sheet, before it is flattened into cells. */
  datatype Mention = Mention(
    title: string,
    published: string,
    source: string,
    summary: string,
    link: string,
    tonality: Tonality)

  /** The sheet's header row; every data row lists its cells in this order. */
  const Headers: seq<string> := ["title", "published", "source", "summary", "link", "tonality"]

  const TitleKeys: seq<string> := ["title"]
  const SummaryKeys: seq<string> := ["description", "summary", "snippet"]
  const LinkKeys: seq<string> := ["url", "link"]
  const PublishedKeys: seq<string> := ["published date", "published", "publishedAt"]
  const SourceKeys: seq<string> := ["source", "site", "domain"]

  /** `article.get(k)` is truthy: the key is present with a non-empty value. */
  predicate Qualifies(fields: map<string, string>, k: string)
  {
    k in fields && fields[k] != ""
  }

  /** `extract_field`: tries the keys in order and returns the first truthy value, or "". */
  function ExtractField(fields: map<string, string>, keys: seq<string>): (r: string)
    ensures r != "" ==> r in fields.Values
  {
    if keys == [] then ""
    else if Qualifies(fields, keys[0]) then fields[keys[0]]
    else ExtractField(fields, keys[1..])
  }

  /**
   * The value found is that of the first key, in the given order, whose value
   * is present and non-empty; it is "" exactly when no key qualifies.  The
   * value is returned as stored, before any stripping.
   */
  lemma {:induction false} ExtractFieldFirstMatch(fields: map<string, string>, keys: seq<string>)
    ensures ExtractField(fields, keys) != "" <==> exists i :: 0 <= i < |keys| && Qualifies(fields, keys[i])
    ensures forall i :: 0 <= i < |keys| && Qualifies(fields, keys[i]) &&
                        (forall j :: 0 <= j < i ==> !Qualifies(fields, keys[j]))
                        ==> ExtractField(fields, keys) == fields[keys[i]]
  {
    if keys != [] && !Qualifies(fields, keys[0]) {
      ExtractFieldFirstMatch(fields, keys[1..]);
      assert forall i :: 1 <= i < |keys| ==> keys[1..][i - 1] == keys[i];
    }
  }

  /** The publisher dictionary's "title", as stored (not stripped), or "" when there is none. */
  function PublisherTitle(a: RawArticle): (t: string)
    ensures t != "" <==> a.publisher.Some? && Qualifies(a.publisher.value, "title")
  {
    match a.publisher
    case Some(d) => if "title" in d then d["title"] else ""
    case None => ""
  }

  /**
   * The source: the publisher's title when it is non-empty, otherwise the
   * stripped first non-empty value among "source", "site" and "domain".
   */
  function ResolveSource(a: RawArticle): (s: string)
    ensures PublisherTitle(a) != "" ==> s == a.publisher.value["title"]
    ensures PublisherTitle(a) == "" ==> s == Strip(ExtractField(a.fields, SourceKeys))
    ensures s == "" ==> PublisherTitle(a) == "" && AllSpace(ExtractField(a.fields, SourceKeys))
  {
    var t := PublisherTitle(a);
    if t != "" then t
    else
      var s := Strip(ExtractField(a.fields, SourceKeys));
      StripEmptyIff(ExtractField(a.fields, SourceKeys));
      s
  }

  /** The published date: the parsed ISO form when the parse succeeds, otherwise the raw string unchanged. */
  function ResolvePublished(raw: string, parse: string -> Option<string>): (p: string)
    ensures p == raw || parse(raw) == Some(p)
    ensures parse(raw).Some? ==> p == parse(raw).value
    ensures parse(raw).None? ==> p == raw
  {
    match parse(raw)
    case Some(iso) => iso
    case None => raw
  }

  /** The text handed to the sentiment model: the summary, or the title when the summary is empty. */
  function SentimentText(summary: string, title: string): (t: string)
    ensures t == "" <==> summary == "" && title == ""
    ensures summary != "" ==> t == summary
    ensures summary == "" ==> t == title
  {
    if summary != "" then summary else title
  }

  /**
   * The candidate mention built from one article, given the date parser and
   * the sentiment model.  No article is rejected here: missing fields become "".
   */
  function Candidate(a: RawArticle, parse: string -> Option<string>, score: string -> real): (m: Mention)
    ensures Trimmed(m.title) && Trimmed(m.summary) && Trimmed(m.link)
  {
    var title := Strip(ExtractField(a.fields, TitleKeys));
    var summary := Strip(ExtractField(a.fields, SummaryKeys));
    var link := Strip(ExtractField(a.fields, LinkKeys));
    var publishedRaw := Strip(ExtractField(a.fields, PublishedKeys));
    var source := ResolveSource(a);
    var published := ResolvePublished(publishedRaw, parse);
    var tonality := Bucket(score(SentimentText(summary, title)));
    Mention(title, published, source, summary, link, tonality)
  }

  /** The sentiment model scores the candidate's summary, or its title when the summary is empty. */
  lemma ScoresSummaryElseTitle(a: RawArticle, parse: string -> Option<string>, score: string -> real)
    ensures var m := Candidate(a, parse, score);
      m.tonality == Bucket(score(if m.summary != "" then m.summary else m.title))
  {
  }

  /** A date the parser rejects is kept as the raw stripped string, not replaced by "". */
  lemma UnparsedDateKeepsRaw(a: RawArticle, parse: string -> Option<string>, score: string -> real)
    ensures var raw := Strip(ExtractField(a.fields, PublishedKeys));
      Candidate(a, parse, score).published == (if parse(raw).Some? then parse(raw).value else raw)
  {
  }

  /** A non-empty publisher title wins; otherwise the source comes from the synonym keys. */
  lemma SourcePrefersPublisher(a: RawArticle, parse: string -> Option<string>, score: string -> real)
    ensures a.publisher.Some? && Qualifies(a.publisher.value, "title") ==>
      Candidate(a, parse, score).source == a.publisher.value["title"]
    ensures !(a.publisher.Some? && Qualifies(a.publisher.value, "title")) ==>
      Candidate(a, parse, score).source == Strip(ExtractField(a.fields, SourceKeys))
  {
  }

  /** The value a mention holds under a given column name ("" for a name outside the header). */
  function Column(m: Mention, name: string): string
  {
    if name == "title" then m.title
    else if name == "published" then m.published
    else if name == "source" then m.source
    else if name == "summary" then m.summary
    else if name == "link" then m.link
    else if name == "tonality" then Label(m.tonality)
    else ""
  }

  /** The cells appended for a mention: six of them, the last one its tonality label. */
  function Row(m: Mention): (r: seq<string>)
    ensures |r| == |Headers| == 6
    ensures r[5] in {"Positive", "Neutral", "Negative"}
  {
    [m.title, m.published, m.source, m.summary, m.link, Label(m.tonality)]
  }

  /** A row lists the mention's value for each header, in header order. */
  lemma RowFollowsHeader(m: Mention)
    ensures forall j :: 0 <= j < |Headers| ==> Row(m)[j] == Column(m, Headers[j])
  {
  }

  /** Distinct mentions give distinct rows: a row can be read back into the mention it came from. */
  lemma RowInjective(m: Mention, n: Mention)
    requires Row(m) == Row(n)
    ensures m == n
  {
    assert Row(m)[5] == Row(n)[5];
    LabelInjective(m.tonality, n.tonality);
  }

  /** The title, summary and link of a candidate carry no surrounding whitespace; nor does an unparsed date. */
  lemma CandidateTrimmed(a: RawArticle, parse: string -> Option<string>, score: string -> real)
    ensures Strip(Candidate(a, parse, score).title) == Candidate(a, parse, score).title
    ensures Strip(Candidate(a, parse, score).summary) == Candidate(a, parse, score).summary
    ensures Strip(Candidate(a, parse, score).link) == Candidate(a, parse, score).link
    ensures parse(Strip(ExtractField(a.fields, PublishedKeys))).None? ==>
      Strip(Candidate(a, parse, score).published) == Candidate(a, parse, score).published
  {
    StripIdempotent(ExtractField(a.fields, TitleKeys));
    StripIdempotent(ExtractField(a.fields, SummaryKeys));
    StripIdempotent(ExtractField(a.fields, LinkKeys));
    StripIdempotent(ExtractField(a.fields, PublishedKeys));
  }

  /** When parsed dates carry no surrounding whitespace, neither does any candidate's date. */
  lemma PublishedTrimmed(a: RawArticle, parse: string -> Option<string>, score: string -> real)
    requires forall raw :: parse(raw).Some? ==> Strip(parse(raw).value) == parse(raw).value
    ensures Strip(Candidate(a, parse, score).published) == Candidate(a, parse, score).published
  {
    var raw := Strip(ExtractField(a.fields, PublishedKeys));
    match parse(raw)
    case Some(iso) =>
      assert Candidate(a, parse, score).published == iso;
    case None =>
      StripIdempotent(ExtractField(a.fields, PublishedKeys));
  }

  /**
   * A field's value is chosen before it is stripped: a whitespace-only value
   * under an earlier synonym hides a real value under any later one.
   */
  lemma BlankSynonymHidesLaterOne(fields: map<string, string>, keys: seq<string>)
    requires keys != [] && Qualifies(fields, keys[0]) && AllSpace(fields[keys[0]])
    ensures Strip(ExtractField(fields, keys)) == ""
  {
    StripEmptyIff(fields[keys[0]]);
  }
}
