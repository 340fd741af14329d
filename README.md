# HELB media tracker: the ingestion step, in Dafny

The HELB media tracker watches Kenyan news for mentions of HELB. A batch job,
`scraper_to_sheets.py`, fetches news articles, scores their sentiment and
appends the new ones to a Google Sheet. Dashboard pages then read that sheet.
This project models the one piece of real logic in the job: the step that
turns a batch of raw articles into sheet rows and appends only the new ones.

- **Field resolution** (`Articles`). A raw article is a mapping whose key
  names vary by source. `ExtractField` tries synonym keys in order and takes
  the first non-empty value. Title, summary, link and raw date are then
  stripped of whitespace the way Python's `str.strip()` does (`Text`). The
  source is the publisher dictionary's title when it is non-empty. Otherwise
  it is taken from the `source`, `site` or `domain` keys.
- **Date.** The date parser is a parameter that may fail (`Option`). When it
  fails, the raw stripped string is kept.
- **Tonality** (`Tonality`). The sentiment model is a parameter returning a
  `real`. It scores the summary, or the title when the summary is empty. The
  score is bucketed with fixed cut points: at least 0.05 is Positive, at most
  -0.05 is Negative, anything else is Neutral.
- **Deduplication** (`Dedup`). Two sets are built once from the existing
  records: the stripped links of the records whose link cell is non-empty,
  and the stripped (title, published) pairs. A candidate is skipped when its
  non-empty link is in the first set or its signature is in the second.
- **The loop** (`Ingest`). `CollectNewRows` is the `for` loop over the
  fetched articles. It is proved against `Keep`, a recursive specification.
  The index is never updated inside the loop, so copies within one batch are
  all kept.
- **The sheet** (`Sheet`). `Worksheet` is a class holding the sheet's rows.
  `AppendNewMentions` writes the header first when the sheet is empty, then
  the new rows. It writes them in one batch, or row by row when the batch
  call fails. Both paths leave the same contents.
- **Reading back** (`Store`). This module models how the store returns rows
  as records: the header row zipped with each later row. With it, the model
  proves that a second run over the same articles appends nothing.

## Behaviour worth noting

The model follows what `scraper_to_sheets.py` does:

- An unparsable date keeps the raw stripped string (line 89). It does not
  become empty.
- A failed batch append is followed by exactly one row-by-row pass over the
  same rows (lines 113-116). There is no further retry.
- The job only appends (lines 103-117). It never rewrites or deletes a row
  already in the sheet.
- The start and end dates reach only the news search (line 64). Neither
  deduplication nor the append filters rows by date.
- A link cell that is non-empty but all whitespace is truthy, so the empty
  string does enter the link set (line 57). This never causes a skip: the
  `link and` guard on line 96 stops an empty candidate link from matching.
  `Dedup.EmptyLinkIffBlankCell` states both halves.

## Model

| member | source | states |
|---|---|---|
| Text.StripStart | scraper_to_sheets.py:77-80 | The result is the longest suffix that does not begin with whitespace; everything removed is whitespace |
| Text.StripEnd | scraper_to_sheets.py:77-80 | The result is the longest prefix that does not end with whitespace; everything removed is whitespace |
| Text.Strip | scraper_to_sheets.py:77-80 | `str.strip()`: the result is no longer than the input and has no whitespace at either end |
| Text.StripIsTrimmedSlice | scraper_to_sheets.py:77-80 | The stripped string is a contiguous slice of the input, and only whitespace surrounds it |
| Text.StripOfTrimmed | scraper_to_sheets.py:77-80 | A string with no whitespace at either end is left unchanged by stripping |
| Text.StripIdempotent | scraper_to_sheets.py:57-58 | Stripping an already stripped value changes nothing, so re-stripping a written cell gives it back |
| Text.StripEmptyIff | scraper_to_sheets.py:85-86 | The strip is empty exactly when the string is all whitespace |
| Tonality.Label | scraper_to_sheets.py:93 | The tonality cell is always one of "Positive", "Neutral", "Negative" |
| Tonality.Bucket | scraper_to_sheets.py:93 | Positive iff score >= 0.05, Negative iff score <= -0.05, Neutral iff strictly between |
| Tonality.LabelInjective | scraper_to_sheets.py:93 | Different buckets are written as different labels |
| Tonality.BucketMonotone | scraper_to_sheets.py:93 | A higher score never moves from Positive to a lower bucket, nor a lower score out of Negative |
| Tonality.BucketBoundaries | scraper_to_sheets.py:93 | 0.05 is Positive, -0.05 is Negative, 0.0 is Neutral |
| Articles.ExtractField | scraper_to_sheets.py:69-73 | A non-empty result is one of the article's own values; nothing is invented |
| Articles.ExtractFieldFirstMatch | scraper_to_sheets.py:69-73 | The value is that of the first key in order with a present, non-empty value; it is "" exactly when no key qualifies |
| Articles.PublisherTitle | scraper_to_sheets.py:82-84 | The publisher title is non-empty exactly when `publisher` is a dictionary with a non-empty "title" |
| Articles.ResolveSource | scraper_to_sheets.py:81-86 | The source is the unstripped publisher title when non-empty, else the stripped first value among source/site/domain; it is empty only if both are blank |
| Articles.SourcePrefersPublisher | scraper_to_sheets.py:81-86 | A candidate's source is the publisher title when that title qualifies, and comes from the synonym keys otherwise |
| Articles.ResolvePublished | scraper_to_sheets.py:88-89 | The date is the parser's output when the parse succeeds and the raw string otherwise; it is never anything else |
| Articles.UnparsedDateKeepsRaw | scraper_to_sheets.py:88-89 | A candidate's `published` is the parsed form when the parse succeeds, and the raw stripped string when it fails |
| Articles.SentimentText | scraper_to_sheets.py:91 | The text scored is the summary when non-empty, otherwise the title; it is empty only if both are |
| Articles.ScoresSummaryElseTitle | scraper_to_sheets.py:91-93 | A candidate's tonality is the bucket of the score of its summary, or of its title when the summary is empty |
| Articles.Candidate | scraper_to_sheets.py:76-93 | Every article yields a candidate; its title, summary and link have no whitespace at either end |
| Articles.CandidateTrimmed | scraper_to_sheets.py:77-80 | Re-stripping a candidate's title, summary, link, or unparsed date gives it back |
| Articles.PublishedTrimmed | scraper_to_sheets.py:80-89 | When parsed dates carry no surrounding whitespace, re-stripping any candidate's date gives it back |
| Articles.BlankSynonymHidesLaterOne | scraper_to_sheets.py:69-80 | When the first synonym key holds a whitespace-only value, the field is "" after stripping, whatever the later keys hold |
| Articles.Row | scraper_to_sheets.py:99 | A row has six cells, one per header, and its last cell is one of the three labels |
| Articles.RowFollowsHeader | scraper_to_sheets.py:99 | Cell j of a row is the mention's value for header j |
| Articles.RowInjective | scraper_to_sheets.py:99 | Equal rows come from equal mentions |
| Dedup.ExistingLinks | scraper_to_sheets.py:57 | The cell is checked before it is stripped, so "" is in the link set only when some record's link cell is non-empty but all whitespace |
| Dedup.IsDuplicate | scraper_to_sheets.py:95-96 | A candidate with an empty link is skipped exactly when its signature is known |
| Dedup.DuplicateIffSameAsSomeRecord | scraper_to_sheets.py:57-58 | The set-based skip test holds iff some existing record has the same non-empty link or the same stripped title and date |
| Dedup.LinkHitHasRecord | scraper_to_sheets.py:57 | An indexed link comes from an existing record with that same link |
| Dedup.SigHitHasRecord | scraper_to_sheets.py:58 | An indexed signature comes from an existing record with that same stripped title and date |
| Dedup.RecordMakesDuplicate | scraper_to_sheets.py:57-58 | An existing record that is the same article puts the candidate's link or signature in the index |
| Dedup.IndexAnswersEveryCandidate | scraper_to_sheets.py:56-58 | The same agreement holds for every candidate at once |
| Dedup.BuildIndex | scraper_to_sheets.py:56-58 | The index built once from `ExistingLinks` and `ExistingSigs` (line 58: the stripped title and date of every record) calls a candidate a duplicate exactly when some record has the same non-empty link or the same stripped title and date |
| Dedup.EmptyLinkIffBlankCell | scraper_to_sheets.py:57-96 | "" is in the link set exactly when some record's link cell is non-empty but all whitespace, and a candidate with an empty link is skipped iff its signature is known |
| Dedup.IndexMonotone | scraper_to_sheets.py:56-58 | More existing records never un-skip a candidate |
| Ingest.Candidates | scraper_to_sheets.py:76 | One candidate per fetched article |
| Ingest.Keep | scraper_to_sheets.py:75-100 | At most one row is kept per candidate |
| Ingest.SubsequenceNoLonger | scraper_to_sheets.py:75-100 | A subsequence is no longer than the sequence it comes from |
| Ingest.SubsequenceSnoc | scraper_to_sheets.py:97-100 | Skipping or appending the next candidate's row keeps the kept rows a subsequence of all rows |
| Ingest.RowsOfInit | scraper_to_sheets.py:99 | The rows of all candidates but the last, followed by the last one's row, are the rows of all candidates |
| Ingest.KeepNoneUnknown | scraper_to_sheets.py:95-97 | When every candidate is known, no row is kept |
| Ingest.KeepSubsequence | scraper_to_sheets.py:75-100 | The kept rows are the candidates' rows with some deleted and none reordered, so there are at most as many |
| Ingest.KeepMembers | scraper_to_sheets.py:95-100 | A row is kept iff it is the row of some candidate that the index does not know |
| Ingest.KeepCount | scraper_to_sheets.py:95-100 | Exactly one row is kept per candidate the index does not know |
| Ingest.KeepConcat | scraper_to_sheets.py:56-58 | The index is fixed for the batch: processing a batch in two parts gives the concatenated result |
| Ingest.BothCopiesKept | scraper_to_sheets.py:96-100 | Two unknown candidates sharing a link or signature are both kept, in order |
| Ingest.KeepStep | scraper_to_sheets.py:95-100 | One more article adds its candidate's row to the kept rows unless the index knows it |
| Ingest.KeepRowsHaveHeaderWidth | scraper_to_sheets.py:99 | Every kept row has one cell per header |
| Ingest.CollectNewRows | scraper_to_sheets.py:75-100 | The loop's result equals the specification, has at most one row per article, and every row has the six header columns |
| Ingest.Run | scraper_to_sheets.py:56-117 | One run appends exactly the kept rows, one per unknown candidate, as the append step prescribes |
| Sheet.Worksheet.GetAllValues | scraper_to_sheets.py:106 | Returns every row of the sheet, the header included, and changes nothing |
| Sheet.Worksheet.AppendRow | scraper_to_sheets.py:107 | One row is added after the last one |
| Sheet.Worksheet.AppendRows | scraper_to_sheets.py:111 | The batch is added after the last row, in order |
| Sheet.AfterAppend | scraper_to_sheets.py:103-117 | Nothing changes without new rows; existing rows are kept as a prefix; the new rows come last, in order; the header is added only to an empty sheet |
| Sheet.AppendNewMentions | scraper_to_sheets.py:103-117 | The batch path and the row-by-row path both leave the sheet as AfterAppend prescribes |
| Store.ZipRecordKeys | scraper_to_sheets.py:56 | A record has a key exactly for each header name, whatever the length of the row |
| Store.RecordsOf | scraper_to_sheets.py:56 | A non-empty sheet yields one record per row below the header |
| Store.RecordsOfAt | scraper_to_sheets.py:56 | The record at position k is row k + 1 read under the header |
| Store.ZipRecordCells | scraper_to_sheets.py:56 | Under a header without repeats, each column name reads back its own cell |
| Store.RowReadsBack | scraper_to_sheets.py:56-58 | A written row, read back under the header, returns the mention's title, date and link |
| Store.OldRecordsSurvive | scraper_to_sheets.py:103-117 | After an append, every record read back before it is still read back, whatever the sheet's first row holds |
| Store.NewRowReadBackAt | scraper_to_sheets.py:103-117 | After an append, the appended row at a given position is read back as a record under the header |
| Store.NewRowsReadBack | scraper_to_sheets.py:103-117 | After an append, every appended row is read back as a record under the header |
| Store.AppendedCandidateKnown | scraper_to_sheets.py:56-117 | A candidate whose row was appended is a duplicate for the index built from the sheet afterwards |
| Store.SecondRunAppendsNothing | scraper_to_sheets.py:56-117 | A second run over the same articles appends nothing, when the sheet started empty or with the header and parsed dates carry no surrounding whitespace |

## Left out

- Fetching from the news search service, authentication, opening the sheet
  and the `sys.exit` paths (lines 38-53, 64-66). These are network and
  library calls. The articles and the existing records are inputs.
- The VADER polarity computation (lines 63, 92). It is a foreign model,
  passed in as a function to `real`. Only the bucketing is verified.
- `pd.to_datetime` and `isoformat` (line 88). They are a foreign library,
  passed in as a function to `Option<string>`. Only the "raw string on
  failure" rule is modelled.
- `time.sleep` and the exception mechanics (lines 108, 113-116). The batch
  failure is a boolean parameter, and the failed batch is taken to write
  nothing.
- Sheet.AppendNewMentions: does not model a batch call that writes part of
  its rows and then raises. That would leave duplicates after the row-by-row
  retry.
- Non-string values. The model does not cover `str()` of a number or of
  `None` in an article, a non-string publisher title, or the store turning
  numeric-looking cells into numbers. Cells are modelled as strings.
- Store.RecordsOf: does not model the store's error for a header row with
  repeated names. A later repeat simply overrides an earlier one.
- Store.SecondRunAppendsNothing: assumes cells are stored and read back
  verbatim. With user-entered input, the sheet may reinterpret dates or
  formulas. The model does not cover that.
- The progress messages printed by the job. They are output only.
- The dashboard pages (`app.py`, `pages/`). They are presentation over a
  dataframe.
