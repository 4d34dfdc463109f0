# OpenAIRE content connector: a Dafny model

This project models the core of the OpenAIRE content connector. The connector answers a
framework `Query` against an OpenAIRE Solr index, in two ways:

- a synchronous search: one page, reported as a `SearchResult` with a window, a hit count,
  facets and parsed publications;
- an export: a cursor-mark scan over every page, streaming the parsed publication records
  into a pipe, followed by a closing `</OMTDPublications>` tag.

The repository holds three copies of the Solr client, which differ in small ways:

- `openaire/OpenAireSolrClient` quotes plain filter values. It keeps the `start`/`rows`
  window in the instance, so the window of an earlier query leaks into the next. It bounds
  its scan by a positive `queryLimit` checked before every request. Documents go to a
  callback the caller supplies.
- `OpenAireSolrClient` (content package) writes values bare and also keeps the window. It
  parses its limit from a string with `Integer.parseInt`. After every page it adds `rows`
  to a running count, and stops once that count reaches the limit. It streams through the callback that closes
  the pipe on a write error.
- `connector/OpenAireSolrClient` writes values bare and starts each query from a fresh
  window. It has no limit, and streams through the callback that only logs errors.

All three share one query builder, `QueryBuilder.BuildQuery`. It is parametrised by the
value style (`Quoted` or `Bare`) and by the window the instance holds. The builder does the
following:

- resolves the window;
- requests the facet fields;
- walks the parameters in map order, where `sort` values set the sort (last one wins, and
  an unknown direction aborts), `fl` values add return fields, and every other key becomes
  one OR-clause;
- keys containing `year` or `date` get range clauses anchored on a parsed date, dropping
  values that do not parse;
- appends the two mandatory filters.

Java semantics are written out wherever they matter:

- 32-bit `int` wrap-around (`JavaInt.Wrap32`);
- `Integer.parseInt`;
- `equalsIgnoreCase` and `toLowerCase().contains`;
- `String.split(" ")`, including its dropped trailing empty strings;
- `replaceAll(" OR $", "")`;
- `replaceAll("\\[|\\]", "")`;
- `SolrQuery.ORDER.valueOf`, which is case-sensitive.

The environment is passed in as parameters:

- the Solr backend for one query is a function from cursor to response (`Paging.Backend`),
  or from translated query to response for the synchronous path (`OpenAireConnector.Searcher`);
- the XML-to-publication parser is a function (`QueryModel.Parser`);
- the two `SimpleDateFormat`s are a record of functions (`QueryModel.Calendar`);
- the pipe is a value recording the chunks written and whether it is closed
  (`Streams.Sink`).

Loops follow a fuel bound on the number of requests, because a backend may never repeat a
cursor. The `FuelSpent` stop is the model's own and is never a behaviour of the source.

Both callbacks ignore the page header: `streamDocListInfo` is empty, and
`StreamingCallback.StreamDocListInfo` leaves the pipe as it is.

Behaviours of the code worth noting:

- **Window.** Two of the clients keep `start` and `rows` in the instance. A positive `from`
  replaces `start`, and a positive `to` replaces `rows` with `to - start`, using the
  instance's `start`. Each field otherwise keeps the value an earlier query left
  (`OpenAireSolrClient.WindowLeaks`). `rows` may come out zero or negative, and nothing
  rejects it (`ConnectorSolrClient.NegativeRows`).
- **Sort.** A sort value is split on single spaces. A token count other than one or two is
  ignored. The direction must be exactly `asc` or `desc`.
- **Dates.** A date value that the lenient year pattern accepts is read only as the ISO
  parse of the value with `-01-01T00:00:00.000Z` appended, never as its own ISO text. A
  full timestamp such as `2019-05-01T00:00:00.000Z` is accepted by the year pattern, so its
  anchor is whatever the ISO parse makes of the extended text
  (`FilterClauses.AnchorDate`).
- **Content limit.** The content client's limit test has no positivity check. With
  non-negative `rows`, a limit `<= 0` stops after the first page
  (`ContentSolrClient.ExportPageBound`). With negative `rows`, the count falls below the
  limit and the scan goes on.
- **Limit near the `int` maximum.** Both limited clients add `rows` to an `int` count. A
  limit bounds the requests by ceil(limit / rows) only when `rows > 0` and
  `limit + rows - 1` fits in an `int`. Above that, the count can wrap before it reaches
  the limit. With `rows = 10` and a limit of `Integer.MAX_VALUE`, the count stays even
  and so never reaches the odd limit, and it is negative after 214748365 pages. The limit
  then never ends the scan (`Paging.EvenCountMissesIntMax`, `Paging.TenRowsWrapNegative`).
- **Crashed pages.** A document without `__result` throws out of the callback and ends the
  export without the closing tag. The records written before it stay in the pipe: those of
  every earlier page, and those of the crashed page's documents before it
  (`ExportScan.StreamingScan`).
- **Search errors.** Search swallows every exception and returns the result object as far
  as it was filled, never null (`OpenAireConnector.FailuresSwallowed`).
- **Publications.** Search keeps at most one publication (see Findings).

## Model

| member | source | states |
|---|---|---|
| JavaInt.Wrap32 | src/main/java/eu/openminted/content/openaire/OpenAireSolrClient.java:95 | an `int` result is in range and differs from the mathematical one by a multiple of 2^32 |
| JavaInt.Wrap32Add | src/main/java/eu/openminted/content/OpenAireSolrClient.java:77 | wrapping after every addition equals wrapping once at the end, so the running count is the wrapped product |
| JavaInt.ParseInt | src/main/java/eu/openminted/content/OpenAireSolrClient.java:67 | parsing succeeds exactly for an optionally signed, non-empty digit string whose value fits in an `int` |
| JavaInt.ParseFormatRoundTrip | src/main/java/eu/openminted/content/OpenAireSolrClient.java:67 | the decimal text of every `int` parses back to it |
| JavaString.EqualsIgnoreCaseIff | src/main/java/eu/openminted/content/openaire/OpenAireSolrClient.java:157 | two keys are equal ignoring case exactly when their lower-case forms are equal |
| JavaString.ContainsIff | src/main/java/eu/openminted/content/openaire/OpenAireSolrClient.java:174 | `contains` holds exactly when the substring occurs at some position |
| JavaString.StripTerminated | src/main/java/eu/openminted/content/openaire/OpenAireSolrClient.java:210-215 | appending " OR " after every term and removing one trailing " OR " gives the terms joined by " OR ", and "" for no terms |
| JavaString.PiecesRoundTrip | src/main/java/eu/openminted/content/openaire/OpenAireSolrClient.java:159 | the pieces between spaces, joined with single spaces, give the text back |
| JavaString.SplitTokensHaveNoSpace | src/main/java/eu/openminted/content/openaire/OpenAireSolrClient.java:159 | no token of `split(" ")` contains a space |
| JavaString.SplitFieldAndDirection | src/main/java/eu/openminted/content/openaire/OpenAireSolrClient.java:159-161 | "field dir" splits into exactly the field and the direction |
| FilterClauses.AnchorDate | src/main/java/eu/openminted/content/openaire/OpenAireSolrClient.java:186-205 | a value the year pattern accepts is anchored at the ISO parse of the value with `-01-01T00:00:00.000Z` appended, never at its own ISO text; any other value is anchored at its own ISO parse, if any |
| FilterClauses.DateTermsDropUnparsable | src/main/java/eu/openminted/content/openaire/OpenAireSolrClient.java:180-206 | the terms are exactly those of the values that have an anchor, in order, one each; so every value when all have one, none when none has, never more terms than values |
| FilterClauses.DateClause | src/main/java/eu/openminted/content/openaire/OpenAireSolrClient.java:174-208 | the date clause is the range terms of the anchored values joined by " OR " |
| FilterClauses.PlainClause | src/main/java/eu/openminted/content/openaire/OpenAireSolrClient.java:210-215 | the equality clause is one `key:value` term per value joined by " OR ": empty for no values, the single term for one |
| FilterClauses.DateClauseIgnoresStyle | src/main/java/eu/openminted/content/OpenAireSolrClient.java:148-182 | quoting never affects a date key's clause: every client variant builds the same one |
| QueryBuilder.NextWindow | src/main/java/eu/openminted/content/openaire/OpenAireSolrClient.java:136-142 | a positive `from` becomes the start and otherwise the instance's start is kept; a positive `to` sets `rows` to `to` minus the new start and otherwise the instance's `rows` is kept; the start stays non-negative |
| QueryBuilder.SortOfValueMeaning | src/main/java/eu/openminted/content/openaire/OpenAireSolrClient.java:158-165 | a sort value fails only with two tokens whose second is neither `asc` nor `desc`, naming it; a sort it names is on its first token, which holds no space; it names none exactly when it splits into neither one nor two tokens |
| QueryBuilder.SortSingleToken | src/main/java/eu/openminted/content/openaire/OpenAireSolrClient.java:163-164 | a sort value of one token sorts that field descending |
| QueryBuilder.SortFieldAndDirection | src/main/java/eu/openminted/content/openaire/OpenAireSolrClient.java:159-162 | "field asc" and "field desc" sort that field that way; any other direction fails the translation, naming the direction |
| QueryBuilder.ApplySortAppend | src/main/java/eu/openminted/content/openaire/OpenAireSolrClient.java:158-165 | processing two runs of sort values equals processing the first and continuing from its sort |
| QueryBuilder.LastSortAppend | src/main/java/eu/openminted/content/openaire/OpenAireSolrClient.java:158-165 | the last sort named by a concatenation is the second part's, if it names one, else the first's |
| QueryBuilder.ApplySortLastWins | src/main/java/eu/openminted/content/openaire/OpenAireSolrClient.java:157-166 | the sort values are accepted exactly when each one is, and then the sort is the one named by the last value that names one, or the previous sort |
| QueryBuilder.ApplyEntryMeaning | src/main/java/eu/openminted/content/openaire/OpenAireSolrClient.java:156-218 | one key is accepted exactly when its values are; it only appends to filters and fields; a filter key adds exactly one clause and touches nothing else, `fl` leaves sort and filters alone, `sort` leaves fields and filters alone |
| QueryBuilder.ApplyParamsAccepted | src/main/java/eu/openminted/content/openaire/OpenAireSolrClient.java:154-219 | the parameter walk succeeds exactly when every key's values are acceptable |
| QueryBuilder.ApplyParamsFilters | src/main/java/eu/openminted/content/openaire/OpenAireSolrClient.java:171-217 | the walk adds exactly one clause per filter key, in key order, after the filters already present |
| QueryBuilder.ApplyParamsFields | src/main/java/eu/openminted/content/openaire/OpenAireSolrClient.java:167-170 | the walk adds the `fl` values as return fields, in order, after the fields already present |
| QueryBuilder.ApplyParamsSort | src/main/java/eu/openminted/content/openaire/OpenAireSolrClient.java:157-166 | after the walk, the sort is the one named last by any `sort` entry, or the sort held before |
| QueryBuilder.OptionalParamsAccepted | src/main/java/eu/openminted/content/openaire/OpenAireSolrClient.java:154-219 | a query with parameters translates exactly when every entry is acceptable |
| QueryBuilder.BuildQuery | src/main/java/eu/openminted/content/openaire/OpenAireSolrClient.java:132-229 | translation fails only for an unacceptable parameter; a translated query carries the resolved window, the requested facets, the keyword verbatim and the two mandatory filters last; no parameters give only the mandatory filters, no sort and no fields |
| QueryBuilder.BuildQueryParams | src/main/java/eu/openminted/content/openaire/OpenAireSolrClient.java:154-224 | the filters are the key clauses in order followed by the mandatory filters, the fields are the `fl` values, and the sort is the last one named |
| OpenAireSolrClient.PlainValuesQuoted | src/main/java/eu/openminted/content/openaire/OpenAireSolrClient.java:210-222 | one plain key gives the quoted values joined by " OR " followed by the mandatory filters |
| OpenAireSolrClient.QuotedTermsArePlainTerms | src/main/java/eu/openminted/content/openaire/OpenAireSolrClient.java:211-213 | each term is `key:"value"` |
| OpenAireSolrClient.WindowLeaks | src/main/java/eu/openminted/content/openaire/OpenAireSolrClient.java:136-144 | a query with no window after one with `from = 5, to = 25` is sent with start 5 and 20 rows |
| OpenAireSolrClient.FetchMetadata | src/main/java/eu/openminted/content/openaire/OpenAireSolrClient.java:77-107 | no callback: nothing happens; a failed translation sends nothing; otherwise the scan runs with the instance's new `rows` |
| OpenAireSolrClient.Request | src/main/java/eu/openminted/content/openaire/OpenAireSolrClient.java:90-101 | one request keeps the loop invariant or ends the scan with a justified stop |
| OpenAireSolrClient.CursorScan | src/main/java/eu/openminted/content/openaire/OpenAireSolrClient.java:88-106 | the requests follow the cursor chain, each sent with the count below the limit; the scan stops on a repeated cursor, a reached limit or a server error |
| OpenAireSolrClient.ScanPageBound | src/main/java/eu/openminted/content/openaire/OpenAireSolrClient.java:89-95 | when `rows > 0` and `limit + rows - 1` fits in an `int`, a positive limit lets at most ceil(limit/rows) requests through, and exactly that many when the limit stops the scan |
| ContentSolrClient.LimitOf | src/main/java/eu/openminted/content/OpenAireSolrClient.java:67 | the limit exists exactly when the configured text parses as an `int` |
| ContentSolrClient.FetchMetadata | src/main/java/eu/openminted/content/OpenAireSolrClient.java:61-99 | a failed translation or unparsable limit leaves the pipe untouched; otherwise the pipe gets the records of the requested pages (of a crashed last page, those of its documents before the one without `__result`), the closing tag exactly when the loop ended normally on a working pipe, and is closed unless the model's fuel ran out |
| ContentSolrClient.ExportPageBound | src/main/java/eu/openminted/content/OpenAireSolrClient.java:72-85 | when `rows > 0` and `limit + rows - 1` fits in an `int`, a positive limit bounds the requests by ceil(limit/rows), reached when the limit stops the scan; with non-negative `rows`, a limit of zero or less stops after the first page |
| ConnectorSolrClient.TranslateIsStateless | src/main/java/eu/openminted/content/connector/OpenAireSolrClient.java:74-89 | every call starts from start 0 and 10 rows: a positive `from` is the start, else 0; without a positive `to` the rows stay 10, otherwise they are `to` (from 0) or `to - from` (wrapped) |
| ConnectorSolrClient.NegativeRows | src/main/java/eu/openminted/content/connector/OpenAireSolrClient.java:81-89 | `from = 20, to = 5` is sent with start 20 and rows -15, passed through unguarded |
| ConnectorSolrClient.FetchMetadata | src/main/java/eu/openminted/content/connector/OpenAireSolrClient.java:42-72 | a failed translation leaves the pipe untouched; otherwise the export streams with the logging callback and no limit, and closes the pipe unless the model's fuel ran out |
| ConnectorSolrClient.CompletesOnlyWhenExhausted | src/main/java/eu/openminted/content/connector/OpenAireSolrClient.java:50-61 | without a limit the closing tag is written only after the backend repeated a cursor, and no earlier request did |
| Paging.ChainedRequestsMeaning | src/main/java/eu/openminted/content/OpenAireSolrClient.java:72-85 | the i-th request carries the i-th cursor of the chain, and every request but the last returned a page with a new cursor |
| Paging.ChainContinues | src/main/java/eu/openminted/content/OpenAireSolrClient.java:80-84 | a page with a new cursor extends the chain, and the next request carries that cursor |
| Paging.CountClosedForm | src/main/java/eu/openminted/content/OpenAireSolrClient.java:77 | after n pages the count is n times `rows`, wrapped to an `int` |
| Paging.CountNoWrap | src/main/java/eu/openminted/content/OpenAireSolrClient.java:77-78 | when `rows > 0` and `limit + rows - 1` fits in an `int`, the count has not wrapped while it stays below a positive limit |
| Paging.PageBound | src/main/java/eu/openminted/content/OpenAireSolrClient.java:77-78 | when `rows > 0` and `limit + rows - 1` fits in an `int`, the pages sent under the limit number at most ceil(limit/rows) |
| Paging.EvenCountMissesIntMax | src/main/java/eu/openminted/content/OpenAireSolrClient.java:77-78 | with an even page size the wrapped count never reaches the `int` maximum, so that limit never fires |
| Paging.TenRowsWrapNegative | src/main/java/eu/openminted/content/OpenAireSolrClient.java:77-78 | with pages of 10, the count after ceil(IntMax/10) = 214748365 pages is negative |
| Paging.PageBoundExact | src/main/java/eu/openminted/content/OpenAireSolrClient.java:77-78 | the page whose count first reaches the limit is page ceil(limit/rows) |
| Streams.Write | src/main/java/eu/openminted/content/OpenAireStreamingResponseCallback.java:34 | a write succeeds exactly on an open pipe with a reader, and appends the chunk |
| Streams.TagCountAppend | src/main/java/eu/openminted/content/OpenAireSolrClient.java:86 | closing tags of two chunk runs add up |
| Streams.BytesEndWithTag | src/main/java/eu/openminted/content/OpenAireSolrClient.java:86 | a chunk run that ends with the closing tag ends with its bytes |
| StreamingCallback.StripBrackets | src/main/java/eu/openminted/content/OpenAireStreamingResponseCallback.java:32 | the result is no longer than the input and holds no bracket |
| StreamingCallback.StripBracketsAppend | src/main/java/eu/openminted/content/OpenAireStreamingResponseCallback.java:32 | removing brackets works piece by piece |
| StreamingCallback.StripBracketsKeepsBracketFree | src/main/java/eu/openminted/content/OpenAireStreamingResponseCallback.java:32 | text without brackets is kept unchanged |
| StreamingCallback.StripBracketsIdempotent | src/main/java/eu/openminted/content/OpenAireStreamingResponseCallback.java:32 | removing brackets twice is removing them once |
| StreamingCallback.Envelope | src/main/java/eu/openminted/content/OpenAireStreamingResponseCallback.java:30-32 | the XML starts with the prolog, the rest holds no bracket and is no longer than the rendered field value |
| StreamingCallback.EnvelopeUnwrapsList | src/main/java/eu/openminted/content/OpenAireStreamingResponseCallback.java:30-32 | a one-element list value gives the same XML as its element alone: the prolog followed by the record |
| StreamingCallback.StreamDocument | src/main/java/eu/openminted/content/OpenAireStreamingResponseCallback.java:27-45 | a document without the field crashes; a failed parse writes nothing; a parsed record is appended to a working pipe; on a broken pipe nothing is written and the closing variant closes it |
| StreamingCallback.StreamPage | src/main/java/eu/openminted/content/connector/OpenAireStreamingResponseCallback.java:26-37 | a page completes exactly when every document has the field, and writability never changes |
| StreamingCallback.StreamPageAppendsRecords | src/main/java/eu/openminted/content/OpenAireStreamingResponseCallback.java:33-35 | a page only appends records: earlier output is kept, no closing tag is added, a broken pipe gets nothing |
| StreamingCallback.StreamPageClosing | src/main/java/eu/openminted/content/connector/OpenAireStreamingResponseCallback.java:34-36 | a closed pipe stays closed, and the logging callback never closes it |
| StreamingCallback.StreamPagePublishes | src/main/java/eu/openminted/content/OpenAireStreamingResponseCallback.java:27-45 | on a working pipe a page appends exactly the parsed records of its documents, in order |
| StreamingCallback.UntilMissing | src/main/java/eu/openminted/content/OpenAireStreamingResponseCallback.java:27-32 | the longest prefix of a page whose documents all carry the field: the documents before the one whose missing value throws |
| StreamingCallback.StreamPageWritesUntilMissing | src/main/java/eu/openminted/content/OpenAireStreamingResponseCallback.java:27-45 | on a working pipe any page, crashed or not, appends exactly the records of its documents before the first one without the field |
| ExportScan.PageKeepsPipe | src/main/java/eu/openminted/content/OpenAireSolrClient.java:74-75 | streaming one more page preserves what the scan promises about the pipe |
| ExportScan.PageKeepsRecords | src/main/java/eu/openminted/content/OpenAireSolrClient.java:74-75 | after one more page, the pipe holds the records of every requested page |
| ExportScan.Advance | src/main/java/eu/openminted/content/OpenAireSolrClient.java:73-84 | one request keeps the loop invariant or ends the scan with a justified stop |
| ExportScan.StreamingScan | src/main/java/eu/openminted/content/OpenAireSolrClient.java:69-85 | the requests follow the cursor chain, the limit test is honoured, and the pipe holds exactly the records of the requested pages; after a crash, those of the pages before it and of the crashed page's documents before the one without the field |
| ExportScan.Finish | src/main/java/eu/openminted/content/OpenAireSolrClient.java:86-98 | the closing tag is appended exactly after a normal loop end on a working pipe, and the pipe is then closed |
| ExportScan.FinishExported | src/main/java/eu/openminted/content/OpenAireSolrClient.java:86-98 | closing a finished scan yields the export guarantee: records, then at most one closing tag, then a closed pipe |
| ExportScan.TagAppended | src/main/java/eu/openminted/content/OpenAireSolrClient.java:86 | the closing tag adds one tag at the end and keeps earlier output |
| ExportScan.ExportTagMeansCompleted | src/main/java/eu/openminted/content/OpenAireSolrClient.java:69-98 | on a pipe without a tag, the export leaves the closing tag exactly when it completed on a working pipe, and then the bytes end with `</OMTDPublications>\n` |
| ExportScan.RunExport | src/main/java/eu/openminted/content/OpenAireSolrClient.java:69-98 | a whole export meets the export guarantee |
| FacetingMapper.Reverse | src/main/java/eu/openminted/content/openaire/OpenAIREFacetingMapper.java:32-36 | a facet is reported exactly for the five backend fields |
| FacetingMapper.ForwardEntries | src/main/java/eu/openminted/content/openaire/OpenAIREFacetingMapper.java:22-30 | every facet name is a key and maps to its backend field, or to itself for publisher and keyword |
| FacetingMapper.ReverseEntries | src/main/java/eu/openminted/content/openaire/OpenAIREFacetingMapper.java:32-36 | exactly the five backend fields are field keys, each mapping back to its facet, the rights field to rights |
| FacetingMapper.RoundTrip | src/main/java/eu/openminted/content/openaire/OpenAIREFacetingMapper.java:22-36 | looking a facet up twice gives it back, except the rights-statement name, which comes back as rights |
| FacetingMapper.KeyCount | src/main/java/eu/openminted/content/openaire/OpenAIREFacetingMapper.java:22-36 | the table has thirteen keys |
| OpenAireConnector.Header | src/main/java/eu/openminted/content/connector/OpenAireConnector.java:39-41 | `from`, `to` and `totalHits` are set to `int` values congruent to the offset, the offset plus the page size, and the hit count, modulo 2^32; facets and publications are not set yet |
| OpenAireConnector.HeaderExact | src/main/java/eu/openminted/content/connector/OpenAireConnector.java:39-41 | when offset and hit count fit in an `int`, `from`, `to` and `totalHits` are exact and `to - from` is the page size |
| OpenAireConnector.FacetsOf | src/main/java/eu/openminted/content/connector/OpenAireConnector.java:43-61 | one facet per facet field in order, labelled and fielded by its name, with as many values; none without facet fields |
| OpenAireConnector.FacetRoundTrip | src/main/java/eu/openminted/content/connector/OpenAireConnector.java:45-57 | a facet field can be read back from its facet when its counts fit in an `int` |
| OpenAireConnector.FacetsRoundTrip | src/main/java/eu/openminted/content/connector/OpenAireConnector.java:43-61 | nothing is lost, renamed or reordered between facet fields and facets |
| OpenAireConnector.Collected | src/main/java/eu/openminted/content/connector/OpenAireConnector.java:63-91 | the publications of the documents before the first failing one, in order |
| OpenAireConnector.PublicationsAsWritten | src/main/java/eu/openminted/content/connector/OpenAireConnector.java:63-91 | the document loop as written changes only the publication list, and leaves it as it was or holding at most one publication |
| OpenAireConnector.AsWrittenKeepsLast | src/main/java/eu/openminted/content/connector/OpenAireConnector.java:88-90 | the loop as written leaves at most the last collected publication, or none when the failing document threw after the reset |
| OpenAireConnector.SearchAsWritten | src/main/java/eu/openminted/content/connector/OpenAireConnector.java:32-96 | the result has all of window, hit count and facets or none of them, and never more than one publication |
| OpenAireConnector.FailuresSwallowed | src/main/java/eu/openminted/content/connector/OpenAireConnector.java:35-95 | a failed translation or backend call returns an empty result with no trace of the error |
| OpenAireConnector.SearchFillsHeader | src/main/java/eu/openminted/content/connector/OpenAireConnector.java:39-61 | on a response, window, hit count and facets come from it whatever the documents hold |
| OpenAireConnector.AsWrittenVersusCorrected | src/main/java/eu/openminted/content/connector/OpenAireConnector.java:63-91 | the corrected search keeps every collected publication; the search as written at most the last |
| OpenAireConnector.TwoDocumentsLoseOne | src/main/java/eu/openminted/content/connector/OpenAireConnector.java:88-90 | a page of two parsable documents yields one publication as written and both when corrected |

## Left out

- SolrJ and the network are not modelled: `getSolrClient`, `query`, `queryAndStreamResponse`, `commit`, the HTTP/ZooKeeper clients and closing them. The backend is a function from cursor to response.
- `OpenAireConnector.fetchMetadata` is left out: it starts a thread that runs the export and connects the pipe to the caller's input stream. Threads and the pipe's reader side are outside the model, and `readerGone` is a fixed flag on the pipe.
- The XML parser and JAXB marshalling are outside the model: `Parser` is a parameter. A syntax error is assumed to be thrown by `parse` (before the publication list is reset). A marshalling error is assumed to be thrown by `getOMTDPublication` (after the reset).
- The disabled schema validation in `search` and the unused `createValidator` are dead code and are not modelled.
- Logging, Spring wiring and configuration loading are not modelled. `queryLimit`, the collection name and the hosts are parameters.
- The texts of `OMTDFacetEnum` are not part of this model. Facet names are constants, distinct from each other and from the backend field names.
- The faceting table is not used by the query builder in the source, so the builder does not consult it.
- `SimpleDateFormat` is not modelled. Its parse/format results are the parameter `Calendar`, including whether the lenient year pattern accepts a value.
- JavaInt.ParseInt: only ASCII digits are read, where `Integer.parseInt` accepts every Unicode decimal digit (`Character.digit`). A limit written in, say, Arabic-Indic or full-width digits is a `BadLimit` here.
- QueryBuilder.BuildQuery: a parameter whose value list is null is not representable (`Params` holds lists). In the source, the `for` loop over such a list throws a NullPointerException and aborts the translation. Only the null lists read by `get("sort")`/`get("fl")` under a differently cased key are modelled (`NullParamList`).
- ExportScan.StreamingScan: a failed request writes nothing. A transport error in the middle of a response, after SolrJ already passed some of that page's documents to the callback, is not modelled, so those records are missing from the guarantee.
- JavaString.EqualsIgnoreCaseIff: case folding is ASCII-only. Java's `equalsIgnoreCase` also compares upper-case forms, so a key like "ſort" (long s) matches "sort" in Java but not here.
- JavaString.ToLower: only ASCII letters are mapped, where Java maps all of Unicode. The same holds for `EqualsIgnoreCase`.
- JavaString.StripSuffix: `$` in Java also matches before a final line terminator. The strings it is applied to always end in a space when non-empty, so this never arises.
- The fuel bound on requests: scans longer than the fuel end with `FuelSpent`, and the closing code is not claimed for them.
- A null next cursor from the backend is not modelled; cursors are strings.
- A `RuntimeException` other than the missing field (for example, from a misbehaving callback) is not modelled. The missing `__result` field is modelled as a crash ending the export.
- OpenAireSolrClient.CursorScan: the openaire client's generic callback is the caller's. The scan does not model what it writes.
- OpenAireSolrClient.FetchMetadata: a server error is caught, while an `IOException` propagates to the caller. Both are one `BackendFailed` stop here.
- OpenAireConnector.SearchFillsHeader: `SearchResult`'s own defaults are not part of this model. A field no setter was called for is `None`.

## Findings

| source | as written | input that shows it | evidently intended | confidence | as-written member | corrected member |
|---|---|---|---|---|---|---|
| src/main/java/eu/openminted/content/connector/OpenAireConnector.java:88-90 | every document replaces the publication list with a new one before adding its own, so only the last publication survives | a page of two documents that both parse | one list holding the publication of every document, in page order | not executed | OpenAireConnector.TwoDocumentsLoseOne | OpenAireConnector.AsWrittenVersusCorrected |
