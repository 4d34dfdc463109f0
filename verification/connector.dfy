/** `OpenAireConnector.search`: one synchronous page. The window and hit count are copied
    from the response, every facet field becomes a facet, and each document's record is
    parsed into a publication. Any exception ends the aggregation and is swallowed: the
    caller gets the result object as far as it was filled. */
module OpenAireConnector {
  import opened Wrappers
  import opened JavaInt
  import opened QueryModel
  import opened StreamingCallback
  import opened Paging
  import ConnectorSolrClient

  // ---------------------------------------------------------------------
  // The response and the result
  // ---------------------------------------------------------------------

  /** One bucket of a facet field: the value and its document count (a `long`). */
  datatype FacetCount = FacetCount(name: string, count: int)

  datatype FacetField = FacetField(name: string, values: seq<FacetCount>)

  /** What `query` returns: the page's offset and the hit count (both `long`), the page's
      documents and the facet fields (null when faceting was off). */
  datatype QueryResponse = QueryResponse(
    start: int,
    numFound: int,
    docs: seq<Document>,
    facetFields: Option<seq<FacetField>>)

  /** The backend for the synchronous path: the response to a translated query, or the
      exception the client threw. */
  type Searcher = Translated -> Result<QueryResponse, BackendError>

  /** A facet value of the domain model; the count is an `int`. */
  datatype Value = Value(value: string, count: int)

  /** `label` is a Dafny keyword; `caption` holds the facet's label. */
  datatype Facet = Facet(caption: string, field: string, values: seq<Value>)

  /** The domain result. `None` is a field no setter was called for. */
  datatype SearchResult = SearchResult(
    from: Option<int>,
    to: Option<int>,
    totalHits: Option<int>,
    facets: Option<seq<Facet>>,
    publications: Option<seq<string>>)

  /** `new SearchResult()`. */
  const Unset: SearchResult := SearchResult(None, None, None, None, None)

  // ---------------------------------------------------------------------
  // Window and facets
  // ---------------------------------------------------------------------

  /** Lines 39-41: the `long` offset and hit count cast to `int`; `to` adds the number of
      documents to the already cast offset in `int` arithmetic. */
  function Header(resp: QueryResponse): (r: SearchResult)
    ensures r.facets.None? && r.publications.None?
    ensures r.from.Some? && r.to.Some? && r.totalHits.Some?
    ensures InInt32(r.from.value) && InInt32(r.to.value) && InInt32(r.totalHits.value)
    ensures (r.from.value - resp.start) % Modulus == 0 && (r.totalHits.value - resp.numFound) % Modulus == 0
    ensures (r.to.value - r.from.value - |resp.docs|) % Modulus == 0
  {
    Unset.(from := Some(Wrap32(resp.start)),
           to := Some(Wrap32(Wrap32(resp.start) + |resp.docs|)),
           totalHits := Some(Wrap32(resp.numFound)))
  }

  /** When the offset and the end of the page fit in an `int`, the window is exact. */
  lemma HeaderExact(resp: QueryResponse)
    requires 0 <= resp.start && resp.start + |resp.docs| <= IntMax
    requires 0 <= resp.numFound <= IntMax
    ensures Header(resp).from == Some(resp.start)
    ensures Header(resp).to == Some(resp.start + |resp.docs|)
    ensures Header(resp).totalHits == Some(resp.numFound)
    ensures Header(resp).to.value - Header(resp).from.value == |resp.docs|
  {
    Wrap32Identity(resp.start);
    Wrap32Identity(resp.start + |resp.docs|);
    Wrap32Identity(resp.numFound);
  }

  function ToValue(c: FacetCount): Value {
    Value(c.name, Wrap32(c.count))
  }

  function ToFacet(ff: FacetField): Facet {
    Facet(ff.name, ff.name, seq(|ff.values|, i requires 0 <= i < |ff.values| => ToValue(ff.values[i])))
  }

  /** Lines 43-61: one facet per facet field, in the response's order; no facet fields
      give an empty list. */
  function FacetsOf(fields: Option<seq<FacetField>>): (r: seq<Facet>)
    ensures fields.None? ==> r == []
    ensures fields.Some? ==> |r| == |fields.value|
    ensures fields.Some? ==> forall i :: 0 <= i < |r| ==>
      r[i].caption == r[i].field == fields.value[i].name && |r[i].values| == |fields.value[i].values|
  {
    match fields
    case None => []
    case Some(ffs) => seq(|ffs|, i requires 0 <= i < |ffs| => ToFacet(ffs[i]))
  }

  /** A facet read back as the facet field it came from. */
  function FromFacet(f: Facet): FacetField {
    FacetField(f.field, seq(|f.values|, i requires 0 <= i < |f.values| => FacetCount(f.values[i].value, f.values[i].count)))
  }

  predicate CountsFitInt(ffs: seq<FacetField>) {
    forall i, j :: 0 <= i < |ffs| && 0 <= j < |ffs[i].values| ==> InInt32(ffs[i].values[j].count)
  }

  lemma FacetRoundTrip(ff: FacetField)
    requires forall j :: 0 <= j < |ff.values| ==> InInt32(ff.values[j].count)
    ensures FromFacet(ToFacet(ff)) == ff
  {
    var back := FromFacet(ToFacet(ff)).values;
    forall j | 0 <= j < |ff.values|
      ensures back[j] == ff.values[j]
    {
      Wrap32Identity(ff.values[j].count);
    }
  }

  /** Nothing is lost, renamed or reordered: when every count fits in an `int`, the facet
      fields can be read back from the facets exactly, values in the same order. */
  lemma FacetsRoundTrip(ffs: seq<FacetField>)
    requires CountsFitInt(ffs)
    ensures var r := FacetsOf(Some(ffs));
      |r| == |ffs| && forall i :: 0 <= i < |r| ==> FromFacet(r[i]) == ffs[i]
  {
    var r := FacetsOf(Some(ffs));
    forall i | 0 <= i < |r|
      ensures FromFacet(r[i]) == ffs[i]
    {
      assert r[i] == ToFacet(ffs[i]);
      FacetRoundTrip(ffs[i]);
    }
  }

  // ---------------------------------------------------------------------
  // Publications
  // ---------------------------------------------------------------------

  /** How one pass of the document loop ends: with a publication, or with an exception
      thrown before the list is reset (a missing `__result` field at line 72, a parse
      error at line 88) or after it (a marshalling error in `getOMTDPublication`, line 90). */
  datatype DocumentOutcome = Publication(pub: string) | ThrowsBeforeReset | ThrowsAfterReset

  function ParseDocument(parse: Parser, doc: Document): DocumentOutcome {
    if ResultField !in doc then ThrowsBeforeReset
    else
      match parse(Envelope(doc[ResultField]))
      case Parsed(pub) => Publication(pub)
      case SyntaxError => ThrowsBeforeReset
      case MarshalError => ThrowsAfterReset
  }

  /** The publications of the documents before the first one that throws, in order. */
  function Collected(parse: Parser, docs: seq<Document>): (pubs: seq<string>)
    ensures |pubs| <= |docs|
    ensures forall i :: 0 <= i < |pubs| ==> ParseDocument(parse, docs[i]) == Publication(pubs[i])
    ensures |pubs| < |docs| ==> !ParseDocument(parse, docs[|pubs|]).Publication?
    decreases |docs|
  {
    if |docs| == 0 then []
    else
      match ParseDocument(parse, docs[0])
      case Publication(pub) => [pub] + Collected(parse, docs[1..])
      case ThrowsBeforeReset => []
      case ThrowsAfterReset => []
  }

  /** The document that ends the loop throws only after the list was reset. */
  predicate ResetThenThrow(parse: Parser, docs: seq<Document>) {
    var n := |Collected(parse, docs)|;
    n < |docs| && ParseDocument(parse, docs[n]).ThrowsAfterReset?
  }

  /** Lines 63-91 as written: each document first replaces the publication list with a
      fresh empty one, then adds its own publication. */
  function PublicationsAsWritten(r: SearchResult, parse: Parser, docs: seq<Document>): (out: SearchResult)
    ensures out == r.(publications := out.publications)
    ensures out.publications == r.publications || (out.publications.Some? && |out.publications.value| <= 1)
    decreases |docs|
  {
    if |docs| == 0 then r
    else
      match ParseDocument(parse, docs[0])
      case ThrowsBeforeReset => r
      case ThrowsAfterReset => r.(publications := Some([]))
      case Publication(pub) => PublicationsAsWritten(r.(publications := Some([pub])), parse, docs[1..])
  }

  /** The loop as evidently intended: one list, created before the loop, that every parsed
      document is appended to. */
  function PublicationsCorrected(r: SearchResult, parse: Parser, docs: seq<Document>): SearchResult {
    r.(publications := Some(Collected(parse, docs)))
  }

  /** As written, the loop leaves at most the last collected publication in the list: none
      when the document that stopped it threw after the reset, and the list untouched when
      the first document already threw before it. */
  lemma {:induction false} AsWrittenKeepsLast(r: SearchResult, parse: Parser, docs: seq<Document>)
    ensures var out := PublicationsAsWritten(r, parse, docs);
      var pubs := Collected(parse, docs);
      && out == r.(publications := out.publications)
      && (ResetThenThrow(parse, docs) ==> out.publications == Some([]))
      && (!ResetThenThrow(parse, docs) && |pubs| == 0 ==> out.publications == r.publications)
      && (!ResetThenThrow(parse, docs) && |pubs| > 0 ==> out.publications == Some([pubs[|pubs| - 1]]))
    decreases |docs|
  {
    if |docs| > 0 {
      match ParseDocument(parse, docs[0])
      case ThrowsBeforeReset =>
      case ThrowsAfterReset =>
      case Publication(pub) =>
        var r' := r.(publications := Some([pub]));
        AsWrittenKeepsLast(r', parse, docs[1..]);
        var rest := Collected(parse, docs[1..]);
        assert Collected(parse, docs) == [pub] + rest;
        assert |rest| < |docs[1..]| ==> docs[|rest| + 1] == docs[1..][|rest|];
    }
  }

  // ---------------------------------------------------------------------
  // search
  // ---------------------------------------------------------------------

  /** Lines 32-96 with the publication step supplied: translation and the backend call
      throw before anything is set; otherwise the window, then the facets, then the
      publications are filled in. */
  function Search(q: Query, cal: Calendar, searcher: Searcher, parse: Parser,
                  publications: (SearchResult, Parser, seq<Document>) -> SearchResult): SearchResult
  {
    match ConnectorSolrClient.Translate(q, cal)
    case Failure(_) => Unset
    case Success(t) =>
      match searcher(t)
      case Failure(_) => Unset
      case Success(resp) =>
        publications(Header(resp).(facets := Some(FacetsOf(resp.facetFields))), parse, resp.docs)
  }

  /** The search as written: all of the window, hit count and facets, or none of them; and
      never more than one publication. */
  function SearchAsWritten(q: Query, cal: Calendar, searcher: Searcher, parse: Parser): (r: SearchResult)
    ensures r == Unset || (r.from.Some? && r.to.Some? && r.totalHits.Some? && r.facets.Some?)
    ensures r.publications.Some? ==> |r.publications.value| <= 1
  {
    Search(q, cal, searcher, parse, PublicationsAsWritten)
  }

  function SearchCorrected(q: Query, cal: Calendar, searcher: Searcher, parse: Parser): SearchResult {
    Search(q, cal, searcher, parse, PublicationsCorrected)
  }

  /** Errors are swallowed: a failed translation or backend call yields the untouched
      result, with no sign of the failure. */
  lemma FailuresSwallowed(q: Query, cal: Calendar, searcher: Searcher, parse: Parser)
    requires ConnectorSolrClient.Translate(q, cal).Failure? ||
             searcher(ConnectorSolrClient.Translate(q, cal).value).Failure?
    ensures SearchAsWritten(q, cal, searcher, parse) == Unset
    ensures SearchCorrected(q, cal, searcher, parse) == Unset
  {
  }

  /** On a response, the window, hit count and facets come from the response whatever the
      documents hold; only the publication list depends on them. */
  lemma SearchFillsHeader(q: Query, cal: Calendar, searcher: Searcher, parse: Parser)
    requires ConnectorSolrClient.Translate(q, cal).Success?
    requires searcher(ConnectorSolrClient.Translate(q, cal).value).Success?
    ensures var resp := searcher(ConnectorSolrClient.Translate(q, cal).value).value;
      var out := SearchAsWritten(q, cal, searcher, parse);
      && out.from == Some(Wrap32(resp.start))
      && out.to == Some(Wrap32(Wrap32(resp.start) + |resp.docs|))
      && out.totalHits == Some(Wrap32(resp.numFound))
      && out.facets == Some(FacetsOf(resp.facetFields))
      && out == SearchCorrected(q, cal, searcher, parse).(publications := out.publications)
  {
    var resp := searcher(ConnectorSolrClient.Translate(q, cal).value).value;
    AsWrittenKeepsLast(Header(resp).(facets := Some(FacetsOf(resp.facetFields))), parse, resp.docs);
  }

  /** The corrected search keeps the publication of every document up to the first one
      that throws; the search as written keeps at most the last of them. */
  lemma AsWrittenVersusCorrected(q: Query, cal: Calendar, searcher: Searcher, parse: Parser)
    requires ConnectorSolrClient.Translate(q, cal).Success?
    requires searcher(ConnectorSolrClient.Translate(q, cal).value).Success?
    ensures var docs := searcher(ConnectorSolrClient.Translate(q, cal).value).value.docs;
      var pubs := Collected(parse, docs);
      var written := SearchAsWritten(q, cal, searcher, parse).publications;
      && SearchCorrected(q, cal, searcher, parse).publications == Some(pubs)
      && (ResetThenThrow(parse, docs) ==> written == Some([]))
      && (!ResetThenThrow(parse, docs) && |pubs| == 0 ==> written.None?)
      && (!ResetThenThrow(parse, docs) && |pubs| > 0 ==> written == Some([pubs[|pubs| - 1]]))
  {
    var resp := searcher(ConnectorSolrClient.Translate(q, cal).value).value;
    AsWrittenKeepsLast(Header(resp).(facets := Some(FacetsOf(resp.facetFields))), parse, resp.docs);
  }

  /** A page of two documents that both parse: the search as written returns one
      publication, the corrected search both. */
  lemma TwoDocumentsLoseOne(q: Query, cal: Calendar, searcher: Searcher, parse: Parser, a: Document, b: Document)
    requires ConnectorSolrClient.Translate(q, cal).Success?
    requires searcher(ConnectorSolrClient.Translate(q, cal).value).Success?
    requires searcher(ConnectorSolrClient.Translate(q, cal).value).value.docs == [a, b]
    requires ParseDocument(parse, a).Publication? && ParseDocument(parse, b).Publication?
    ensures SearchAsWritten(q, cal, searcher, parse).publications == Some([ParseDocument(parse, b).pub])
    ensures SearchCorrected(q, cal, searcher, parse).publications ==
      Some([ParseDocument(parse, a).pub, ParseDocument(parse, b).pub])
  {
    AsWrittenVersusCorrected(q, cal, searcher, parse);
    CollectedTwo(parse, a, b);
  }

  lemma CollectedTwo(parse: Parser, a: Document, b: Document)
    requires ParseDocument(parse, a).Publication? && ParseDocument(parse, b).Publication?
    ensures Collected(parse, [a, b]) == [ParseDocument(parse, a).pub, ParseDocument(parse, b).pub]
  {
    assert [a, b][1..] == [b];
    assert [b][1..] == [];
    assert Collected(parse, [b]) == [ParseDocument(parse, b).pub] + Collected(parse, []);
  }
}
