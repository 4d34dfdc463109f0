/** `eu.openminted.content.OpenAireSolrClient`: bare plain values, a `start`/`rows` window
    kept in the instance, and an export into the instance's pipe whose limit is a string
    parsed on every call and checked after each page. */
module ContentSolrClient {
  import opened Wrappers
  import opened JavaInt
  import opened QueryModel
  import opened FilterClauses
  import opened QueryBuilder
  import opened Streams
  import opened StreamingCallback
  import opened Paging
  import opened ExportScan

  /** `Integer.parseInt(queryLimit)`; a null string throws as a malformed one does. */
  function LimitOf(queryLimit: Option<string>): (r: Option<int>)
    ensures r.Some? ==> queryLimit.Some? && ParseInt(queryLimit.value) == r
    ensures queryLimit.Some? && ParseInt(queryLimit.value).Some? ==> r.Some?
  {
    match queryLimit
    case None => None
    case Some(s) => ParseInt(s)
  }

  /** `fetchMetadata(query)`: translate (the window is updated first, and a failed
      translation throws before anything is written), parse the limit (a bad one throws
      likewise, leaving the pipe open), then export through the closing copy of the callback. */
  method FetchMetadata(w: Window, q: Query, cal: Calendar, queryLimit: Option<string>, parse: Parser,
                       backend: Backend, sink: Sink, fuel: nat)
    returns (w': Window, out: Export)
    ensures w' == NextWindow(w, q)
    ensures BuildQuery(w, q, cal, Bare).result.Failure? ==>
      out == Export([], TranslationFailed(BuildQuery(w, q, cal, Bare).result.error), sink)
    ensures BuildQuery(w, q, cal, Bare).result.Success? && LimitOf(queryLimit).None? ==>
      out == Export([], BadLimit, sink)
    ensures BuildQuery(w, q, cal, Bare).result.Success? && LimitOf(queryLimit).Some? ==>
      && Exported(out, sink, CloseOnWriteError, w'.rows, LimitOf(queryLimit), parse, backend, fuel)
      && (fuel > 0 ==> |out.requests| > 0)
  {
    var t := BuildQuery(w, q, cal, Bare);
    w' := t.window;
    if t.result.Failure? {
      return w', Export([], TranslationFailed(t.result.error), sink);
    }
    var limit := LimitOf(queryLimit);
    if limit.None? {
      return w', Export([], BadLimit, sink);
    }
    out := RunExport(CloseOnWriteError, w'.rows, limit, parse, backend, sink, fuel);
  }

  /** With a positive limit that leaves room for one more page below the `int` maximum, an
      export sends at most ceil(limit / rows) requests, exactly that many when it stops on
      the limit; with a limit of zero or less and non-negative rows, only the first page is
      requested, because the test after it already passes. */
  lemma ExportPageBound(out: Export, sink: Sink, rows: Int32, limit: int, parse: Parser, backend: Backend, fuel: nat)
    requires Exported(out, sink, CloseOnWriteError, rows, Some(limit), parse, backend, fuel)
    ensures rows > 0 && limit > 0 && limit + rows - 1 <= IntMax ==> |out.requests| <= CeilDiv(limit, rows)
    ensures rows > 0 && limit > 0 && limit + rows - 1 <= IntMax && out.stop.LimitReached? ==>
      |out.requests| == CeilDiv(limit, rows)
    ensures rows >= 0 && limit <= 0 ==> |out.requests| <= 1
  {
    var n := |out.requests|;
    if rows > 0 && limit > 0 && limit + rows - 1 <= IntMax {
      assert forall i :: 0 <= i < n ==> CountAfter(i, rows) < limit by {
        forall i | 0 <= i < n ensures CountAfter(i, rows) < limit {
          if i == 0 {
            assert CountAfter(0, rows) == 0;
          }
        }
      }
      PageBound(n, rows, limit);
      if out.stop.LimitReached? {
        PageBoundExact(n, rows, limit);
      }
    }
    if rows >= 0 && limit <= 0 && n > 1 {
      assert CountAfter(1, rows) == Wrap32(0 + rows);
      Wrap32Identity(rows);
      assert false;
    }
  }
}
