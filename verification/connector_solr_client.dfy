/** `eu.openminted.content.connector.OpenAireSolrClient`: bare plain values, a window
    that starts from `0`/`10` on every call, and an export into the instance's pipe with
    no limit through the logging copy of the callback. */
module ConnectorSolrClient {
  import opened Wrappers
  import opened JavaInt
  import opened QueryModel
  import opened FilterClauses
  import opened QueryBuilder
  import opened Streams
  import opened StreamingCallback
  import opened Paging
  import opened ExportScan

  /** `queryBuilder`: the window is local, so every call starts from `start = 0, rows = 10`. */
  function Translate(q: Query, cal: Calendar): Result<Translated, TranslationError> {
    BuildQuery(InitialWindow, q, cal, Bare).result
  }

  /** The translation depends on the query alone: every call starts from `start = 0,
      rows = 10`, so a positive `from` is the start and otherwise the start is 0, and a
      positive `to` sets the rows (`to - start`, wrapped) while otherwise they stay 10. */
  lemma TranslateIsStateless(q: Query, cal: Calendar)
    ensures Translate(q, cal).Success? ==>
      && (q.from > 0 ==> Translate(q, cal).value.start == q.from)
      && (q.from <= 0 ==> Translate(q, cal).value.start == 0)
      && (q.to <= 0 ==> Translate(q, cal).value.rows == 10)
      && (q.from <= 0 && q.to > 0 ==> Translate(q, cal).value.rows == q.to)
      && (q.from > 0 && q.to > 0 ==> Translate(q, cal).value.rows == Wrap32(q.to - q.from))
  {
    Wrap32Identity(q.to);
  }

  /** `to` below `from` gives a negative row count; nothing rejects it. */
  lemma NegativeRows(cal: Calendar)
    ensures var r := Translate(Query("x", 20, 5, None, None), cal);
      r.Success? && r.value.start == 20 && r.value.rows == -15
  {
    Wrap32Identity(-15);
  }

  /** `fetchMetadata(query)`: translate (a failed translation throws before anything is
      written), then export with no limit until the cursor repeats. */
  method FetchMetadata(q: Query, cal: Calendar, parse: Parser, backend: Backend, sink: Sink, fuel: nat)
    returns (out: Export)
    ensures Translate(q, cal).Failure? ==> out == Export([], TranslationFailed(Translate(q, cal).error), sink)
    ensures Translate(q, cal).Success? ==>
      && Exported(out, sink, LogOnly, Translate(q, cal).value.rows, None, parse, backend, fuel)
      && (fuel > 0 ==> |out.requests| > 0)
  {
    var t := Translate(q, cal);
    if t.Failure? {
      return Export([], TranslationFailed(t.error), sink);
    }
    out := RunExport(LogOnly, t.value.rows, None, parse, backend, sink, fuel);
  }

  /** Without a limit, a run that completes has stopped at the first request whose cursor
      came back unchanged. */
  lemma CompletesOnlyWhenExhausted(out: Export, sink: Sink, rows: int, parse: Parser, backend: Backend, fuel: nat)
    requires Exported(out, sink, LogOnly, rows, None, parse, backend, fuel)
    requires LoopCompleted(out.stop)
    ensures out.stop.Exhausted?
    ensures |out.requests| > 0 && IsRepeat(backend, |out.requests| - 1)
    ensures forall i :: 0 <= i < |out.requests| - 1 ==> !IsRepeat(backend, i)
  {
    assert RequestsFollowCursor(out, backend, fuel) && !out.stop.LimitReached?;
    CompletedChain(out, backend, fuel);
  }

  /** The request side alone: a completed scan that did not stop on a limit stopped at its
      first repeated cursor. */
  lemma CompletedChain(out: Export, backend: Backend, fuel: nat)
    requires RequestsFollowCursor(out, backend, fuel)
    requires LoopCompleted(out.stop) && !out.stop.LimitReached?
    ensures out.stop.Exhausted?
    ensures |out.requests| > 0 && IsRepeat(backend, |out.requests| - 1)
    ensures forall i :: 0 <= i < |out.requests| - 1 ==> !IsRepeat(backend, i)
  {
    ChainedRequestsMeaning(backend, out.requests);
    forall i | 0 <= i < |out.requests| - 1 ensures !IsRepeat(backend, i) {
      assert Advances(backend, out.requests[i]);
    }
  }
}
