/** The cursor scan of the two clients that stream every page into the pipe through
    their own callback and write the closing tag once the scan is over. */
module ExportScan {
  import opened Wrappers
  import opened JavaInt
  import opened Streams
  import opened StreamingCallback
  import opened Paging

  /** The requests follow the cursor chain, and the stop reason is justified by the last one. */
  predicate RequestsFollowCursor(out: Export, backend: Backend, fuel: nat) {
    && ChainedRequests(backend, out.requests)
    && |out.requests| <= fuel
    && (out.stop.Exhausted? ==> |out.requests| > 0 && IsRepeat(backend, |out.requests| - 1))
    && (out.stop.BackendFailed? ==>
         |out.requests| > 0 && backend(out.requests[|out.requests| - 1]) == Failed(out.stop.cause))
    && (out.stop.DocumentCrashed? ==>
         |out.requests| > 0 && !FieldsPresent(backend, ResultField, out.requests) &&
         FieldsPresent(backend, ResultField, out.requests[..|out.requests| - 1]))
    && (!out.stop.DocumentCrashed? ==> FieldsPresent(backend, ResultField, out.requests))
    && (out.stop.FuelSpent? ==> |out.requests| == fuel)
    && (out.stop.Exhausted? || out.stop.LimitReached? || out.stop.BackendFailed? ||
        out.stop.DocumentCrashed? || out.stop.FuelSpent?)
  }

  /** The limit test after each page: `count >= limit`, without a positivity check. */
  predicate LimitRespected(out: Export, rows: int, limit: Option<int>) {
    && (limit.None? ==> !out.stop.LimitReached?)
    && (limit.Some? ==> forall i :: 1 <= i < |out.requests| ==> CountAfter(i, rows) < limit.value)
    && (out.stop.LimitReached? ==> limit.Some? && CountAfter(|out.requests|, rows) >= limit.value)
    && (out.stop.Exhausted? && limit.Some? ==> CountAfter(|out.requests|, rows) < limit.value)
  }

  /** The scan only appends records: no closing tag, nothing rewritten, writability kept,
      a closed pipe stays closed and the logging callback never closes it. */
  predicate PipeKept(after: Sink, sink: Sink, variant: Variant) {
    && |sink.chunks| <= |after.chunks| && after.chunks[..|sink.chunks|] == sink.chunks
    && TagCount(after.chunks) == TagCount(sink.chunks)
    && after.readerGone == sink.readerGone
    && (Writable(after) <==> Writable(sink))
    && (sink.closed ==> after.closed)
    && (variant == LogOnly ==> after.closed == sink.closed)
    && (!Writable(sink) ==> after.chunks == sink.chunks)
  }

  /** On a working pipe, the records are exactly those of the requested pages. */
  predicate RecordsExact(after: Sink, sink: Sink, requests: seq<string>, parse: Parser, backend: Backend) {
    Writable(sink) && FieldsPresent(backend, ResultField, requests) ==>
      after.chunks == sink.chunks + StreamedRecords(backend, ResultField, parse, requests)
  }

  /** When a document without the field aborts the scan, the pipe holds the records of the
      earlier pages, which were all whole, then those the last page wrote before the
      document without the field. */
  predicate RecordsOnCrash(after: Sink, sink: Sink, requests: seq<string>, parse: Parser, backend: Backend) {
    Writable(sink) && |requests| > 0 && FieldsPresent(backend, ResultField, requests[..|requests| - 1]) ==>
      after.chunks == sink.chunks + StreamedRecords(backend, ResultField, parse, requests[..|requests| - 1])
                      + Published(ResultField, parse, UntilMissing(ResultField, PageDocs(backend, requests[|requests| - 1])))
  }

  lemma StreamedRecordsStep(backend: Backend, parse: Parser, requests: seq<string>, cursor: string)
    requires FieldsPresent(backend, ResultField, requests + [cursor])
    ensures FieldsPresent(backend, ResultField, requests)
    ensures HasField(ResultField, PageDocs(backend, cursor))
    ensures StreamedRecords(backend, ResultField, parse, requests + [cursor]) ==
      StreamedRecords(backend, ResultField, parse, requests) + Published(ResultField, parse, PageDocs(backend, cursor))
  {
    assert forall i :: 0 <= i < |requests| ==> requests[i] == (requests + [cursor])[i];
    assert (requests + [cursor])[|requests|] == cursor;
    assert (requests + [cursor])[..|requests|] == requests;
  }

  /** One page keeps the pipe facts, whether or not one of its documents crashed. */
  lemma PageKeepsPipe(variant: Variant, parse: Parser, sink: Sink, cur: Sink, docs: seq<Document>)
    requires PipeKept(cur, sink, variant)
    ensures PipeKept(StreamPage(variant, ResultField, parse, cur, docs).sink, sink, variant)
  {
    var after := StreamPage(variant, ResultField, parse, cur, docs).sink;
    StreamPageAppendsRecords(variant, ResultField, parse, cur, docs);
    StreamPageClosing(variant, ResultField, parse, cur, docs);
    PrefixOfPrefix(sink.chunks, cur.chunks, after.chunks);
  }

  /** One page whose documents all carry the field extends the exact record log. */
  lemma PageKeepsRecords(variant: Variant, parse: Parser, backend: Backend, sink: Sink, cur: Sink,
                         requests: seq<string>, cursor: string)
    requires backend(cursor).Page?
    requires Writable(cur) <==> Writable(sink)
    requires RecordsExact(cur, sink, requests, parse, backend)
    ensures RecordsExact(StreamPage(variant, ResultField, parse, cur, backend(cursor).docs).sink,
                         sink, requests + [cursor], parse, backend)
  {
    if Writable(sink) && FieldsPresent(backend, ResultField, requests + [cursor]) {
      var docs := backend(cursor).docs;
      StreamedRecordsStep(backend, parse, requests, cursor);
      assert PageDocs(backend, cursor) == docs;
      StreamPagePublishes(variant, ResultField, parse, cur, docs);
      ChunksAssoc(sink.chunks, StreamedRecords(backend, ResultField, parse, requests), Published(ResultField, parse, docs));
    }
  }

  /** Everything a scan guarantees when it stops. */
  predicate Finished(out: Export, variant: Variant, rows: int, limit: Option<int>, parse: Parser,
                     backend: Backend, sink: Sink, fuel: nat) {
    && RequestsFollowCursor(out, backend, fuel)
    && LimitRespected(out, rows, limit)
    && PipeKept(out.sink, sink, variant)
    && RecordsExact(out.sink, sink, out.requests, parse, backend)
    && (out.stop.DocumentCrashed? ==> RecordsOnCrash(out.sink, sink, out.requests, parse, backend))
  }

  /** The loop's state between requests. */
  datatype ScanState = ScanState(requests: seq<string>, cursor: string, count: int, pipe: Sink)

  /** The loop invariant, request side: the count and the cursor after n completed pages,
      each of which passed the limit test. */
  predicate Counting(st: ScanState, rows: int, limit: Option<int>, backend: Backend, fuel: nat) {
    && |st.requests| <= fuel
    && st.count == CountAfter(|st.requests|, rows)
    && st.cursor == CursorAt(backend, |st.requests|)
    && Chain(backend, st.requests)
    && (limit.Some? ==> forall i :: 1 <= i <= |st.requests| ==> CountAfter(i, rows) < limit.value)
  }

  /** The loop invariant, pipe side: every page streamed whole, into the pipe. */
  predicate Piping(st: ScanState, variant: Variant, parse: Parser, backend: Backend, sink: Sink) {
    && FieldsPresent(backend, ResultField, st.requests)
    && PipeKept(st.pipe, sink, variant)
    && RecordsExact(st.pipe, sink, st.requests, parse, backend)
  }

  predicate Running(st: ScanState, variant: Variant, rows: int, limit: Option<int>, parse: Parser,
                    backend: Backend, sink: Sink, fuel: nat) {
    Counting(st, rows, limit, backend, fuel) && Piping(st, variant, parse, backend, sink)
  }

  lemma FuelStop(st: ScanState, variant: Variant, rows: int, limit: Option<int>, parse: Parser,
                 backend: Backend, sink: Sink, fuel: nat)
    requires Running(st, variant, rows, limit, parse, backend, sink, fuel)
    requires |st.requests| == fuel
    ensures Finished(Export(st.requests, FuelSpent, st.pipe), variant, rows, limit, parse, backend, sink, fuel)
  {
  }

  lemma FailedStop(st: ScanState, variant: Variant, rows: int, limit: Option<int>, parse: Parser,
                   backend: Backend, sink: Sink, fuel: nat, e: BackendError)
    requires Running(st, variant, rows, limit, parse, backend, sink, fuel)
    requires |st.requests| < fuel && backend(st.cursor) == Failed(e)
    ensures Finished(Export(st.requests + [st.cursor], BackendFailed(e), st.pipe), variant, rows, limit, parse, backend, sink, fuel)
  {
    var r := st.requests + [st.cursor];
    var out := Export(r, BackendFailed(e), st.pipe);
    ChainExtends(backend, st.requests);
    assert FieldsPresent(backend, ResultField, r) by {
      assert PageDocs(backend, st.cursor) == [];
      assert forall i :: 0 <= i < |st.requests| ==> r[i] == st.requests[i];
    }
    assert RequestsFollowCursor(out, backend, fuel);
    assert LimitRespected(out, rows, limit);
    assert RecordsExact(st.pipe, sink, r, parse, backend) by {
      StreamedRecordsStep(backend, parse, st.requests, st.cursor);
      assert Published(ResultField, parse, []) == [];
    }
  }

  /** The pipe and the requests after the page of the current cursor has been streamed. */
  lemma PageFacts(st: ScanState, variant: Variant, rows: int, limit: Option<int>, parse: Parser,
                  backend: Backend, sink: Sink, fuel: nat)
    requires Running(st, variant, rows, limit, parse, backend, sink, fuel)
    requires |st.requests| < fuel && backend(st.cursor).Page?
    ensures var page := StreamPage(variant, ResultField, parse, st.pipe, backend(st.cursor).docs);
      var r := st.requests + [st.cursor];
      && ChainedRequests(backend, r)
      && PipeKept(page.sink, sink, variant)
      && RecordsExact(page.sink, sink, r, parse, backend)
      && r[..|st.requests|] == st.requests
      && (page.crash.None? <==> FieldsPresent(backend, ResultField, r))
  {
    var docs := backend(st.cursor).docs;
    var r := st.requests + [st.cursor];
    ChainExtends(backend, st.requests);
    PageKeepsPipe(variant, parse, sink, st.pipe, docs);
    PageKeepsRecords(variant, parse, backend, sink, st.pipe, st.requests, st.cursor);
    assert r[..|st.requests|] == st.requests;
    assert forall i :: 0 <= i < |st.requests| ==> r[i] == st.requests[i];
    assert r[|st.requests|] == st.cursor;
    assert PageDocs(backend, st.cursor) == docs;
  }

  /** Whether the limit test after a page fires. */
  predicate LimitFires(count: int, limit: Option<int>) {
    limit.Some? && count >= limit.value
  }

  /** A request whose page crashed, hit the limit, or repeated the cursor ends the scan. */
  lemma PageStop(st: ScanState, variant: Variant, rows: int, limit: Option<int>, parse: Parser,
                 backend: Backend, sink: Sink, fuel: nat, stop: Stop)
    requires Running(st, variant, rows, limit, parse, backend, sink, fuel)
    requires |st.requests| < fuel && backend(st.cursor).Page?
    requires var page := StreamPage(variant, ResultField, parse, st.pipe, backend(st.cursor).docs);
      var count := CountAfter(|st.requests| + 1, rows);
      || (stop.DocumentCrashed? && page.crash == Some(stop.crash))
      || (stop.LimitReached? && page.crash.None? && LimitFires(count, limit))
      || (stop.Exhausted? && page.crash.None? && !LimitFires(count, limit) && backend(st.cursor).next == st.cursor)
    ensures var page := StreamPage(variant, ResultField, parse, st.pipe, backend(st.cursor).docs);
      Finished(Export(st.requests + [st.cursor], stop, page.sink), variant, rows, limit, parse, backend, sink, fuel)
  {
    var n := |st.requests|;
    var r := st.requests + [st.cursor];
    var page := StreamPage(variant, ResultField, parse, st.pipe, backend(st.cursor).docs);
    var out := Export(r, stop, page.sink);
    PageFacts(st, variant, rows, limit, parse, backend, sink, fuel);
    assert RequestsFollowCursor(out, backend, fuel) by {
      if stop.Exhausted? {
        assert IsRepeat(backend, n);
      }
    }
    assert LimitRespected(out, rows, limit);
    if stop.DocumentCrashed? && Writable(sink) {
      CrashRecords(st, variant, parse, backend, sink);
    }
  }

  /** The pipe after a page of the current cursor, on a working pipe, whatever its documents. */
  lemma CrashRecords(st: ScanState, variant: Variant, parse: Parser, backend: Backend, sink: Sink)
    requires Piping(st, variant, parse, backend, sink)
    requires backend(st.cursor).Page? && Writable(sink)
    ensures RecordsOnCrash(StreamPage(variant, ResultField, parse, st.pipe, backend(st.cursor).docs).sink,
                           sink, st.requests + [st.cursor], parse, backend)
  {
    var docs := backend(st.cursor).docs;
    var r := st.requests + [st.cursor];
    assert r[..|r| - 1] == st.requests && r[|r| - 1] == st.cursor;
    assert PageDocs(backend, st.cursor) == docs;
    StreamPageWritesUntilMissing(variant, ResultField, parse, st.pipe, docs);
    ChunksAssoc(sink.chunks, StreamedRecords(backend, ResultField, parse, st.requests),
                Published(ResultField, parse, UntilMissing(ResultField, docs)));
  }

  /** A page with a new cursor, under the limit, leads to the next request. */
  lemma CountingContinues(st: ScanState, rows: int, limit: Option<int>, backend: Backend, fuel: nat, pipe: Sink)
    requires Counting(st, rows, limit, backend, fuel)
    requires |st.requests| < fuel && Advances(backend, st.cursor)
    requires !LimitFires(CountAfter(|st.requests| + 1, rows), limit)
    ensures Counting(ScanState(st.requests + [st.cursor], backend(st.cursor).next, CountAfter(|st.requests| + 1, rows), pipe),
                     rows, limit, backend, fuel)
  {
    ChainContinues(backend, st.requests);
  }

  /** A page whose documents all carry the field keeps the pipe side. */
  lemma PipingContinues(st: ScanState, variant: Variant, parse: Parser, backend: Backend, sink: Sink,
                        cursor: string, count: int)
    requires Piping(st, variant, parse, backend, sink)
    requires backend(st.cursor).Page?
    requires StreamPage(variant, ResultField, parse, st.pipe, backend(st.cursor).docs).crash.None?
    ensures var page := StreamPage(variant, ResultField, parse, st.pipe, backend(st.cursor).docs);
      Piping(ScanState(st.requests + [st.cursor], cursor, count, page.sink), variant, parse, backend, sink)
  {
    var docs := backend(st.cursor).docs;
    var r := st.requests + [st.cursor];
    PageKeepsPipe(variant, parse, sink, st.pipe, docs);
    PageKeepsRecords(variant, parse, backend, sink, st.pipe, st.requests, st.cursor);
    assert FieldsPresent(backend, ResultField, r) by {
      assert forall i :: 0 <= i < |st.requests| ==> r[i] == st.requests[i];
      assert r[|st.requests|] == st.cursor;
      assert PageDocs(backend, st.cursor) == docs;
    }
  }

  /** One request: stream the page, then `count += rows`, the limit test and the cursor
      comparison. The result is either the state for the next request or the stop. */
  method Advance(st: ScanState, variant: Variant, rows: Int32, limit: Option<int>, parse: Parser,
                 backend: Backend, sink: Sink, fuel: nat)
    returns (st': ScanState, stop: Option<Stop>)
    requires Running(st, variant, rows, limit, parse, backend, sink, fuel)
    requires |st.requests| < fuel
    ensures |st'.requests| == |st.requests| + 1
    ensures stop.None? ==> Running(st', variant, rows, limit, parse, backend, sink, fuel)
    ensures stop.Some? ==> Finished(Export(st'.requests, stop.value, st'.pipe), variant, rows, limit, parse, backend, sink, fuel)
  {
    var r := st.requests + [st.cursor];
    match backend(st.cursor)
    case Failed(e) =>
      FailedStop(st, variant, rows, limit, parse, backend, sink, fuel, e);
      return ScanState(r, st.cursor, st.count, st.pipe), Some(BackendFailed(e));
    case Page(docs, next) =>
      var page := StreamPage(variant, ResultField, parse, st.pipe, docs);
      if page.crash.Some? {
        PageStop(st, variant, rows, limit, parse, backend, sink, fuel, DocumentCrashed(page.crash.value));
        return ScanState(r, st.cursor, st.count, page.sink), Some(DocumentCrashed(page.crash.value));
      }
      var count := Wrap32(st.count + rows);
      assert count == CountAfter(|r|, rows);
      if LimitFires(count, limit) {
        PageStop(st, variant, rows, limit, parse, backend, sink, fuel, LimitReached);
        return ScanState(r, st.cursor, count, page.sink), Some(LimitReached);
      }
      if st.cursor == next {
        PageStop(st, variant, rows, limit, parse, backend, sink, fuel, Exhausted);
        return ScanState(r, st.cursor, count, page.sink), Some(Exhausted);
      }
      CountingContinues(st, rows, limit, backend, fuel, page.sink);
      PipingContinues(st, variant, parse, backend, sink, next, count);
      st' := ScanState(r, next, count, page.sink);
      stop := None;
  }

  /** The loop, from the start cursor and an empty count, until a request stops it or the
      fuel is spent. */
  method StreamingScan(variant: Variant, rows: Int32, limit: Option<int>, parse: Parser,
                       backend: Backend, sink: Sink, fuel: nat)
    returns (out: Export)
    ensures Finished(out, variant, rows, limit, parse, backend, sink, fuel)
    ensures fuel > 0 ==> |out.requests| > 0
  {
    var st := ScanState([], CursorMarkStart, 0, sink);
    assert sink.chunks[..|sink.chunks|] == sink.chunks;
    while true
      invariant Running(st, variant, rows, limit, parse, backend, sink, fuel)
      decreases fuel - |st.requests|
    {
      if |st.requests| == fuel {
        FuelStop(st, variant, rows, limit, parse, backend, sink, fuel);
        return Export(st.requests, FuelSpent, st.pipe);
      }
      var stop;
      st, stop := Advance(st, variant, rows, limit, parse, backend, sink, fuel);
      if stop.Some? {
        return Export(st.requests, stop.value, st.pipe);
      }
    }
  }

  /** After the loop: a completed scan writes the closing tag (an IOException there is
      caught); then the `finally` block closes the pipe, for a completed scan as for one a
      request or a document aborted. */
  function Finish(stop: Stop, sink: Sink): (r: Sink)
    ensures LoopCompleted(stop) && Writable(sink) ==> r.chunks == sink.chunks + [ClosingTag]
    ensures !(LoopCompleted(stop) && Writable(sink)) ==> r.chunks == sink.chunks
    ensures r.readerGone == sink.readerGone
    ensures r.closed <==> sink.closed || stop != FuelSpent
  {
    if stop.FuelSpent? then sink
    else
      var tagged := if LoopCompleted(stop) then Write(sink, ClosingTag) else None;
      Close(if tagged.Some? then tagged.value else sink)
  }

  /** What an export leaves in the pipe: the records of the requested pages (of a crashed
      last page, those before its document without the field), then the closing tag exactly
      when the scan completed on a working pipe; and a closed pipe unless the run was cut
      short by the model's fuel. */
  predicate Exported(out: Export, sink: Sink, variant: Variant, rows: int, limit: Option<int>, parse: Parser,
                     backend: Backend, fuel: nat) {
    && RequestsFollowCursor(out, backend, fuel)
    && LimitRespected(out, rows, limit)
    && out.sink.readerGone == sink.readerGone
    && |sink.chunks| <= |out.sink.chunks| && out.sink.chunks[..|sink.chunks|] == sink.chunks
    && TagCount(out.sink.chunks) == TagCount(sink.chunks) + (if LoopCompleted(out.stop) && Writable(sink) then 1 else 0)
    && (LoopCompleted(out.stop) && Writable(sink) ==> out.sink.chunks[|out.sink.chunks| - 1] == ClosingTag)
    && (Writable(sink) && FieldsPresent(backend, ResultField, out.requests) ==>
         out.sink.chunks == sink.chunks + StreamedRecords(backend, ResultField, parse, out.requests)
                            + (if LoopCompleted(out.stop) then [ClosingTag] else []))
    && (out.stop.DocumentCrashed? ==> RecordsOnCrash(out.sink, sink, out.requests, parse, backend))
    && (!Writable(sink) ==> out.sink.chunks == sink.chunks)
    && (sink.closed ==> out.sink.closed)
    && (!out.stop.FuelSpent? ==> out.sink.closed)
    && (variant == LogOnly ==> (out.sink.closed <==> sink.closed || !out.stop.FuelSpent?))
  }

  lemma FinishExported(scan: Export, sink: Sink, variant: Variant, rows: int, limit: Option<int>, parse: Parser,
                       backend: Backend, fuel: nat)
    requires Finished(scan, variant, rows, limit, parse, backend, sink, fuel)
    ensures Exported(Export(scan.requests, scan.stop, Finish(scan.stop, scan.sink)), sink, variant, rows, limit, parse, backend, fuel)
  {
    var after := Finish(scan.stop, scan.sink);
    if LoopCompleted(scan.stop) && Writable(sink) {
      TagAppended(sink.chunks, scan.sink.chunks, after.chunks);
    } else {
      assert scan.sink.chunks + [] == scan.sink.chunks;
    }
  }

  /** Appending the closing tag to a log that extends `base` keeps `base` as a prefix and
      adds one tag. */
  lemma TagAppended(base: seq<Chunk>, cur: seq<Chunk>, after: seq<Chunk>)
    requires |base| <= |cur| && cur[..|base|] == base
    requires after == cur + [ClosingTag]
    ensures |base| <= |after| && after[..|base|] == base
    ensures TagCount(after) == TagCount(cur) + 1
    ensures after[|after| - 1] == ClosingTag
  {
    TagCountAppend(cur, [ClosingTag]);
    assert TagCount([ClosingTag]) == 1 by {
      assert [ClosingTag][..0] == [];
    }
    PrefixOfPrefix(base, cur, after);
  }

  /** The export: the scan, then the closing tag and the close. */
  method RunExport(variant: Variant, rows: Int32, limit: Option<int>, parse: Parser,
                   backend: Backend, sink: Sink, fuel: nat)
    returns (out: Export)
    ensures Exported(out, sink, variant, rows, limit, parse, backend, fuel)
    ensures fuel > 0 ==> |out.requests| > 0
  {
    var scan := StreamingScan(variant, rows, limit, parse, backend, sink, fuel);
    FinishExported(scan, sink, variant, rows, limit, parse, backend, fuel);
    out := Export(scan.requests, scan.stop, Finish(scan.stop, scan.sink));
  }

  /** What the reader sees: on a pipe that had no closing tag, an export leaves one exactly
      when it completed on a working pipe, and then the bytes end with its text. A stream
      that closes without the tag is a truncated export. */
  lemma ExportTagMeansCompleted(out: Export, sink: Sink, variant: Variant, rows: int, limit: Option<int>,
                                parse: Parser, backend: Backend, fuel: nat)
    requires Exported(out, sink, variant, rows, limit, parse, backend, fuel)
    ensures TagCount(sink.chunks) == 0 ==>
      (TagCount(out.sink.chunks) > 0 <==> LoopCompleted(out.stop) && Writable(sink))
    ensures LoopCompleted(out.stop) && Writable(sink) ==>
      && |Bytes(out.sink.chunks)| >= |ClosingTagText|
      && Bytes(out.sink.chunks)[|Bytes(out.sink.chunks)| - |ClosingTagText|..] == ClosingTagText
  {
    if LoopCompleted(out.stop) && Writable(sink) {
      BytesEndWithTag(out.sink.chunks);
    }
  }
}
