/** `eu.openminted.content.openaire.OpenAireSolrClient`: quoted plain values, a `start`/`rows`
    window kept in the instance, and a cursor scan bounded by a positive `queryLimit`
    checked before every request. The documents go to a caller-supplied callback, which
    this model does not look into. */
module OpenAireSolrClient {
  import opened Wrappers
  import opened JavaInt
  import opened JavaString
  import opened QueryModel
  import opened FilterClauses
  import opened QueryBuilder
  import opened Paging

  /** `queryBuilder`: the translation with quoted plain values; the instance keeps the window. */
  function Translate(w: Window, q: Query, cal: Calendar): (t: Translation)
  {
    BuildQuery(w, q, cal, Quoted)
  }

  /** A plain key with values `v1..vn` becomes `key:"v1" OR ... OR key:"vn"`, ahead of
      the mandatory filters. */
  lemma PlainValuesQuoted(w: Window, q: Query, cal: Calendar, key: string, vals: seq<string>)
    requires q.params == Some([(key, vals)])
    requires IsFilterKey(key) && !IsDateKey(key)
    ensures Translate(w, q, cal).result.Success?
    ensures Translate(w, q, cal).result.value.filters == [Join(QuotedTerms(key, vals), OrSeparator)] + MandatoryFilters
  {
    var ps := q.params.value;
    assert EntryAccepted(ps[0].0, ps);
    assert Translate(w, q, cal).result.Success?;
    BuildQueryParams(w, q, cal, Quoted);
    assert ClausesOf(ps[1..], cal, Quoted) == [];
    assert ClausesOf(ps, cal, Quoted) == [PlainClause(key, vals, Quoted)];
    QuotedTermsArePlainTerms(key, vals);
  }

  /** `key:"v"` for every value, in order. */
  function QuotedTerms(key: string, vals: seq<string>): seq<string> {
    seq(|vals|, i requires 0 <= i < |vals| => key + ":\"" + vals[i] + "\"")
  }

  lemma QuotedTermsArePlainTerms(key: string, vals: seq<string>)
    ensures QuotedTerms(key, vals) == PlainTerms(key, vals, Quoted)
  {
    forall i | 0 <= i < |vals|
      ensures QuotedTerms(key, vals)[i] == PlainTerms(key, vals, Quoted)[i]
    {
      assert key + ":" + ("\"" + vals[i] + "\"") == key + ":\"" + vals[i] + "\"";
    }
  }

  /** The window leaks between calls: after a query for results 5..25, a query without
      a window is served from offset 5 with 20 rows, not from 0 with 10. */
  lemma WindowLeaks(cal: Calendar)
    ensures var first := Query("a", 5, 25, None, None);
      var second := Query("b", 0, 0, None, None);
      var w1 := Translate(InitialWindow, first, cal).window;
      var r := Translate(w1, second, cal).result;
      r.Success? && r.value.start == 5 && r.value.rows == 20
  {
    Wrap32Identity(20);
  }

  /** The limit test at the head of the loop: a positive limit the count has reached. */
  predicate LimitHit(count: int, queryLimit: int) {
    queryLimit > 0 && count >= queryLimit
  }

  /** `fetchMetadata(query, callback)`: without a callback, nothing happens. Otherwise the
      query is translated once (a failed translation throws and sends nothing), then the
      cursor scan runs with the window's `rows`. */
  method FetchMetadata(w: Window, q: Query, cal: Calendar, hasCallback: bool, queryLimit: Int32,
                       backend: Backend, fuel: nat)
    returns (w': Window, scan: Scan)
    ensures !hasCallback ==> w' == w && scan == Scan([], NoCallback)
    ensures hasCallback ==> w' == Translate(w, q, cal).window
    ensures hasCallback && Translate(w, q, cal).result.Failure? ==>
      scan == Scan([], TranslationFailed(Translate(w, q, cal).result.error))
    ensures hasCallback && Translate(w, q, cal).result.Success? ==> ScanContract(scan, w'.rows, queryLimit, backend, fuel)
  {
    if !hasCallback {
      return w, Scan([], NoCallback);
    }
    var t := Translate(w, q, cal);
    w' := t.window;
    if t.result.Failure? {
      return w', Scan([], TranslationFailed(t.result.error));
    }
    scan := CursorScan(w'.rows, queryLimit, backend, fuel);
  }

  /** What a scan guarantees: the requests follow the cursor chain, each one was sent with
      the count below the limit, and the stop reason is justified by the last request. */
  predicate ScanContract(scan: Scan, rows: int, queryLimit: int, backend: Backend, fuel: nat) {
    && ChainedRequests(backend, scan.requests)
    && |scan.requests| <= fuel
    && (forall i :: 0 <= i < |scan.requests| ==> !LimitHit(CountAfter(i, rows), queryLimit))
    && (scan.stop.Exhausted? ==> |scan.requests| > 0 && IsRepeat(backend, |scan.requests| - 1))
    && (scan.stop.LimitReached? ==> LimitHit(CountAfter(|scan.requests|, rows), queryLimit))
    && (scan.stop.BackendFailed? ==>
         |scan.requests| > 0 && backend(scan.requests[|scan.requests| - 1]) == Failed(scan.stop.cause))
    && (scan.stop.FuelSpent? ==> |scan.requests| == fuel)
    && (scan.stop.Exhausted? || scan.stop.LimitReached? || scan.stop.BackendFailed? || scan.stop.FuelSpent?)
  }

  /** The loop's state between requests. */
  datatype CursorState = CursorState(requests: seq<string>, cursor: string, count: int)

  /** The loop invariant: the count and the cursor after n pages, each sent under the limit. */
  predicate Scanning(st: CursorState, rows: int, queryLimit: int, backend: Backend, fuel: nat) {
    && |st.requests| <= fuel
    && st.count == CountAfter(|st.requests|, rows)
    && st.cursor == CursorAt(backend, |st.requests|)
    && Chain(backend, st.requests)
    && (forall i :: 0 <= i < |st.requests| ==> !LimitHit(CountAfter(i, rows), queryLimit))
  }

  /** One request: send the cursor, add `rows` to the count, compare the cursors. */
  method Request(st: CursorState, rows: Int32, queryLimit: Int32, backend: Backend, fuel: nat)
    returns (st': CursorState, stop: Option<Stop>)
    requires Scanning(st, rows, queryLimit, backend, fuel)
    requires |st.requests| < fuel && !LimitHit(st.count, queryLimit)
    ensures |st'.requests| == |st.requests| + 1
    ensures stop.None? ==> Scanning(st', rows, queryLimit, backend, fuel)
    ensures stop.Some? ==> ScanContract(Scan(st'.requests, stop.value), rows, queryLimit, backend, fuel)
  {
    var n := |st.requests|;
    var r := st.requests + [st.cursor];
    ChainExtends(backend, st.requests);
    assert forall i :: 0 <= i < n ==> r[i] == st.requests[i];
    match backend(st.cursor)
    case Failed(e) =>
      return CursorState(r, st.cursor, st.count), Some(BackendFailed(e));
    case Page(_, next) =>
      var count := Wrap32(st.count + rows);
      if st.cursor == next {
        return CursorState(r, st.cursor, count), Some(Exhausted);
      }
      assert !IsRepeat(backend, n);
      assert CursorAt(backend, n + 1) == next;
      st' := CursorState(r, next, count);
      stop := None;
  }

  /** The loop: while the cursor has not repeated and the limit has not been hit, send the
      current cursor and add `rows` to the count. A SolrServerException ends the run quietly
      and an IOException ends it by propagating; both are `BackendFailed`. */
  method CursorScan(rows: Int32, queryLimit: Int32, backend: Backend, fuel: nat) returns (scan: Scan)
    ensures ScanContract(scan, rows, queryLimit, backend, fuel)
    ensures fuel > 0 && !LimitHit(0, queryLimit) ==> |scan.requests| > 0
  {
    var st := CursorState([], CursorMarkStart, 0);
    while true
      invariant Scanning(st, rows, queryLimit, backend, fuel)
      decreases fuel - |st.requests|
    {
      if LimitHit(st.count, queryLimit) {
        return Scan(st.requests, LimitReached);
      }
      if |st.requests| == fuel {
        return Scan(st.requests, FuelSpent);
      }
      var stop;
      st, stop := Request(st, rows, queryLimit, backend, fuel);
      if stop.Some? {
        return Scan(st.requests, stop.value);
      }
    }
  }

  /** With a positive limit that leaves room for one more page below the `int` maximum,
      a scan sends at most ceil(limit / rows) requests, and exactly that many when it
      stops on the limit. */
  lemma ScanPageBound(scan: Scan, rows: int, queryLimit: int, backend: Backend, fuel: nat)
    requires ScanContract(scan, rows, queryLimit, backend, fuel)
    requires queryLimit > 0 && rows > 0 && queryLimit + rows - 1 <= IntMax
    ensures |scan.requests| <= CeilDiv(queryLimit, rows)
    ensures scan.stop.LimitReached? ==> |scan.requests| == CeilDiv(queryLimit, rows)
  {
    PageBound(|scan.requests|, rows, queryLimit);
    if scan.stop.LimitReached? {
      PageBoundExact(|scan.requests|, rows, queryLimit);
    }
  }
}
