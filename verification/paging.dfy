/** The cursor-mark scan the exporting clients run: the backend answers a request carrying
    a cursor with a page of documents and the next cursor; a next cursor equal to the one
    sent means the result set is exhausted. */
module Paging {
  import opened Wrappers
  import opened JavaInt
  import opened QueryModel
  import opened StreamingCallback
  import opened Streams

  /** `CursorMarkParams.CURSOR_MARK_START`. */
  const CursorMarkStart: string := "*"

  /** SolrServerException, or IOException from the transport. */
  datatype BackendError = ServerError | IoError

  /** The answer to one request: the page's documents (streamed to the callback) and
      `getNextCursorMark()`, or the exception the request threw. */
  datatype Response = Page(docs: seq<Document>, next: string) | Failed(error: BackendError)

  /** The backend for one translated query, as a function of the cursor sent. */
  type Backend = string -> Response

  /** How a `fetchMetadata` run ended. `FuelSpent` is the model's own bound on the number
      of requests it follows; it is not a behaviour of the source. */
  datatype Stop =
    | NoCallback
    | TranslationFailed(reason: TranslationError)
    | BadLimit
    | Exhausted
    | LimitReached
    | BackendFailed(cause: BackendError)
    | DocumentCrashed(crash: Crash)
    | FuelSpent

  /** The loop ended normally, so the code after it runs. */
  predicate LoopCompleted(stop: Stop) {
    stop.Exhausted? || stop.LimitReached?
  }

  /** The requests a run sent, in order, and why it ended. */
  datatype Scan = Scan(requests: seq<string>, stop: Stop)

  /** A run that streams into a pipe: the requests, why it ended, and the pipe after it. */
  datatype Export = Export(requests: seq<string>, stop: Stop, sink: Sink)

  /** The documents a request returns; none when it fails. */
  function PageDocs(backend: Backend, cursor: string): seq<Document> {
    match backend(cursor)
    case Page(docs, _) => docs
    case Failed(_) => []
  }

  predicate HasField(field: string, docs: seq<Document>) {
    forall i :: 0 <= i < |docs| ==> field in docs[i]
  }

  /** Every page the requests returned carries the field in every document. */
  predicate FieldsPresent(backend: Backend, field: string, requests: seq<string>) {
    forall i :: 0 <= i < |requests| ==> HasField(field, PageDocs(backend, requests[i]))
  }

  /** Reference: the records of every requested page, page after page. */
  function StreamedRecords(backend: Backend, field: string, parse: Parser, requests: seq<string>): seq<Chunk>
    requires FieldsPresent(backend, field, requests)
    decreases |requests|
  {
    if |requests| == 0 then []
    else
      var last := requests[|requests| - 1];
      StreamedRecords(backend, field, parse, requests[..|requests| - 1]) + Published(field, parse, PageDocs(backend, last))
  }

  /** The cursor the i-th request carries when the requests before it all returned a page. */
  function CursorAt(backend: Backend, i: nat): string
    decreases i
  {
    if i == 0 then CursorMarkStart
    else
      var prev := CursorAt(backend, i - 1);
      match backend(prev)
      case Page(_, next) => next
      case Failed(_) => prev
  }

  /** The i-th request is answered with its own cursor: the backend is exhausted there. */
  predicate IsRepeat(backend: Backend, i: nat) {
    backend(CursorAt(backend, i)).Page? && backend(CursorAt(backend, i)).next == CursorAt(backend, i)
  }

  /** Every request returned a page with a new cursor, the i-th carrying `CursorAt(i)`. */
  predicate Chain(backend: Backend, requests: seq<string>)
    decreases |requests|
  {
    |requests| == 0 ||
    var n := |requests| - 1;
    && Chain(backend, requests[..n])
    && requests[n] == CursorAt(backend, n)
    && Advances(backend, requests[n])
  }

  /** The request with this cursor returned a page and a different cursor. */
  predicate Advances(backend: Backend, cursor: string) {
    backend(cursor).Page? && backend(cursor).next != cursor
  }

  /** Requests as the loop issues them: a chain, then possibly one last request (the one
      that failed, repeated its cursor or ended the run). */
  predicate ChainedRequests(backend: Backend, requests: seq<string>) {
    |requests| == 0 ||
    var n := |requests| - 1;
    Chain(backend, requests[..n]) && requests[n] == CursorAt(backend, n)
  }

  lemma {:induction false} ChainMeaning(backend: Backend, requests: seq<string>)
    ensures Chain(backend, requests) <==>
      forall i {:trigger requests[i]} :: 0 <= i < |requests| ==> requests[i] == CursorAt(backend, i) && Advances(backend, requests[i])
    decreases |requests|
  {
    if |requests| > 0 {
      var n := |requests| - 1;
      ChainMeaning(backend, requests[..n]);
      assert forall i :: 0 <= i < n ==> requests[..n][i] == requests[i];
    }
  }

  /** The i-th request carries the cursor the (i-1)-th page returned, and every request
      but the last got a page with a new cursor. */
  lemma ChainedRequestsMeaning(backend: Backend, requests: seq<string>)
    ensures ChainedRequests(backend, requests) <==>
      && (forall i {:trigger requests[i]} :: 0 <= i < |requests| ==> requests[i] == CursorAt(backend, i))
      && (forall i :: 0 <= i < |requests| - 1 ==> Advances(backend, requests[i]))
  {
    if |requests| > 0 {
      var n := |requests| - 1;
      var init := requests[..n];
      ChainMeaning(backend, init);
      if ChainedRequests(backend, requests) {
        forall i | 0 <= i < n
          ensures requests[i] == CursorAt(backend, i) && Advances(backend, requests[i])
        {
          assert init[i] == requests[i];
        }
      }
      if (forall i {:trigger requests[i]} :: 0 <= i < |requests| ==> requests[i] == CursorAt(backend, i)) &&
         (forall i :: 0 <= i < n ==> Advances(backend, requests[i])) {
        forall i | 0 <= i < n
          ensures init[i] == CursorAt(backend, i) && Advances(backend, init[i])
        {
          assert init[i] == requests[i];
        }
      }
    }
  }

  lemma ChainExtends(backend: Backend, requests: seq<string>)
    requires Chain(backend, requests)
    ensures ChainedRequests(backend, requests + [CursorAt(backend, |requests|)])
  {
    assert (requests + [CursorAt(backend, |requests|)])[..|requests|] == requests;
  }

  /** A request answered with a new cursor extends the chain, and the next request
      carries that cursor. */
  lemma ChainContinues(backend: Backend, requests: seq<string>)
    requires Chain(backend, requests)
    requires var c := CursorAt(backend, |requests|); backend(c).Page? && backend(c).next != c
    ensures Chain(backend, requests + [CursorAt(backend, |requests|)])
    ensures CursorAt(backend, |requests| + 1) == backend(CursorAt(backend, |requests|)).next
  {
    assert (requests + [CursorAt(backend, |requests|)])[..|requests|] == requests;
  }

  /** The running count after n pages: `count += rows` in Java `int` arithmetic. */
  function CountAfter(n: nat, rows: int): int
    decreases n
  {
    if n == 0 then 0 else Wrap32(CountAfter(n - 1, rows) + rows)
  }

  /** The running count is the wrapped product. */
  lemma {:induction false} CountClosedForm(n: nat, rows: int)
    ensures CountAfter(n, rows) == Wrap32(n * rows)
    decreases n
  {
    if n > 0 {
      CountClosedForm(n - 1, rows);
      Wrap32Add((n - 1) * rows, rows);
      assert (n - 1) * rows + rows == n * rows;
    } else {
      Wrap32Identity(0);
    }
  }

  function CeilDiv(a: int, b: int): int
    requires b > 0
  {
    (a + b - 1) / b
  }

  /** While the true count stays under a limit that leaves room for one more page below
      the `int` maximum, the running count has not wrapped. */
  lemma {:induction false} CountNoWrap(k: nat, rows: int, limit: int)
    requires rows > 0 && limit > 0 && limit + rows - 1 <= IntMax
    requires forall i :: 0 <= i <= k ==> CountAfter(i, rows) < limit
    ensures k * rows < limit
    decreases k
  {
    if k > 0 {
      CountNoWrap(k - 1, rows, limit);
      assert CountAfter(k, rows) < limit;
      CountClosedForm(k, rows);
      assert k * rows == (k - 1) * rows + rows;
      assert 0 <= k * rows <= IntMax;
      Wrap32Identity(k * rows);
    }
  }

  /** If the count before each of n requests was under the limit, then n is at most
      ceil(limit / rows). */
  /** Without that room the limit may never fire: with an even page size the running count
      stays even, so it never reaches the odd `int` maximum. */
  lemma EvenCountMissesIntMax(n: nat, rows: int)
    requires rows % 2 == 0
    ensures CountAfter(n, rows) < IntMax
  {
    CountClosedForm(n, rows);
    var h := rows / 2;
    DoubleProduct(n, h);
    WrapOfDouble(n * h);
  }

  lemma DoubleProduct(n: int, h: int)
    ensures n * (2 * h) == 2 * (n * h)
  {
  }

  /** With pages of 10, the count has wrapped below zero by page ceil(IntMax / 10). */
  lemma TenRowsWrapNegative()
    ensures CeilDiv(IntMax, 10) == 214748365 && CountAfter(214748365, 10) < 0
  {
    CountClosedForm(214748365, 10);
    WrapAboveMax(2147483650);
  }

  /** A wrapped even number is even, so it is never the odd `int` maximum. */
  lemma WrapOfDouble(j: int)
    ensures Wrap32(2 * j) != IntMax
  {
    var k := (2 * j - IntMin) / Modulus;
    assert Wrap32(2 * j) == 2 * j - k * Modulus;
    assert k * Modulus == 2 * (k * 0x8000_0000);
  }

  /** Just above the `int` maximum the value wraps to one `Modulus` lower. */
  lemma WrapAboveMax(x: int)
    requires IntMax < x <= IntMax + Modulus
    ensures Wrap32(x) == x - Modulus
  {
    assert x - Modulus - IntMin < Modulus;
    assert (x - IntMin) == 1 * Modulus + (x - Modulus - IntMin);
  }

  lemma PageBound(n: nat, rows: int, limit: int)
    requires rows > 0 && limit > 0 && limit + rows - 1 <= IntMax
    requires forall i :: 0 <= i < n ==> CountAfter(i, rows) < limit
    ensures n <= CeilDiv(limit, rows)
  {
    if n > 0 {
      CountNoWrap(n - 1, rows, limit);
      DivBound(n - 1, rows, limit);
    }
  }

  lemma DivBound(m: nat, rows: int, limit: int)
    requires rows > 0 && m * rows < limit
    ensures m + 1 <= (limit + rows - 1) / rows
  {
    var c := (limit + rows - 1) / rows;
    assert (m + 1) * rows <= limit + rows - 1;
    if c < m + 1 {
      assert c * rows <= limit + rows - 1 < (c + 1) * rows;
      assert c <= m;
      MulMonotone(c + 1, m + 1, rows);
    }
  }

  lemma MulMonotone(a: int, b: int, r: int)
    requires a <= b && r > 0
    ensures a * r <= b * r
  {
  }

  /** If the count reached the limit only after the n-th page, then n is exactly
      ceil(limit / rows). */
  lemma PageBoundExact(n: nat, rows: int, limit: int)
    requires rows > 0 && limit > 0 && limit + rows - 1 <= IntMax
    requires forall i :: 0 <= i < n ==> CountAfter(i, rows) < limit
    requires CountAfter(n, rows) >= limit
    ensures n == CeilDiv(limit, rows)
  {
    PageBound(n, rows, limit);
    if n > 0 {
      CountNoWrap(n - 1, rows, limit);
      ProductStep(n, rows);
      CountClosedForm(n, rows);
      Wrap32Identity(n * rows);
      DivLower(n, rows, limit);
    }
  }

  lemma ProductStep(n: nat, rows: int)
    requires n > 0
    ensures n * rows == (n - 1) * rows + rows
  {
  }

  /** Pages of `rows` that together reach `limit` number at least ceil(limit / rows). */
  lemma DivLower(n: nat, rows: int, limit: int)
    requires rows > 0 && n * rows >= limit
    ensures n >= CeilDiv(limit, rows)
  {
    var c := CeilDiv(limit, rows);
    if n < c {
      assert c * rows <= limit + rows - 1;
      MulMonotone(n + 1, c, rows);
      ProductStep(n + 1, rows);
      assert false;
    }
  }
}
