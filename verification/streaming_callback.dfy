/** `OpenAireStreamingResponseCallback`: each streamed Solr document is unwrapped into an
    XML text, handed to the publication parser, and the parser's output is written to the
    pipe. Two copies exist; they differ only in what an IOException does. */
module StreamingCallback {
  import opened Wrappers
  import opened JavaString
  import opened Streams

  const XmlProlog: string := "<?xml version=\"1.0\" encoding=\"UTF-8\"?>"

  /** The field the exporting clients read the record from. */
  const ResultField: string := "__result"

  /** A stored field value: a single string, or a multi-valued list. */
  datatype FieldValue = Text(text: string) | List(items: seq<string>)

  /** `Object.toString()` of the value: a list prints as `[a, b]`. */
  function Render(v: FieldValue): string {
    match v
    case Text(t) => t
    case List(items) => "[" + Join(items, ", ") + "]"
  }

  type Document = map<string, FieldValue>

  predicate IsBracket(c: char) {
    c == '[' || c == ']'
  }

  predicate BracketFree(s: string) {
    forall i :: 0 <= i < |s| ==> !IsBracket(s[i])
  }

  /** `replaceAll("\\[|\\]", "")`: every `[` and `]` removed, all other characters kept in order. */
  function StripBrackets(s: string): (r: string)
    ensures |r| <= |s|
    ensures BracketFree(r)
    decreases |s|
  {
    if |s| == 0 then ""
    else (if IsBracket(s[0]) then "" else [s[0]]) + StripBrackets(s[1..])
  }

  lemma {:induction false} StripBracketsAppend(a: string, b: string)
    ensures StripBrackets(a + b) == StripBrackets(a) + StripBrackets(b)
    decreases |a|
  {
    if |a| > 0 {
      assert (a + b)[0] == a[0];
      assert (a + b)[1..] == a[1..] + b;
      StripBracketsAppend(a[1..], b);
    } else {
      assert a + b == b;
    }
  }

  /** Text without brackets passes through unchanged; hence stripping is idempotent. */
  lemma {:induction false} StripBracketsKeepsBracketFree(s: string)
    requires BracketFree(s)
    ensures StripBrackets(s) == s
    decreases |s|
  {
    if |s| > 0 {
      StripBracketsKeepsBracketFree(s[1..]);
      assert s == [s[0]] + s[1..];
    }
  }

  lemma StripBracketsIdempotent(s: string)
    ensures StripBrackets(StripBrackets(s)) == StripBrackets(s)
  {
    StripBracketsKeepsBracketFree(StripBrackets(s));
  }

  /** The parser input built for a document field: the fixed prolog, then the field's
      text without brackets. */
  function Envelope(v: FieldValue): (xml: string)
    ensures |xml| >= |XmlProlog| && xml[..|XmlProlog|] == XmlProlog
    ensures BracketFree(xml[|XmlProlog|..])
    ensures |xml| <= |XmlProlog| + |Render(v)|
  {
    var body := StripBrackets(Render(v));
    assert (XmlProlog + body)[|XmlProlog|..] == body;
    XmlProlog + body
  }

  /** The stripping exists to undo a one-element list's `[...]` wrapper: a bracket-free
      record gives the same parser input stored either way, namely prolog + record. */
  lemma EnvelopeUnwrapsList(x: string)
    requires BracketFree(x)
    ensures Envelope(List([x])) == Envelope(Text(x)) == XmlProlog + x
  {
    StripBracketsKeepsBracketFree(x);
    assert Join([x], ", ") == x;
    assert Render(List([x])) == "[" + x + "]";
    StripBracketsAppend("[", x);
    StripBracketsAppend("[" + x, "]");
    BracketAlone('[');
    BracketAlone(']');
    assert StripBrackets("[" + x) == x;
  }

  lemma BracketAlone(c: char)
    requires IsBracket(c)
    ensures StripBrackets([c]) == ""
  {
    assert [c][1..] == "";
  }

  /** The parser: the publication it serialises, or the exception it throws while parsing
      (SAXException, ParserConfigurationException) or while marshalling (JAXBException). */
  datatype ParseOutcome = Parsed(publication: string) | SyntaxError | MarshalError

  type Parser = string -> ParseOutcome

  /** The `eu.openminted.content` copy closes the pipe on an IOException; the
      `eu.openminted.content.connector` copy only logs it. */
  datatype Variant = CloseOnWriteError | LogOnly

  /** A document without the configured field: `toString()` on null throws out of the callback. */
  datatype Crash = MissingField(field: string)

  /** `streamSolrDocument`. */
  function StreamDocument(variant: Variant, field: string, parse: Parser, sink: Sink, doc: Document)
    : (r: Result<Sink, Crash>)
    ensures r.Failure? <==> field !in doc
    ensures r.Success? ==> r.value.readerGone == sink.readerGone
    ensures r.Success? ==> (Writable(r.value) <==> Writable(sink))
    ensures r.Success? && !parse(Envelope(doc[field])).Parsed? ==> r.value == sink
    ensures r.Success? && parse(Envelope(doc[field])).Parsed? && Writable(sink) ==>
      r.value == sink.(chunks := sink.chunks + [Record(parse(Envelope(doc[field])).publication)])
    ensures r.Success? && !Writable(sink) ==>
      r.value.chunks == sink.chunks &&
      (r.value.closed <==> sink.closed || (variant == CloseOnWriteError && parse(Envelope(doc[field])).Parsed?))
  {
    if field !in doc then Failure(MissingField(field))
    else
      match parse(Envelope(doc[field]))
      case SyntaxError => Success(sink)
      case MarshalError => Success(sink)
      case Parsed(pub) =>
        match Write(sink, Record(pub))
        case Some(s) => Success(s)
        case None => if variant == CloseOnWriteError then Success(Close(sink)) else Success(sink)
  }

  /** `streamDocListInfo`: an empty override. */
  function StreamDocListInfo(sink: Sink, numFound: int, start: int): (r: Sink)
    ensures r == sink
  {
    sink
  }

  /** The documents of one page streamed in order; a crash stops the page there. */
  datatype PageOutcome = PageOutcome(sink: Sink, crash: Option<Crash>)

  /** Reference: one record per document whose parser input parses, in document order. */
  function Published(field: string, parse: Parser, docs: seq<Document>): seq<Chunk>
    requires forall i :: 0 <= i < |docs| ==> field in docs[i]
    decreases |docs|
  {
    if |docs| == 0 then []
    else DocumentRecords(field, parse, docs[0]) + Published(field, parse, docs[1..])
  }

  function StreamPage(variant: Variant, field: string, parse: Parser, sink: Sink, docs: seq<Document>)
    : (r: PageOutcome)
    ensures r.sink.readerGone == sink.readerGone
    ensures Writable(r.sink) <==> Writable(sink)
    ensures r.crash.None? <==> forall i :: 0 <= i < |docs| ==> field in docs[i]
    decreases |docs|
  {
    if |docs| == 0 then PageOutcome(sink, None)
    else
      match StreamDocument(variant, field, parse, sink, docs[0])
      case Failure(c) => PageOutcome(sink, Some(c))
      case Success(s) =>
        assert forall i :: 1 <= i < |docs| ==> docs[i] == docs[1..][i - 1];
        StreamPage(variant, field, parse, s, docs[1..])
  }

  /** A page only appends records: what was written stays, and no closing tag appears. */
  lemma {:induction false} StreamPageAppendsRecords(variant: Variant, field: string, parse: Parser, sink: Sink, docs: seq<Document>)
    ensures var r := StreamPage(variant, field, parse, sink, docs);
      && |sink.chunks| <= |r.sink.chunks| && r.sink.chunks[..|sink.chunks|] == sink.chunks
      && TagCount(r.sink.chunks) == TagCount(sink.chunks)
      && (!Writable(sink) ==> r.sink.chunks == sink.chunks)
    decreases |docs|
  {
    if |docs| > 0 {
      match StreamDocument(variant, field, parse, sink, docs[0])
      case Failure(c) =>
      case Success(s) =>
        PageStep(variant, field, parse, sink, docs);
        StreamPageAppendsRecords(variant, field, parse, s, docs[1..]);
        StreamDocumentAppends(variant, field, parse, sink, docs[0]);
        PrefixOfPrefix(sink.chunks, s.chunks, StreamPage(variant, field, parse, s, docs[1..]).sink.chunks);
    }
  }

  /** One document appends at most a record. */
  lemma StreamDocumentAppends(variant: Variant, field: string, parse: Parser, sink: Sink, doc: Document)
    requires field in doc
    ensures var s := StreamDocument(variant, field, parse, sink, doc).value;
      && |sink.chunks| <= |s.chunks| && s.chunks[..|sink.chunks|] == sink.chunks
      && TagCount(s.chunks) == TagCount(sink.chunks)
      && (!Writable(sink) ==> s.chunks == sink.chunks)
  {
    var s := StreamDocument(variant, field, parse, sink, doc).value;
    if Writable(sink) && parse(Envelope(doc[field])).Parsed? {
      var c := Record(parse(Envelope(doc[field])).publication);
      assert s.chunks == sink.chunks + [c];
      TagCountAppend(sink.chunks, [c]);
      assert [c][..0] == [];
      assert s.chunks[..|sink.chunks|] == sink.chunks;
    }
  }

  /** Only the closing copy of the callback ever closes the pipe, and nothing reopens it. */
  lemma {:induction false} StreamPageClosing(variant: Variant, field: string, parse: Parser, sink: Sink, docs: seq<Document>)
    ensures var r := StreamPage(variant, field, parse, sink, docs);
      && (sink.closed ==> r.sink.closed)
      && (variant == LogOnly ==> r.sink.closed == sink.closed)
    decreases |docs|
  {
    if |docs| > 0 {
      match StreamDocument(variant, field, parse, sink, docs[0])
      case Failure(c) =>
      case Success(s) =>
        StreamPageClosing(variant, field, parse, s, docs[1..]);
    }
  }

  /** On a working pipe, a page whose documents all carry the field writes exactly one
      record per parsable document, in document order. */
  lemma {:induction false} StreamPagePublishes(variant: Variant, field: string, parse: Parser, sink: Sink, docs: seq<Document>)
    requires Writable(sink)
    requires forall i :: 0 <= i < |docs| ==> field in docs[i]
    ensures StreamPage(variant, field, parse, sink, docs).sink.chunks == sink.chunks + Published(field, parse, docs)
    decreases |docs|
  {
    if |docs| > 0 {
      var head := DocumentRecords(field, parse, docs[0]);
      var s := StreamDocument(variant, field, parse, sink, docs[0]).value;
      StreamDocumentPublishes(variant, field, parse, sink, docs[0]);
      PublishedStep(field, parse, docs);
      var rest := Published(field, parse, docs[1..]);
      StreamPagePublishes(variant, field, parse, s, docs[1..]);
      PageStep(variant, field, parse, sink, docs);
      ChunksAssoc(sink.chunks, head, rest);
    } else {
      assert sink.chunks + [] == sink.chunks;
    }
  }

  /** The documents of a page up to the first one without the field (all of them when
      none lacks it): the ones a page streams before a crash stops it. */
  function UntilMissing(field: string, docs: seq<Document>): (pre: seq<Document>)
    ensures pre <= docs
    ensures forall i :: 0 <= i < |pre| ==> field in pre[i]
    ensures |pre| < |docs| ==> field !in docs[|pre|]
    decreases |docs|
  {
    if |docs| == 0 || field !in docs[0] then []
    else [docs[0]] + UntilMissing(field, docs[1..])
  }

  /** On a working pipe, any page writes one record per parsable document among those
      before the first document without the field; a page that crashes keeps what its
      earlier documents wrote. */
  lemma {:induction false} StreamPageWritesUntilMissing(variant: Variant, field: string, parse: Parser, sink: Sink,
                                                        docs: seq<Document>)
    requires Writable(sink)
    ensures StreamPage(variant, field, parse, sink, docs).sink.chunks ==
      sink.chunks + Published(field, parse, UntilMissing(field, docs))
    decreases |docs|
  {
    var pre := UntilMissing(field, docs);
    if |docs| > 0 && field in docs[0] {
      var s := StreamDocument(variant, field, parse, sink, docs[0]).value;
      StreamDocumentPublishes(variant, field, parse, sink, docs[0]);
      PageStep(variant, field, parse, sink, docs);
      StreamPageWritesUntilMissing(variant, field, parse, s, docs[1..]);
      assert pre[0] == docs[0] && pre[1..] == UntilMissing(field, docs[1..]);
      PublishedStep(field, parse, pre);
      ChunksAssoc(sink.chunks, DocumentRecords(field, parse, docs[0]), Published(field, parse, pre[1..]));
    } else {
      assert pre == [];
      assert sink.chunks + [] == sink.chunks;
    }
  }

  lemma ChunksAssoc(a: seq<Chunk>, b: seq<Chunk>, c: seq<Chunk>)
    ensures (a + b) + c == a + (b + c)
  {
  }

  /** The records one document contributes on a working pipe. */
  function DocumentRecords(field: string, parse: Parser, doc: Document): seq<Chunk>
    requires field in doc
  {
    match parse(Envelope(doc[field]))
    case Parsed(pub) => [Record(pub)]
    case _ => []
  }

  lemma StreamDocumentPublishes(variant: Variant, field: string, parse: Parser, sink: Sink, doc: Document)
    requires Writable(sink) && field in doc
    ensures StreamDocument(variant, field, parse, sink, doc).Success?
    ensures StreamDocument(variant, field, parse, sink, doc).value.chunks == sink.chunks + DocumentRecords(field, parse, doc)
    ensures Writable(StreamDocument(variant, field, parse, sink, doc).value)
  {
  }

  lemma PageStep(variant: Variant, field: string, parse: Parser, sink: Sink, docs: seq<Document>)
    requires |docs| > 0 && StreamDocument(variant, field, parse, sink, docs[0]).Success?
    ensures StreamPage(variant, field, parse, sink, docs) ==
      StreamPage(variant, field, parse, StreamDocument(variant, field, parse, sink, docs[0]).value, docs[1..])
  {
  }

  lemma PublishedStep(field: string, parse: Parser, docs: seq<Document>)
    requires |docs| > 0 && forall i :: 0 <= i < |docs| ==> field in docs[i]
    ensures forall i :: 0 <= i < |docs[1..]| ==> field in docs[1..][i]
    ensures Published(field, parse, docs) == DocumentRecords(field, parse, docs[0]) + Published(field, parse, docs[1..])
  {
    forall i | 0 <= i < |docs[1..]| ensures field in docs[1..][i] {
      assert docs[1..][i] == docs[i + 1];
    }
  }
}
