/** The piped output stream an export writes into, as an append-only log. */
module Streams {
  import opened Wrappers

  /** Written once after the last record of a completed export. */
  const ClosingTagText: string := "</OMTDPublications>\n"

  /** One `write` call: a serialised publication, or the closing tag. */
  datatype Chunk = Record(bytes: string) | ClosingTag

  /** What has been written, whether the writer closed the pipe, and whether the
      reading side has gone away (after which every write fails). */
  datatype Sink = Sink(chunks: seq<Chunk>, closed: bool, readerGone: bool)

  predicate Writable(s: Sink) {
    !s.closed && !s.readerGone
  }

  /** `write`: appends the chunk, or throws an IOException (`None`) on a closed or broken pipe. */
  function Write(s: Sink, c: Chunk): (r: Option<Sink>)
    ensures r.Some? <==> Writable(s)
    ensures r.Some? ==> r.value == s.(chunks := s.chunks + [c])
  {
    if Writable(s) then Some(s.(chunks := s.chunks + [c])) else None
  }

  function Close(s: Sink): Sink {
    s.(closed := true)
  }

  function ChunkText(c: Chunk): string {
    match c
    case Record(b) => b
    case ClosingTag => ClosingTagText
  }

  /** The bytes the reader receives. */
  function Bytes(chunks: seq<Chunk>): string
    decreases |chunks|
  {
    if |chunks| == 0 then "" else Bytes(chunks[..|chunks| - 1]) + ChunkText(chunks[|chunks| - 1])
  }

  function TagCount(chunks: seq<Chunk>): nat
    decreases |chunks|
  {
    if |chunks| == 0 then 0
    else TagCount(chunks[..|chunks| - 1]) + (if chunks[|chunks| - 1].ClosingTag? then 1 else 0)
  }

  lemma {:induction false} TagCountAppend(a: seq<Chunk>, b: seq<Chunk>)
    ensures TagCount(a + b) == TagCount(a) + TagCount(b)
    decreases |b|
  {
    if |b| == 0 {
      assert a + b == a;
    } else {
      assert (a + b)[..|a + b| - 1] == a + b[..|b| - 1];
      TagCountAppend(a, b[..|b| - 1]);
    }
  }

  /** A prefix of a prefix is a prefix. */
  lemma PrefixOfPrefix(a: seq<Chunk>, b: seq<Chunk>, c: seq<Chunk>)
    requires |a| <= |b| && b[..|a|] == a
    requires |b| <= |c| && c[..|b|] == b
    ensures c[..|a|] == a
  {
    assert c[..|a|] == c[..|b|][..|a|];
  }

  /** A log that ends with the closing tag delivers bytes ending with its text. */
  lemma BytesEndWithTag(chunks: seq<Chunk>)
    requires |chunks| > 0 && chunks[|chunks| - 1] == ClosingTag
    ensures |Bytes(chunks)| >= |ClosingTagText|
    ensures Bytes(chunks)[|Bytes(chunks)| - |ClosingTagText|..] == ClosingTagText
  {
  }
}
