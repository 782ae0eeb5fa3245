/** A stream that ends inside a response: where the cut response is still taken for a
    whole one, and where it is an error. */
module KeepAliveCuts {
  import opened Prelude
  import opened Text
  import opened KeepAlive
  import opened KeepAliveFraming
  import Utf8

  // ----- nothing is found in what was cut off

  lemma AtInPrefix(s: seq<byte>, n: nat, q: nat, p: seq<byte>)
    requires n <= |s| && At(s[..n], q, p)
    ensures At(s, q, p) && q + |p| <= n
  {
    assert s[..n][q..q + |p|] == s[q..q + |p|];
  }

  lemma NotFoundInPrefix(s: seq<byte>, n: nat, i: nat, p: seq<byte>)
    requires p != [] && i <= n <= |s| && Find(s, p, i) + |p| > n
    ensures Find(s[..n], p, i) == n
  {
    var r := Find(s[..n], p, i);
    if r < n {
      AtInPrefix(s, n, r, p);
    }
  }

  // ----- chunks

  /** How much of the chunks must be there: all but the trailer and the last two bytes. */
  function NeededChunks(chunks: seq<Chunk>, last: Chunk, trailer: seq<Field>): int {
    |ChunksBytes(chunks, last, trailer)| - |TrailerBytes(trailer)| - 2
  }

  /** A chunk line that is cut has no end. */
  lemma CutChunkLine(s: seq<byte>, n: nat, pos: nat, c: Chunk, content: seq<byte>)
    requires ValidChunk(c) && |c.data| < TWO_64 && At(s, pos, ChunkBytes(c, content)) && pos <= n <= |s|
    requires n < pos + |Utf8.Encode(SizeLine(c))| + 2
    ensures ReadChunkHead(s[..n], pos) == Err(Closed)
  {
    hide ChunkSize, Utf8.Encode, SizeLine, Find, ValidChunk;
    LineBreak(s, pos, c, content);
    NotFoundInPrefix(s, n, pos, CRLF_BYTES);
  }

  lemma LineBreak(s: seq<byte>, pos: nat, c: Chunk, content: seq<byte>)
    requires ValidChunk(c) && |c.data| < TWO_64 && At(s, pos, ChunkBytes(c, content))
    ensures pos <= |s| && Find(s, CRLF_BYTES, pos) == pos + |Utf8.Encode(SizeLine(c))|
  {
    hide ChunkSize, Utf8.Encode, SizeLine, Find, ValidChunk, NoReturn;
    var line := Utf8.Encode(SizeLine(c));
    SizeLineRead(c);
    EncodeNoReturn(SizeLine(c));
    AtSplit(s, pos, line, CRLF_BYTES + (content + CRLF_BYTES));
    AtSplit(s, pos + |line|, CRLF_BYTES, content + CRLF_BYTES);
    BreakAfter(s, pos, line);
  }

  /** A whole chunk line is read the same from the cut stream. */
  lemma WholeChunkLine(s: seq<byte>, n: nat, pos: nat, c: Chunk, content: seq<byte>)
    requires ValidChunk(c) && |c.data| < TWO_64 && At(s, pos, ChunkBytes(c, content))
    requires var start := pos + |Utf8.Encode(SizeLine(c))| + 2; start <= n <= |s|
    ensures ReadChunkHead(s[..n], pos) == Ok((|c.data|, pos + |Utf8.Encode(SizeLine(c))| + 2))
  {
    hide ChunkSize, Utf8.Encode, SizeLine, ValidChunk, At;
    var e := pos + |Utf8.Encode(SizeLine(c))|;
    LineBreak(s, pos, c, content);
    ChunkHeadRead(s, pos, c, content);
    FoundInPrefix(s, n, pos, CRLF_BYTES, e);
    assert s[..n][pos..e] == s[pos..e];
  }

  lemma FoundInPrefix(s: seq<byte>, n: nat, i: nat, p: seq<byte>, r: nat)
    requires p != [] && i <= n <= |s| && Find(s, p, i) == r && r + |p| <= n
    ensures Find(s[..n], p, i) == r
  {
    assert s[..n][r..r + |p|] == s[r..r + |p|];
    forall k: nat | i <= k < r ensures !At(s[..n], k, p) {
      if At(s[..n], k, p) { AtInPrefix(s, n, k, p); }
    }
    FindIs(s[..n], p, i, r);
  }

  lemma {:induction false} CutChunks(s: seq<byte>, n: nat, pos: nat, chunks: seq<Chunk>, last: Chunk, trailer: seq<Field>, out: seq<byte>)
    requires forall k :: 0 <= k < |chunks| ==> ValidChunk(chunks[k]) && chunks[k].data != []
    requires ValidChunk(last) && last.data == []
    requires At(s, pos, ChunksBytes(chunks, last, trailer)) && |out| + |Data(chunks)| < TWO_64
    requires pos <= n <= |s|
    ensures n >= pos + NeededChunks(chunks, last, trailer) ==>
      ReadChunks(s[..n], pos, out).Ok? && ReadChunks(s[..n], pos, out).value.0 == out + Data(chunks)
    ensures n < pos + NeededChunks(chunks, last, trailer) ==> ReadChunks(s[..n], pos, out).Err?
    decreases |chunks|
  {
    hide ReadChunkHead, ReadChunks, ChunkBytes, ValidChunk, TrailerBytes, At;
    if chunks == [] {
      CutLast(s, n, pos, last, TrailerBytes(trailer), out);
      assert out + [] == out;
    } else {
      var c, rest := chunks[0], chunks[1..];
      AtSplit(s, pos, ChunkBytes(c, c.data), ChunksBytes(rest, last, trailer));
      LastNeeds(rest, last, trailer);
      CutChunk(s, n, pos, c, out);
      var next := pos + |ChunkBytes(c, c.data)|;
      if next <= n {
        CutChunks(s, n, next, rest, last, trailer, out + c.data);
        assert out + c.data + Data(rest) == out + Data(chunks);
      }
    }
  }

  lemma {:induction false} LastNeeds(chunks: seq<Chunk>, last: Chunk, trailer: seq<Field>)
    ensures NeededChunks(chunks, last, trailer) >= 0
    decreases |chunks|
  {
    hide TrailerBytes, SizeLine, Utf8.Encode;
    if chunks != [] { LastNeeds(chunks[1..], last, trailer); }
  }

  lemma CutLast(s: seq<byte>, n: nat, pos: nat, c: Chunk, content: seq<byte>, out: seq<byte>)
    requires ValidChunk(c) && c.data == [] && At(s, pos, ChunkBytes(c, content)) && pos <= n <= |s|
    ensures var needed := |ChunkBytes(c, content)| - |content| - 2;
      && (n >= pos + needed ==> ReadChunks(s[..n], pos, out).Ok? && ReadChunks(s[..n], pos, out).value.0 == out)
      && (n < pos + needed ==> ReadChunks(s[..n], pos, out).Err?)
  {
    hide ReadChunkHead, ValidChunk, Utf8.Encode, SizeLine, At;
    if n < pos + |Utf8.Encode(SizeLine(c))| + 2 {
      CutChunkLine(s, n, pos, c, content);
    } else {
      WholeChunkLine(s, n, pos, c, content);
    }
  }

  lemma CutChunk(s: seq<byte>, n: nat, pos: nat, c: Chunk, out: seq<byte>)
    requires ValidChunk(c) && c.data != [] && At(s, pos, ChunkBytes(c, c.data)) && |out| + |c.data| < TWO_64 && pos <= n <= |s|
    ensures var next := pos + |ChunkBytes(c, c.data)|;
      && (n < next ==> ReadChunks(s[..n], pos, out).Err?)
      && (n >= next ==> ReadChunks(s[..n], pos, out) == ReadChunks(s[..n], next, out + c.data))
  {
    hide ReadChunkHead, ValidChunk, Utf8.Encode, SizeLine, At;
    var start := pos + |Utf8.Encode(SizeLine(c))| + 2;
    if n < start {
      CutChunkLine(s, n, pos, c, c.data);
    } else {
      WholeChunkLine(s, n, pos, c, c.data);
      ChunkHeadRead(s, pos, c, c.data);
      assert Resized(|out|, |c.data|) == |out| + |c.data|;
      if n >= pos + |ChunkBytes(c, c.data)| { assert s[..n][start..start + |c.data|] == s[start..start + |c.data|]; }
    }
  }

  // ----- responses

  /** How many bytes of the message the client needs to see. */
  function Needed(m: Message): int {
    match m.payload
    case Sized(_) => |MessageBytes(m)|
    case Chunked(_, _, trailer) => |MessageBytes(m)| - |TrailerBytes(trailer)| - 2
    case Bare => |MessageBytes(m)|
  }

  /** A stream that ends after `n` bytes of a well-formed message gives its response if
      and only if the message announces a body and the cut falls no earlier than its
      last byte; behind the last chunk's line, which nobody checks, it may fall anywhere.
      What is then returned is the whole body. A body cut short is never returned. */
  lemma CutIff(m: Message, n: nat)
    requires Valid(m) && n <= |MessageBytes(m)|
    ensures var r := ReadResponse(MessageBytes(m)[..n], 0);
      && (r.Ok? <==> !m.payload.Bare? && n >= Needed(m))
      && (r.Ok? ==> r.value.0 == HttpResponse(m.status, Body(m.payload)))
  {
    hide ReadResponse, Valid, HeadBytes, MessageBytes, PayloadBytes, ReadBody, FramingOf, Lines, Body;
    var s, h := MessageBytes(m), |HeadBytes(m)| + 4;
    assert s[0..|s|] == s;
    HeadPresent(s, 0, m);
    HeadRead(s, 0, m);
    if n < h {
      CutHead(m, n);
    } else {
      assert s[..n][0..h] == s[0..h];
      AtPrefix(s, n, HeadBytes(m) + HEADERS_END);
      ReadBehindHead(s[..n], 0, m);
      CutPayload(s, n, h, m);
    }
  }

  lemma AtPrefix(s: seq<byte>, n: nat, p: seq<byte>)
    requires At(s, 0, p) && |p| <= n <= |s|
    ensures At(s[..n], 0, p)
  {
    assert s[..n][0..|p|] == s[0..|p|];
  }

  lemma CutHead(m: Message, n: nat)
    requires Valid(m) && n < |HeadBytes(m)| + 4 && n <= |MessageBytes(m)|
    ensures ReadResponse(MessageBytes(m)[..n], 0) == Err(Closed) && n < Needed(m)
  {
    hide Valid, HeadBytes, PayloadBytes, Find, Lines;
    var s := MessageBytes(m);
    assert s[0..|s|] == s;
    HeadPresent(s, 0, m);
    HeadAlone(s, 0, m);
    NotFoundInPrefix(s, n, 0, HEADERS_END);
    PayloadNeeds(m);
  }

  lemma PayloadNeeds(m: Message)
    ensures |HeadBytes(m)| + 4 <= Needed(m)
  {
    hide HeadBytes, TrailerBytes, ChunksBytes;
    MessageParts(m);
    if m.payload.Chunked? { LastNeeds(m.payload.chunks, m.payload.last, m.payload.trailer); }
  }

  lemma CutPayload(s: seq<byte>, n: nat, pos: nat, m: Message)
    requires Valid(m) && s == MessageBytes(m) && pos == |HeadBytes(m)| + 4 <= n <= |s| && At(s, pos, PayloadBytes(m.payload))
    requires |s| == pos + |PayloadBytes(m.payload)|
    ensures var r := ReadBody(s[..n], pos, FramingOf(Lines(m), |Lines(m)|));
      && (r.Ok? <==> !m.payload.Bare? && n >= Needed(m))
      && (r.Ok? ==> r.value.0 == Body(m.payload))
  {
    hide FramingOf, HeadBytes, Lines, ReadChunks, ChunksBytes, TrailerBytes, MessageBytes, Data;
    match m.payload
    case Bare => BareRead(s[..n], pos, m);
    case Sized(body) =>
      hide Valid;
      SizedFraming(m, |m.fields|);
      SizedLength(m);
      assert s[pos..pos + |body|] == body;
      if n == |s| { assert s[..n] == s; }
    case Chunked(chunks, last, trailer) =>
      ChunkedMark(m);
      CutChunks(s, n, pos, chunks, last, trailer, []);
      assert [] + Data(chunks) == Data(chunks);
  }

  lemma SizedLength(m: Message)
    requires Valid(m) && m.payload.Sized?
    ensures |Lines(m)| == |m.fields| + 1 && FramingOf(Lines(m), |Lines(m)|) == Framing(Some(|m.payload.body|), false)
  {
    hide FramingOf, Names, ValidField, Announces, Lines, StatusLine;
    SizedFraming(m, |m.fields|);
  }

  lemma ChunkedMark(m: Message)
    requires Valid(m) && m.payload.Chunked?
    ensures |Lines(m)| == |m.fields| + 1 && FramingOf(Lines(m), |Lines(m)|).chunked
  {
    hide FramingOf, Names, IsChunkedValue, ValidField, ValidChunk, Lines, StatusLine;
    var i :| 0 <= i < |m.fields| && Names(m.fields[i], "transfer-encoding") && IsChunkedValue(m.fields[i].value);
    ChunkedFraming(m, i, |m.fields|);
  }
}
