/** One HTTP/1.1 connection kept open over many requests: how far each response is
    read from the byte stream, what its status and body are, and whether the server
    asked to close. */
module KeepAlive {
  import opened Prelude
  import opened Text
  import opened Decimal
  import Utf8

  const CRLF_BYTES: seq<byte> := [0x0D, 0x0A]
  const HEADERS_END: seq<byte> := [0x0D, 0x0A, 0x0D, 0x0A]
  const CRLF := "\r\n"

  datatype ConnectionError =
    | Closed | BadHeaders | BadStatus | NoFraming | ShortBody | BadChunkSize

  datatype HttpResponse = HttpResponse(status: nat, body: seq<byte>)

  // ----- texts

  function LowerChar(c: char): char {
    if 'A' <= c <= 'Z' then (c as int + 32) as char else c
  }

  /** `to_ascii_lowercase`. */
  function Lower(s: string): (r: string)
    ensures |r| == |s| && forall k :: 0 <= k < |s| ==> r[k] == LowerChar(s[k])
  {
    seq(|s|, k requires 0 <= k < |s| => LowerChar(s[k]))
  }

  function Contains(s: string, p: string): bool {
    exists k: nat :: k <= |s| && At(s, k, p)
  }

  // ----- the head of a response

  /** `splitn(3, ' ')`, second part. */
  function StatusCode(line: string): Option<nat> {
    var a := IndexOf(line, ' ', 0);
    if a == |line| then None
    else ParseUnsigned(line[a + 1..IndexOf(line, ' ', a + 1)], TWO_16)
  }

  /** The number of a `Content-Length` line, if the line is one and has one. */
  function LengthOf(line: string): Option<nat> {
    var prefix := "content-length:";
    var lower := Lower(line);
    if prefix <= lower then ParseUnsigned(Trim(lower[|prefix|..]), TWO_64) else None
  }

  predicate IsChunkedLine(line: string) {
    "transfer-encoding:" <= Lower(line) && Contains(Lower(line), "chunked")
  }

  datatype Framing = Framing(length: Option<nat>, chunked: bool)

  /** The framing after the lines up to `k`: the last readable length wins. */
  function FramingOf(lines: seq<string>, k: nat): Framing
    requires k <= |lines|
  {
    if k == 0 then Framing(None, false)
    else
      var before, line := FramingOf(lines, k - 1), lines[k - 1];
      Framing(if LengthOf(line).Some? then LengthOf(line) else before.length, before.chunked || IsChunkedLine(line))
  }

  predicate IsCloseToken(token: string) {
    Lower(Trim(token)) == "close"
  }

  predicate IsCloseLine(line: string) {
    var colon := IndexOf(line, ':', 0);
    && colon < |line|
    && Lower(Trim(line[..colon])) == "connection"
    && HasCloseToken(Split(line[colon + 1..], ","))
  }

  predicate HasCloseToken(tokens: seq<string>) {
    exists k :: 0 <= k < |tokens| && IsCloseToken(tokens[k])
  }

  predicate WantsClose(lines: seq<string>) {
    exists k :: 0 <= k < |lines| && IsCloseLine(lines[k])
  }

  /** `scan_connection_close` on the raw header bytes. */
  function ScanClose(headers: seq<byte>): bool {
    match Utf8.Decode(headers)
    case None => false
    case Some(text) => WantsClose(Split(text, CRLF))
  }

  /** One past the blank line that ends the headers which start at `pos`. */
  function HeadEnd(s: seq<byte>, pos: nat): (r: Option<nat>)
    requires pos <= |s|
    ensures r.Some? ==> pos + 4 <= r.value <= |s|
  {
    var e := Find(s, HEADERS_END, pos);
    if e == |s| then None else Some(e + 4)
  }

  // ----- the body

  function HexDigitValue(c: char): Option<nat> {
    if '0' <= c <= '9' then Some(c as int - 0x30)
    else if 'a' <= c <= 'f' then Some(c as int - 0x61 + 10)
    else if 'A' <= c <= 'F' then Some(c as int - 0x41 + 10)
    else None
  }

  predicate AllHex(s: string) {
    forall k :: 0 <= k < |s| ==> HexDigitValue(s[k]).Some?
  }

  function HexValue(s: string): nat
    requires AllHex(s)
  {
    if s == [] then 0 else HexValue(s[..|s| - 1]) * 16 + HexDigitValue(s[|s| - 1]).value
  }

  /** `usize::from_str_radix(s, 16)`: an optional `+`, at least one digit, no overflow. */
  function ParseHex(s: string): (r: Option<nat>)
    ensures r.Some? ==> r.value < TWO_64
  {
    var digits := if s != [] && s[0] == '+' then s[1..] else s;
    if digits == [] || !AllHex(digits) || HexValue(digits) >= TWO_64 then None else Some(HexValue(digits))
  }

  /** The size that a chunk's first line announces: what stands before any `;`. */
  function ChunkSize(line: seq<byte>): (r: Option<nat>)
    ensures r.Some? ==> r.value < TWO_64
  {
    match Utf8.Decode(line)
    case None => None
    case Some(text) => ParseHex(Trim(text[..IndexOf(text, ';', 0)]))
  }

  type BodyReading = Result<(seq<byte>, nat), ConnectionError>

  function Min(a: nat, b: nat): nat {
    if a <= b then a else b
  }

  /** The size on the chunk line at `pos`, and one past that line. */
  function ReadChunkHead(s: seq<byte>, pos: nat): (r: Result<(nat, nat), ConnectionError>)
    requires pos <= |s|
    ensures r.Ok? ==> pos < r.value.1 <= |s| && r.value.0 < TWO_64
  {
    var e := Find(s, CRLF_BYTES, pos);
    if e == |s| then Err(Closed)
    else
      match ChunkSize(s[pos..e])
      case None => Err(BadChunkSize)
      case Some(size) => Ok((size, e + 2))
  }

  /** The buffer's length after `resize(len + size)` with a wrapping addition. */
  function Resized(len: nat, size: nat): nat {
    (len + size) % TWO_64
  }

  /** The chunks from `pos` on, after the bytes `out`. The end of the last chunk is the
      two bytes after its line, missing or not. A size that overflows the buffer's
      length makes the buffer shrink, and no data is read for it. */
  function ReadChunks(s: seq<byte>, pos: nat, out: seq<byte>): (r: BodyReading)
    requires pos <= |s|
    ensures r.Ok? ==> pos < r.value.1 <= |s|
    decreases |s| - pos
  {
    var (size, start) :- ReadChunkHead(s, pos);
    if size == 0 then Ok((out, Min(start + 2, |s|)))
    else
      var total := Resized(|out|, size);
      if total >= |out| then
        var end := start + (total - |out|);
        if end + 2 > |s| then Err(ShortBody) else ReadChunks(s, end + 2, out + s[start..end])
      else if start + 2 > |s| then Err(ShortBody)
      else ReadChunks(s, start + 2, out[..total])
  }

  function ReadBody(s: seq<byte>, pos: nat, f: Framing): (r: BodyReading)
    requires pos <= |s|
    ensures r.Ok? ==> pos <= r.value.1 <= |s|
  {
    if f.chunked then ReadChunks(s, pos, [])
    else
      match f.length
      case None => Err(NoFraming)
      case Some(n) => if pos + n <= |s| then Ok((s[pos..pos + n], pos + n)) else Err(ShortBody)
  }

  // ----- the response

  type ResponseReading = Result<(HttpResponse, nat), ConnectionError>

  /** The response at `pos`, and one past its last byte. */
  function ReadResponse(s: seq<byte>, pos: nat): (r: ResponseReading)
    requires pos <= |s|
    ensures r.Ok? ==> pos < r.value.1 <= |s|
  {
    match HeadEnd(s, pos)
    case None => Err(Closed)
    case Some(end) =>
      match Utf8.Decode(s[pos..end - 4])
      case None => Err(BadHeaders)
      case Some(text) =>
        var lines := Split(text, CRLF);
        match StatusCode(lines[0])
        case None => Err(BadStatus)
        case Some(status) =>
          match ReadBody(s, end, FramingOf(lines, |lines|))
          case Err(e) => Err(e)
          case Ok(b) => Ok((HttpResponse(status, b.0), b.1))
  }

  /** The connection's close mark after a response at `pos` was looked at. */
  function CloseMark(s: seq<byte>, pos: nat, before: bool): bool
    requires pos <= |s|
  {
    match HeadEnd(s, pos)
    case None => before
    case Some(end) => ScanClose(s[pos..end])
  }

  /** The reading side of the connection: all the server will ever send, how much of
      it has been read, and the server's last word on keeping the connection. */
  class Connection {
    const input: seq<byte>
    var pos: nat
    var serverWantsClose: bool

    ghost predicate Valid()
      reads this
    {
      pos <= |input|
    }

    constructor (input: seq<byte>)
      ensures Valid() && this.input == input && pos == 0 && !serverWantsClose
    {
      this.input := input;
      pos, serverWantsClose := 0, false;
    }

    /** One byte, or nothing at the end of the stream. */
    method ReadByte() returns (b: Option<byte>)
      requires Valid()
      modifies this`pos
      ensures Valid()
      ensures old(pos) == |input| ==> b == None && pos == old(pos)
      ensures old(pos) < |input| ==> b == Some(input[old(pos)]) && pos == old(pos) + 1
    {
      if pos == |input| { return None; }
      b := Some(input[pos]);
      pos := pos + 1;
    }

    /** `read_exact`: all of it, or what is left and a failure. */
    method ReadExact(n: nat) returns (b: Option<seq<byte>>)
      requires Valid()
      modifies this`pos
      ensures Valid()
      ensures old(pos) + n <= |input| ==> b == Some(input[old(pos)..old(pos) + n]) && pos == old(pos) + n
      ensures old(pos) + n > |input| ==> b == None && pos == |input|
    {
      if pos + n > |input| {
        pos := |input|;
        return None;
      }
      b := Some(input[pos..pos + n]);
      pos := pos + n;
    }

    /** Byte by byte until the bytes read end with `end`. */
    method ReadUntil(end: seq<byte>) returns (b: Option<seq<byte>>)
      requires Valid() && end != []
      modifies this`pos
      ensures Valid()
      ensures Find(input, end, old(pos)) == |input| ==> b == None
      ensures Find(input, end, old(pos)) < |input| ==>
        && pos == Find(input, end, old(pos)) + |end|
        && b == Some(input[old(pos)..pos])
    {
      var start := pos;
      var buf: seq<byte> := [];
      while true
        invariant Valid() && start <= pos && buf == input[start..pos]
        invariant forall k: nat :: start <= k && k + |end| <= pos ==> !At(input, k, end)
        decreases |input| - pos
      {
        var next := ReadByte();
        if next.None? {
          assert forall k: nat :: start <= k < |input| ==> !At(input, k, end);
          return None;
        }
        buf := buf + [next.value];
        assert buf == input[start..pos];
        if |buf| >= |end| && buf[|buf| - |end|..] == end {
          assert buf[|buf| - |end|..] == input[pos - |end|..pos];
          FindIs(input, end, start, pos - |end|);
          return Some(buf);
        }
        assert |buf| >= |end| ==> buf[|buf| - |end|..] == input[pos - |end|..pos];
      }
    }

    method NextChunkHead() returns (r: Result<nat, ConnectionError>)
      requires Valid()
      modifies this`pos
      ensures Valid()
      ensures match ReadChunkHead(input, old(pos))
              case Ok(h) => r == Ok(h.0) && pos == h.1
              case Err(e) => r == Err(e)
    {
      hide Find, ChunkSize;
      var start := pos;
      var line := ReadUntil(CRLF_BYTES);
      if line.None? { return Err(Closed); }
      assert line.value[..|line.value| - 2] == input[start..pos - 2];
      var size := ChunkSize(line.value[..|line.value| - 2]);
      if size.None? { return Err(BadChunkSize); }
      return Ok(size.value);
    }

    method ReadChunkedBody() returns (r: Result<seq<byte>, ConnectionError>)
      requires Valid()
      modifies this`pos
      ensures Valid()
      ensures match ReadChunks(input, old(pos), [])
              case Ok(b) => r == Ok(b.0) && pos == b.1
              case Err(e) => r == Err(e)
    {
      hide ReadChunkHead, Resized;
      ghost var whole := ReadChunks(input, pos, []);
      var out: seq<byte> := [];
      while true
        invariant Valid() && ReadChunks(input, pos, out) == whole
        decreases |input| - pos
      {
        var size := NextChunkHead();
        if size.Err? { return Err(size.error); }
        if size.value == 0 {
          var trailer := ReadExact(2);
          return Ok(out);
        }
        // The buffer is resized and the part behind its old length is filled.
        var total := Resized(|out|, size.value);
        if total >= |out| {
          var data := ReadExact(total - |out|);
          if data.None? { return Err(ShortBody); }
          out := out + data.value;
        } else {
          out := out[..total];
        }
        var crlf := ReadExact(2);
        if crlf.None? { return Err(ShortBody); }
      }
    }

    /** The reading half of `request`. */
    method Request() returns (r: Result<HttpResponse, ConnectionError>)
      requires Valid()
      modifies this
      ensures Valid()
      ensures match ReadResponse(input, old(pos))
              case Ok(p) => r == Ok(p.0) && pos == p.1
              case Err(e) => r == Err(e)
      ensures serverWantsClose == CloseMark(input, old(pos), old(serverWantsClose))
    {
      hide Find, ReadChunks, StatusCode, ScanClose, LengthOf, IsChunkedLine, Split, Utf8.Decode;
      var start := pos;
      var headers := ReadUntil(HEADERS_END);
      if headers.None? { return Err(Closed); }
      serverWantsClose := ScanClose(headers.value);
      assert headers.value[..|headers.value| - 4] == input[start..pos - 4];
      var text := Utf8.Decode(headers.value[..|headers.value| - 4]);
      if text.None? { return Err(BadHeaders); }
      var lines := Split(text.value, CRLF);
      var status := StatusCode(lines[0]);
      if status.None? { return Err(BadStatus); }
      var contentLength: Option<nat>, isChunked := None, false;
      for k := 0 to |lines|
        invariant Framing(contentLength, isChunked) == FramingOf(lines, k)
      {
        var n := LengthOf(lines[k]);
        if n.Some? { contentLength := n; }
        if IsChunkedLine(lines[k]) { isChunked := true; }
      }
      if isChunked {
        var chunks := ReadChunkedBody();
        if chunks.Err? { return Err(chunks.error); }
        return Ok(HttpResponse(status.value, chunks.value));
      }
      if contentLength.None? { return Err(NoFraming); }
      var body := ReadExact(contentLength.value);
      if body.None? { return Err(ShortBody); }
      return Ok(HttpResponse(status.value, body.value));
    }
  }
}
