/** Reading back what a conforming server sends: any number of responses laid end to
    end on one connection are told apart exactly. */
module KeepAliveFraming {
  import opened Prelude
  import opened Text
  import opened Decimal
  import opened KeepAlive
  import opened Numerals
  import Utf8

  // ----- what a conforming server sends

  datatype Field = Field(name: string, value: string)

  /** A chunk: its size in hex, what may follow the size on the line, and the data. */
  datatype Chunk = Chunk(digits: string, pad: string, extension: string, data: seq<byte>)

  /** A body of an announced length, chunks with the fields that may trail them, or no
      body and no framing field, as in an interim or a bodiless response. */
  datatype Payload =
    | Sized(body: seq<byte>)
    | Chunked(chunks: seq<Chunk>, last: Chunk, trailer: seq<Field>)
    | Bare

  datatype Message = Message(status: nat, reason: string, fields: seq<Field>, payload: Payload)

  function FieldLine(f: Field): string {
    f.name + ":" + f.value
  }

  function StatusLine(m: Message): string {
    "HTTP/1.1 " + (NatText(m.status) + (" " + m.reason))
  }

  function Lines(m: Message): (r: seq<string>)
    ensures |r| == |m.fields| + 1 && r[0] == StatusLine(m)
    ensures forall k :: 0 <= k < |m.fields| ==> r[k + 1] == FieldLine(m.fields[k])
  {
    [StatusLine(m)] + seq(|m.fields|, k requires 0 <= k < |m.fields| => FieldLine(m.fields[k]))
  }

  function SizeLine(c: Chunk): string {
    c.digits + c.pad + c.extension
  }

  /** A chunk line and what follows it: the data, or the trailer behind the last one. */
  function ChunkBytes(c: Chunk, content: seq<byte>): seq<byte> {
    Utf8.Encode(SizeLine(c)) + (CRLF_BYTES + (content + CRLF_BYTES))
  }

  function TrailerBytes(trailer: seq<Field>): seq<byte> {
    if trailer == [] then [] else Utf8.Encode(FieldLine(trailer[0])) + (CRLF_BYTES + TrailerBytes(trailer[1..]))
  }

  function ChunksBytes(chunks: seq<Chunk>, last: Chunk, trailer: seq<Field>): seq<byte> {
    if chunks == [] then ChunkBytes(last, TrailerBytes(trailer))
    else ChunkBytes(chunks[0], chunks[0].data) + ChunksBytes(chunks[1..], last, trailer)
  }

  function Data(chunks: seq<Chunk>): seq<byte> {
    if chunks == [] then [] else chunks[0].data + Data(chunks[1..])
  }

  function PayloadBytes(p: Payload): seq<byte> {
    match p
    case Sized(body) => body
    case Chunked(chunks, last, trailer) => ChunksBytes(chunks, last, trailer)
    case Bare => []
  }

  function Body(p: Payload): seq<byte> {
    match p
    case Sized(body) => body
    case Chunked(chunks, _, _) => Data(chunks)
    case Bare => []
  }

  /** The bytes of the message that the client leaves unread: its trailer fields. */
  function Unread(p: Payload): nat {
    if p.Chunked? then |TrailerBytes(p.trailer)| else 0
  }

  function MessageBytes(m: Message): seq<byte> {
    Utf8.Encode(Join(Lines(m), CRLF)) + (HEADERS_END + PayloadBytes(m.payload))
  }

  // ----- well-formed messages

  predicate NoReturn(s: string) {
    forall k :: 0 <= k < |s| ==> s[k] != '\r'
  }

  /** A field name: visible ASCII without a colon. */
  predicate IsToken(s: string) {
    s != [] && forall k :: 0 <= k < |s| ==> 0x21 <= s[k] as int <= 0x7E && s[k] != ':'
  }

  predicate Names(f: Field, name: string) {
    SameUpToCase(f.name, name)
  }

  /** The value of a transfer coding has the word in it, in any case. */
  ghost predicate IsChunkedValue(value: string) {
    exists k: nat :: HasWord(value, k, "chunked")
  }

  predicate HasWord(s: string, k: nat, word: string) {
    k + |word| <= |s| && SameUpToCase(s[k..k + |word|], word)
  }

  /** Comma-separated values. */
  predicate IsListOf(value: string, tokens: seq<string>) {
    tokens != [] && Join(tokens, ",") == value && forall k :: 0 <= k < |tokens| ==> Free(tokens[k], ',')
  }

  /** The word, in any case, with whitespace around it. */
  ghost predicate IsClose(token: string) {
    exists a, w, b :: token == a + w + b && AllWhitespace(a) && AllWhitespace(b) && SameUpToCase(w, "close")
  }

  /** One of the values asks to close. */
  ghost predicate ListsClose(value: string) {
    exists tokens, k :: IsListOf(value, tokens) && 0 <= k < |tokens| && IsClose(tokens[k])
  }

  predicate ValidField(f: Field) {
    IsToken(f.name) && NoReturn(f.value)
  }

  ghost predicate ValidChunk(c: Chunk) {
    && SpellsHex(c.digits, |c.data|)
    && AllWhitespace(c.pad) && NoReturn(c.pad)
    && NoReturn(c.extension) && (c.extension != [] ==> c.extension[0] == ';')
  }

  /** A field value that is the number in decimal digits, leading zeros or not, with
      whitespace around it. */
  ghost predicate Announces(value: string, n: nat) {
    exists a, t, b :: value == a + t + b && AllWhitespace(a) && AllWhitespace(b) && Spells(t, n)
  }

  /** The length of the body stands in a `Content-Length` field, and in every one, when
      there is no `Transfer-Encoding`; or the transfer coding is chunked; or there is
      neither field. */
  ghost predicate ValidPayload(fields: seq<Field>, p: Payload) {
    match p
    case Sized(body) =>
      && (exists k :: 0 <= k < |fields| && Names(fields[k], "content-length"))
      && (forall k :: 0 <= k < |fields| ==>
            && !Names(fields[k], "transfer-encoding")
            && (Names(fields[k], "content-length") ==> Announces(fields[k].value, |body|)))
    case Bare =>
      forall k :: 0 <= k < |fields| ==> !Names(fields[k], "transfer-encoding") && !Names(fields[k], "content-length")
    case Chunked(chunks, last, _) =>
      && (exists k :: 0 <= k < |fields| && Names(fields[k], "transfer-encoding") && IsChunkedValue(fields[k].value))
      && (forall k :: 0 <= k < |chunks| ==> ValidChunk(chunks[k]) && chunks[k].data != [])
      && ValidChunk(last) && last.data == []
  }

  ghost predicate Valid(m: Message) {
    && 100 <= m.status <= 999 && NoReturn(m.reason)
    && (forall k :: 0 <= k < |m.fields| ==> ValidField(m.fields[k]))
    && ValidPayload(m.fields, m.payload)
    && |Body(m.payload)| < TWO_64
  }

  /** The message asks to close: a `Connection` field with the token `close`. */
  ghost predicate AsksToClose(m: Message) {
    exists k :: 0 <= k < |m.fields| && Names(m.fields[k], "connection") && ListsClose(m.fields[k].value)
  }

  // ----- line breaks

  lemma {:induction false} EncodeNoReturn(t: string)
    requires NoReturn(t)
    ensures forall k :: 0 <= k < |Utf8.Encode(t)| ==> Utf8.Encode(t)[k] != 0x0D
  {
    if t != [] {
      EncodeNoReturn(t[1..]);
      assert t[0] as int < 0x80 ==> Utf8.EncodeChar(t[0]) == [t[0] as int];
    }
  }

  lemma EncodeBreak()
    ensures Utf8.Encode(CRLF) == CRLF_BYTES
  {
    Utf8.EncodeAscii(CRLF);
  }

  lemma EncodeNonempty(t: string)
    requires t != []
    ensures Utf8.Encode(t) != []
  {
  }

  predicate AllLines(lines: seq<string>) {
    forall k :: 0 <= k < |lines| ==> NoReturn(lines[k])
  }

  predicate NoBlank(lines: seq<string>) {
    forall k :: 0 <= k < |lines| ==> lines[k] != ""
  }

  lemma JoinedStep(lines: seq<string>)
    requires |lines| > 1
    ensures Utf8.Encode(Join(lines, CRLF)) == Utf8.Encode(lines[0]) + (CRLF_BYTES + Utf8.Encode(Join(lines[1..], CRLF)))
  {
    hide Utf8.Encode;
    Utf8.EncodeConcat(lines[0], CRLF + Join(lines[1..], CRLF));
    Utf8.EncodeConcat(CRLF, Join(lines[1..], CRLF));
    EncodeBreak();
  }

  lemma JoinedStart(lines: seq<string>)
    requires lines != [] && AllLines(lines) && lines[0] != ""
    ensures Utf8.Encode(Join(lines, CRLF)) != [] && Utf8.Encode(Join(lines, CRLF))[0] != 0x0D
  {
    hide Utf8.Encode;
    EncodeNoReturn(lines[0]);
    EncodeNonempty(lines[0]);
    if |lines| > 1 {
      JoinedStep(lines);
    }
  }

  lemma NotInPrefix(b: seq<byte>, rest: seq<byte>, p: seq<byte>)
    requires |p| >= 2 && forall k :: 0 <= k < |b| ==> b[k] != p[0]
    ensures forall k: nat :: k < |b| ==> !At(b + rest, k, p)
  {
    NotInside(b + rest, p, 0, |b|);
  }

  lemma AtShift<T>(a: seq<T>, s: seq<T>, k: nat, p: seq<T>)
    ensures At(a + s, |a| + k, p) <==> At(s, k, p)
  {
    if k + |p| <= |s| {
      assert (a + s)[|a| + k..|a| + k + |p|] == s[k..k + |p|];
    }
  }

  /** A blank line cannot start at a line break that a nonempty line follows. */
  lemma NoBlankAtBreak(b: seq<byte>, next: seq<byte>, k: nat)
    requires |b| <= k < |b| + 2 && next != [] && next[0] != 0x0D
    ensures !At(b + (CRLF_BYTES + next), k, HEADERS_END)
  {
    var s := b + (CRLF_BYTES + next);
    assert s[|b|] == 0x0D && s[|b| + 1] == 0x0A && s[|b| + 2] == next[0];
    if At(s, k, HEADERS_END) {
      AtIndex(s, k, HEADERS_END, if k == |b| then 2 else 0);
    }
  }

  function WithBlank(b: seq<byte>, tail: seq<byte>): seq<byte> {
    b + (HEADERS_END + tail)
  }

  predicate NoEarlierBlank(b: seq<byte>, tail: seq<byte>) {
    forall k: nat :: k < |b| ==> !At(WithBlank(b, tail), k, HEADERS_END)
  }

  /** A nonempty line and its break put in front bring no blank line. */
  lemma BlankStep(first: seq<byte>, r: seq<byte>, tail: seq<byte>)
    requires forall k :: 0 <= k < |first| ==> first[k] != 0x0D
    requires NoEarlierBlank(r, tail) && r != [] && r[0] != 0x0D
    ensures NoEarlierBlank(first + (CRLF_BYTES + r), tail)
  {
    var next := WithBlank(r, tail);
    var b := first + (CRLF_BYTES + r);
    assert WithBlank(b, tail) == first + (CRLF_BYTES + next);
    assert first + CRLF_BYTES + next == first + (CRLF_BYTES + next);
    NotInPrefix(first, CRLF_BYTES + next, HEADERS_END);
    forall k: nat | k < |b| ensures !At(WithBlank(b, tail), k, HEADERS_END) {
      hide At, WithBlank;
      if |first| <= k < |first| + 2 {
        assert next[0] == r[0] by { WithBlankHead(r, tail); }
        NoBlankAtBreak(first, next, k);
      } else if k >= |first| + 2 {
        var j: nat := k - |first| - 2;
        AtShift(first + CRLF_BYTES, next, j, HEADERS_END);
      }
    }
  }

  lemma WithBlankHead(b: seq<byte>, tail: seq<byte>)
    requires b != []
    ensures WithBlank(b, tail) != [] && WithBlank(b, tail)[0] == b[0]
  {
  }

  /** The first blank line is the one behind the last line. */
  lemma {:induction false} BlankLineIsLast(lines: seq<string>, tail: seq<byte>)
    requires lines != [] && AllLines(lines) && NoBlank(lines)
    ensures NoEarlierBlank(Utf8.Encode(Join(lines, CRLF)), tail)
    decreases |lines|
  {
    hide Utf8.Encode, NoReturn, At;
    var first := Utf8.Encode(lines[0]);
    EncodeNoReturn(lines[0]);
    if |lines| == 1 {
      NotInPrefix(first, HEADERS_END + tail, HEADERS_END);
    } else {
      BlankLineIsLast(lines[1..], tail);
      JoinedStep(lines);
      JoinedStart(lines[1..]);
      BlankStep(first, Utf8.Encode(Join(lines[1..], CRLF)), tail);
    }
  }

  // ----- the lines of a message

  lemma DigitsAreNoReturn(t: string)
    requires AllDigits(t)
    ensures NoReturn(t)
  {
  }

  lemma StatusLineShape(m: Message)
    requires NoReturn(m.reason)
    ensures NoReturn(StatusLine(m))
  {
    hide NatText;
    DigitsAreNoReturn(NatText(m.status));
    assert NoReturn("HTTP/1.1 ") && NoReturn(" " + m.reason);
  }

  lemma FieldLineShape(f: Field)
    requires ValidField(f)
    ensures NoReturn(FieldLine(f)) && FieldLine(f) != ""
  {
  }

  lemma LinesShape(m: Message)
    requires Valid(m)
    ensures AllLines(Lines(m)) && NoBlank(Lines(m))
  {
    hide ValidPayload, ValidField, FieldLine, NoReturn;
    var lines := Lines(m);
    StatusLineShape(m);
    forall i | 0 <= i < |lines| ensures NoReturn(lines[i]) && lines[i] != "" {
      if i > 0 {
        FieldLineShape(m.fields[i - 1]);
        assert lines[(i - 1) + 1] == FieldLine(m.fields[i - 1]);
      }
    }
  }

  lemma StatusRead(m: Message)
    requires Valid(m)
    ensures StatusCode(StatusLine(m)) == Some(m.status)
  {
    hide ValidPayload, NatValue, NatText, ValidField, ParseUnsigned, IndexOf, Body;
    var line, t := StatusLine(m), NatText(m.status);
    var version := "HTTP/1.1";
    assert line[..8] == version;
    assert forall k :: 0 <= k < 8 ==> version[k] != ' ';
    assert forall k :: 0 <= k < 8 ==> line[k] == version[k];
    assert line[8] == ' ';
    IndexOfIs(line, ' ', 0, 8);
    assert forall k :: 0 <= k < |t| ==> line[9 + k] == t[k] && IsDigit(t[k]);
    assert forall k :: 9 <= k < 9 + |t| ==> line[k] == t[k - 9];
    IndexOfIs(line, ' ', 9, 9 + |t|);
    assert line[9..9 + |t|] == t;
    ParseUnsignedNatText(m.status, TWO_16);
  }

  lemma LowerConcat(a: string, b: string)
    ensures Lower(a + b) == Lower(a) + Lower(b)
  {
  }

  // ----- the code's folding is equality up to case

  predicate NoUpper(name: string) {
    forall k :: 0 <= k < |name| ==> !('A' <= name[k] <= 'Z')
  }

  lemma FoldIff(s: string, t: string)
    requires NoUpper(t)
    ensures Lower(s) == t <==> SameUpToCase(s, t)
  {
    if SameUpToCase(s, t) {
      forall k | 0 <= k < |s| ensures Lower(s)[k] == t[k] {
        assert SameLetter(s[k], t[k]);
      }
    }
    if Lower(s) == t {
      forall k | 0 <= k < |s| ensures SameLetter(s[k], t[k]) {
        assert Lower(s)[k] == LowerChar(s[k]);
      }
    }
  }

  lemma LowerSlice(s: string, i: nat, j: nat)
    requires i <= j <= |s|
    ensures Lower(s)[i..j] == Lower(s[i..j])
  {
  }

  lemma ChunkedIff(value: string)
    ensures IsChunkedValue(value) <==> Contains(Lower(value), "chunked")
  {
    hide Lower, SameUpToCase;
    forall k: nat ensures At(Lower(value), k, "chunked") <==> HasWord(value, k, "chunked") {
      if k + 7 <= |value| {
        LowerSlice(value, k, k + 7);
        FoldIff(value[k..k + 7], "chunked");
      }
    }
    if IsChunkedValue(value) {
      var k: nat :| HasWord(value, k, "chunked");
      assert At(Lower(value), k, "chunked");
    }
  }

  lemma CloseIff(token: string)
    ensures IsCloseToken(token) <==> IsClose(token)
  {
    hide Lower, SameUpToCase, IsWhitespace, Trim;
    if IsCloseToken(token) {
      var a, b := Trimmed(token);
      FoldIff(Trim(token), "close");
    }
    if IsClose(token) {
      var a, w, b :| token == a + w + b && AllWhitespace(a) && AllWhitespace(b) && SameUpToCase(w, "close");
      CloseIsPlain(w);
      TrimAround(a, w, b);
      FoldIff(w, "close");
    }
  }

  lemma CloseIsPlain(w: string)
    requires SameUpToCase(w, "close")
    ensures w != "" && !IsWhitespace(w[0]) && !IsWhitespace(w[|w| - 1])
  {
    assert SameLetter(w[0], "close"[0]) && SameLetter(w[4], "close"[4]);
  }

  lemma ListsCloseIff(value: string)
    ensures ListsClose(value) <==> HasCloseToken(Split(value, ","))
  {
    hide Split, Join, IsClose, IsCloseToken, Free;
    forall token ensures IsCloseToken(token) <==> IsClose(token) {
      CloseIff(token);
    }
    JoinSplit(value, ',');
    assert IsListOf(value, Split(value, ","));
    if ListsClose(value) {
      var tokens, k :| IsListOf(value, tokens) && 0 <= k < |tokens| && IsClose(tokens[k]);
      SplitJoin(tokens, ",");
    }
  }

  /** Before the first colon there is only the name. */
  lemma PrefixIsName(n: string, v: string, name: string)
    requires forall k :: 0 <= k < |n| ==> n[k] != ':'
    requires forall k :: 0 <= k < |name| ==> name[k] != ':'
    ensures name + ":" <= n + ":" + v <==> n == name
  {
    var low, p := n + ":" + v, name + ":";
    assert low[|n|] == ':' && forall k :: 0 <= k < |n| ==> low[k] == n[k];
    assert p[|name|] == ':' && forall k :: 0 <= k < |name| ==> p[k] == name[k];
    if p <= low {
      assert forall k :: 0 <= k < |p| ==> p[k] == low[k];
      assert !(|name| < |n|) && !(|n| < |name|);
      assert n == name;
    }
  }

  /** A field line starts with `name:` exactly when the field has that name. */
  lemma FieldPrefix(f: Field, name: string)
    requires IsToken(f.name) && NoUpper(name) && forall k :: 0 <= k < |name| ==> name[k] != ':'
    ensures name + ":" <= Lower(FieldLine(f)) <==> Names(f, name)
    ensures Names(f, name) ==> Lower(FieldLine(f))[|name| + 1..] == Lower(f.value)
  {
    FoldIff(f.name, name);
    LowerConcat(f.name + ":", f.value);
    LowerConcat(f.name, ":");
    var n, v := Lower(f.name), Lower(f.value);
    assert forall k :: 0 <= k < |n| ==> n[k] == LowerChar(f.name[k]) && n[k] != ':';
    assert Lower(":") == ":";
    hide Lower;
    PrefixIsName(n, v, name);
    assert (n + ":" + v)[|n| + 1..] == v;
  }

  lemma StatusLineIsNoField(m: Message)
    ensures LengthOf(StatusLine(m)) == None && !IsChunkedLine(StatusLine(m)) && !IsCloseLine(StatusLine(m))
  {
    hide Split, Find, HasCloseToken, TrimStart, TrimEnd;
    var line := StatusLine(m);
    assert line[0] == 'H' && Lower(line)[0] == 'h';
    assert "content-length:"[0] == 'c' && "transfer-encoding:"[0] == 't' && "connection"[0] == 'c';
    var colon := IndexOf(line, ':', 0);
    assert colon > 0;
    var name := line[..colon];
    assert name[0] == 'H';
    TrimKeepsHead(name);
    assert Lower(Trim(name))[0] == 'h';
  }

  lemma {:induction false} TrimEndKeepsHead(s: string)
    requires s != [] && !IsWhitespace(s[0])
    ensures TrimEnd(s) != [] && TrimEnd(s)[0] == s[0]
  {
    if IsWhitespace(s[|s| - 1]) {
      TrimEndKeepsHead(s[..|s| - 1]);
    }
  }

  lemma TrimKeepsHead(s: string)
    requires s != [] && !IsWhitespace(s[0])
    ensures Trim(s) != [] && Trim(s)[0] == s[0]
  {
    hide IsWhitespace;
    assert TrimStart(s) == s;
    TrimEndKeepsHead(s);
  }

  lemma FieldRead(f: Field)
    requires ValidField(f)
    ensures LengthOf(FieldLine(f)) == if Names(f, "content-length") then ParseUnsigned(Trim(Lower(f.value)), TWO_64) else None
    ensures IsChunkedLine(FieldLine(f)) ==> Names(f, "transfer-encoding")
    ensures Names(f, "transfer-encoding") && IsChunkedValue(f.value) ==> IsChunkedLine(FieldLine(f))
  {
    hide Trim, ParseUnsigned, Contains, IsChunkedValue;
    ChunkedIff(f.value);
    FieldPrefix(f, "content-length");
    FieldPrefix(f, "transfer-encoding");
    assert "content-length" + ":" == "content-length:" && "transfer-encoding" + ":" == "transfer-encoding:";
    if Names(f, "transfer-encoding") && IsChunkedValue(f.value) {
      ContainsSuffix(Lower(FieldLine(f)), |f.name| + 1, "chunked");
    }
  }

  lemma ContainsSuffix(s: string, i: nat, p: string)
    requires i <= |s| && Contains(s[i..], p)
    ensures Contains(s, p)
  {
    var k: nat :| k <= |s[i..]| && At(s[i..], k, p);
    AtShift(s[..i], s[i..], k, p);
    assert s[..i] + s[i..] == s;
    assert At(s, i + k, p);
  }

  lemma VisibleIsPlain(c: char)
    requires 0x21 <= c as int <= 0x7E
    ensures !IsWhitespace(c)
  {
  }

  lemma TokenIsPlain(name: string)
    requires IsToken(name)
    ensures Trim(name) == name
  {
    hide IsWhitespace, Trim;
    VisibleIsPlain(name[0]);
    VisibleIsPlain(name[|name| - 1]);
    TrimAround("", name, "");
    assert "" + name + "" == name;
  }

  lemma CloseRead(f: Field)
    requires ValidField(f)
    ensures IsCloseLine(FieldLine(f)) <==> Names(f, "connection") && ListsClose(f.value)
  {
    hide Split, HasCloseToken, Trim, ListsClose, SameUpToCase, Lower;
    ListsCloseIff(f.value);
    FoldIff(f.name, "connection");
    var line := FieldLine(f);
    assert forall k :: 0 <= k < |f.name| ==> line[k] == f.name[k];
    IndexOfIs(line, ':', 0, |f.name|);
    assert line[..|f.name|] == f.name && line[|f.name| + 1..] == f.value;
    TokenIsPlain(f.name);
  }

  /** The close mark reflects this message's fields and nothing else. */
  lemma CloseScanned(m: Message)
    requires Valid(m)
    ensures ScanClose(Utf8.Encode(Join(Lines(m), CRLF)) + HEADERS_END) == AsksToClose(m)
  {
    hide Split, IsCloseLine, HasCloseToken, Utf8.Encode, Utf8.Decode, ValidPayload, Join;
    var lines := Lines(m);
    var all := lines + ["", ""];
    LinesShape(m);
    JoinSnoc(lines, "", CRLF);
    JoinSnoc(lines + [""], "", CRLF);
    assert lines + [""] + [""] == all;
    var text := Join(lines, CRLF) + (CRLF + "") + (CRLF + "");
    assert text == Join(lines, CRLF) + (CRLF + CRLF);
    Utf8.EncodeConcat(Join(lines, CRLF), CRLF + CRLF);
    Utf8.EncodeConcat(CRLF, CRLF);
    EncodeBreak();
    assert CRLF_BYTES + CRLF_BYTES == HEADERS_END;
    Utf8.DecodeEncode(text);
    assert AllLines(all);
    SplitJoin(all, CRLF);
    CloseLines(m, all);
  }

  /** Whether the k-th line asks to close, for every line a scan sees. */
  lemma CloseLine(m: Message, all: seq<string>, i: nat)
    requires Valid(m) && all == Lines(m) + ["", ""] && i < |all|
    ensures IsCloseLine(all[i]) <==>
      (1 <= i <= |m.fields| && Names(m.fields[i - 1], "connection") && ListsClose(m.fields[i - 1].value))
  {
    hide Split, IsCloseLine, HasCloseToken, ValidPayload, ValidField, Names, StatusLine, FieldLine, Lower;
    if i == 0 {
      StatusLineIsNoField(m);
    } else if i <= |m.fields| {
      CloseRead(m.fields[i - 1]);
      assert Lines(m)[(i - 1) + 1] == FieldLine(m.fields[i - 1]);
    } else {
      EmptyLine();
    }
  }

  lemma CloseLines(m: Message, all: seq<string>)
    requires Valid(m) && all == Lines(m) + ["", ""]
    ensures WantsClose(all) <==> AsksToClose(m)
  {
    hide Split, IsCloseLine, HasCloseToken, Valid, Names, Lines;
    if WantsClose(all) {
      var i :| 0 <= i < |all| && IsCloseLine(all[i]);
      CloseLine(m, all, i);
    }
    if AsksToClose(m) {
      var k :| 0 <= k < |m.fields| && Names(m.fields[k], "connection") && ListsClose(m.fields[k].value);
      CloseLine(m, all, k + 1);
    }
  }

  lemma EmptyLine()
    ensures !IsCloseLine("")
  {
  }

  lemma SizedLine(m: Message, k: nat)
    requires Valid(m) && m.payload.Sized? && k < |m.fields|
    ensures var line := Lines(m)[k + 1];
      && !IsChunkedLine(line)
      && (LengthOf(line).Some? <==> Names(m.fields[k], "content-length"))
      && (LengthOf(line).Some? ==> LengthOf(line).value == |m.payload.body|)
  {
    hide LengthOf, IsChunkedLine, Contains, Names, Trim, ParseUnsigned, NatText, Announces;
    FieldRead(m.fields[k]);
    if Names(m.fields[k], "content-length") { AnnouncedRead(m.fields[k].value, |m.payload.body|); }
  }

  lemma AnnouncedRead(value: string, n: nat)
    requires Announces(value, n) && n < TWO_64
    ensures ParseUnsigned(Trim(Lower(value)), TWO_64) == Some(n)
  {
    hide Trim, NatValue, IsWhitespace, Spells;
    var a, t, b :| value == a + t + b && AllWhitespace(a) && AllWhitespace(b) && Spells(t, n);
    SpellsIff(t, n);
    LowerConcat(a + t, b);
    LowerConcat(a, t);
    LowerOfDigits(t);
    LowerOfSpace(a);
    LowerOfSpace(b);
    DigitIsPlain(t[0]);
    DigitIsPlain(t[|t| - 1]);
    hide Lower;
    TrimAround(a, t, b);
    assert IsDigit(t[0]);
  }

  lemma LowerOfDigits(t: string)
    requires AllDigits(t)
    ensures Lower(t) == t
  {
    assert forall k :: 0 <= k < |t| ==> IsDigit(t[k]) && LowerChar(t[k]) == t[k];
  }

  lemma LowerOfSpace(t: string)
    requires AllWhitespace(t)
    ensures Lower(t) == t
  {
    assert forall k :: 0 <= k < |t| ==> IsWhitespace(t[k]) && LowerChar(t[k]) == t[k];
  }

  lemma DigitIsPlain(c: char)
    requires IsDigit(c)
    ensures !IsWhitespace(c)
  {
  }

  /** Without either field the head announces nothing. */
  lemma {:induction false} BareFraming(m: Message, k: nat)
    requires Valid(m) && m.payload.Bare? && k <= |m.fields|
    ensures FramingOf(Lines(m), k + 1) == Framing(None, false)
  {
    hide LengthOf, IsChunkedLine, Names, Contains, ValidField, StatusLine, Lines, FieldLine, Lower, Trim, ParseUnsigned;
    StatusLineIsNoField(m);
    if k > 0 {
      BareFraming(m, k - 1);
      FieldRead(m.fields[k - 1]);
      assert Lines(m)[(k - 1) + 1] == FieldLine(m.fields[k - 1]);
    }
  }

  /** With a sized body the head announces exactly its length. */
  lemma {:induction false} SizedFraming(m: Message, k: nat)
    requires Valid(m) && m.payload.Sized? && k <= |m.fields|
    ensures var f := FramingOf(Lines(m), k + 1);
      && !f.chunked
      && (f.length.Some? ==> f.length.value == |m.payload.body|)
      && (forall i :: 0 <= i < k && Names(m.fields[i], "content-length") ==> f.length.Some?)
  {
    hide LengthOf, IsChunkedLine, Names, Valid, StatusLine, Lines, FieldLine;
    StatusLineIsNoField(m);
    if k > 0 {
      SizedFraming(m, k - 1);
      SizedLine(m, k - 1);
    }
  }

  /** One chunked field anywhere decides for chunks. */
  lemma {:induction false} ChunkedFraming(m: Message, i: nat, k: nat)
    requires Valid(m) && i < k <= |m.fields|
    requires Names(m.fields[i], "transfer-encoding") && IsChunkedValue(m.fields[i].value)
    ensures FramingOf(Lines(m), k + 1).chunked
  {
    hide LengthOf, IsChunkedLine, Names, IsChunkedValue, ValidPayload, ValidField, StatusLine, Lines, FieldLine, Body;
    hide FramingOf, Valid;
    FramingStep(Lines(m), k);
    if k - 1 == i {
      FieldIsValid(m, i);
      FieldRead(m.fields[i]);
      LineOfField(m, i);
    } else {
      ChunkedFraming(m, i, k - 1);
    }
  }

  lemma FramingStep(lines: seq<string>, k: nat)
    requires k < |lines|
    ensures FramingOf(lines, k + 1).chunked <==> FramingOf(lines, k).chunked || IsChunkedLine(lines[k])
  {
    hide IsChunkedLine, LengthOf;
  }

  lemma FieldIsValid(m: Message, i: nat)
    requires Valid(m) && i < |m.fields|
    ensures ValidField(m.fields[i])
  {
    hide ValidPayload, ValidField;
  }

  lemma LineOfField(m: Message, i: nat)
    requires i < |m.fields|
    ensures Lines(m)[i + 1] == FieldLine(m.fields[i])
  {
    hide FieldLine, StatusLine;
  }

  // ----- chunks

  lemma HexCharIff(c: char, d: nat)
    ensures IsHexDigit(c, d) <==> HexDigitValue(c) == Some(d)
  {
    var t, u := "0123456789abcdef", "0123456789ABCDEF";
    assert t[0] == '0' && t[1] == '1' && t[2] == '2' && t[3] == '3' && t[4] == '4' && t[5] == '5' && t[6] == '6' && t[7] == '7';
    assert t[8] == '8' && t[9] == '9' && t[10] == 'a' && t[11] == 'b' && t[12] == 'c' && t[13] == 'd' && t[14] == 'e' && t[15] == 'f';
    assert u[0] == '0' && u[1] == '1' && u[2] == '2' && u[3] == '3' && u[4] == '4' && u[5] == '5' && u[6] == '6' && u[7] == '7';
    assert u[8] == '8' && u[9] == '9' && u[10] == 'A' && u[11] == 'B' && u[12] == 'C' && u[13] == 'D' && u[14] == 'E' && u[15] == 'F';
  }

  function HexDigitsOf(s: string): (r: seq<nat>)
    requires AllHex(s)
    ensures |r| == |s| && forall k :: 0 <= k < |s| ==> HexDigitValue(s[k]) == Some(r[k])
  {
    seq(|s|, k requires 0 <= k < |s| => HexDigitValue(s[k]).value)
  }

  lemma WritesHexIff(s: string, digits: seq<nat>)
    ensures WritesHex(s, digits) <==> AllHex(s) && digits == HexDigitsOf(s)
  {
    hide IsHexDigit, HexDigitValue;
    forall c, d: nat ensures IsHexDigit(c, d) <==> HexDigitValue(c) == Some(d) {
      HexCharIff(c, d);
    }
    if WritesHex(s, digits) { assert forall k :: 0 <= k < |s| ==> IsHexDigit(s[k], digits[k]); }
  }

  lemma {:induction false} HexIsPositional(s: string)
    requires AllHex(s)
    ensures HexValue(s) == Positional(HexDigitsOf(s), 16)
  {
    hide HexDigitValue;
    if s != [] {
      var t, d := s[..|s| - 1], HexDigitValue(s[|s| - 1]).value;
      HexIsPositional(t);
      PositionalSnoc(HexDigitsOf(t), d, 16);
      assert HexDigitsOf(s) == HexDigitsOf(t) + [d];
    }
  }

  /** The reader's hex value is the one the digits have by their places. */
  lemma SpellsHexIff(s: string, n: nat)
    ensures SpellsHex(s, n) <==> s != "" && AllHex(s) && HexValue(s) == n
  {
    hide WritesHex, Positional, HexValue, HexDigitValue;
    forall digits ensures WritesHex(s, digits) <==> AllHex(s) && digits == HexDigitsOf(s) {
      WritesHexIff(s, digits);
    }
    if AllHex(s) {
      HexIsPositional(s);
      assert WritesHex(s, HexDigitsOf(s));
    }
  }

  lemma HexIsPlain(digits: string)
    requires AllHex(digits)
    ensures forall k :: 0 <= k < |digits| ==>
      !IsWhitespace(digits[k]) && digits[k] != ';' && digits[k] != '\r' && digits[k] != '+'
  {
    assert forall k :: 0 <= k < |digits| ==> HexDigitValue(digits[k]).Some?;
  }

  lemma WhitespaceIsNoSemicolon(pad: string)
    requires AllWhitespace(pad)
    ensures forall k :: 0 <= k < |pad| ==> pad[k] != ';'
  {
  }

  lemma SizeLineRead(c: Chunk)
    requires ValidChunk(c) && |c.data| < TWO_64
    ensures ChunkSize(Utf8.Encode(SizeLine(c))) == Some(|c.data|)
    ensures NoReturn(SizeLine(c))
  {
    hide IsWhitespace, HexValue, HexDigitValue, Utf8.Encode, Utf8.Decode, Trim, SpellsHex;
    var text := SizeLine(c);
    SpellsHexIff(c.digits, |c.data|);
    HexIsPlain(c.digits);
    WhitespaceIsNoSemicolon(c.pad);
    Utf8.DecodeEncode(text);
    var n := |c.digits| + |c.pad|;
    assert text[..n] == c.digits + c.pad;
    assert forall k :: 0 <= k < n ==> text[k] == (c.digits + c.pad)[k];
    IndexOfIs(text, ';', 0, n);
    TrimAround("", c.digits, c.pad);
    assert "" + c.digits == c.digits;
    assert text[..n] == "" + c.digits + c.pad;
  }

  lemma BreakAfter(s: seq<byte>, pos: nat, line: seq<byte>)
    requires At(s, pos, line) && At(s, pos + |line|, CRLF_BYTES)
    requires forall k :: 0 <= k < |line| ==> line[k] != 0x0D
    ensures Find(s, CRLF_BYTES, pos) == pos + |line|
  {
    forall k | pos <= k < pos + |line| ensures s[k] != 0x0D {
      AtIndex(s, pos, line, k - pos);
    }
    NotInside(s, CRLF_BYTES, pos, pos + |line|);
    FindIs(s, CRLF_BYTES, pos, pos + |line|);
  }

  /** One chunk at `pos`: its line, what follows it and the break behind that. */
  lemma ChunkHeadRead(s: seq<byte>, pos: nat, c: Chunk, content: seq<byte>)
    requires ValidChunk(c) && |c.data| < TWO_64 && At(s, pos, ChunkBytes(c, content))
    ensures var line := Utf8.Encode(SizeLine(c)); var start := pos + |line| + 2;
      && ReadChunkHead(s, pos) == Ok((|c.data|, start))
      && |ChunkBytes(c, content)| == |line| + 2 + |content| + 2
      && start + |content| + 2 <= |s| && s[start..start + |content|] == content
  {
    hide ChunkSize, Utf8.Encode, ValidChunk, NoReturn, SizeLine, Find;
    var line := Utf8.Encode(SizeLine(c));
    SizeLineRead(c);
    EncodeNoReturn(SizeLine(c));
    AtSplit(s, pos, line, CRLF_BYTES + (content + CRLF_BYTES));
    AtSplit(s, pos + |line|, CRLF_BYTES, content + CRLF_BYTES);
    AtSplit(s, pos + |line| + 2, content, CRLF_BYTES);
    BreakAfter(s, pos, line);
  }

  lemma ChunkRead(s: seq<byte>, pos: nat, c: Chunk, out: seq<byte>)
    requires ValidChunk(c) && c.data != [] && At(s, pos, ChunkBytes(c, c.data)) && |out| + |c.data| < TWO_64
    ensures var next := pos + |ChunkBytes(c, c.data)|;
      && next <= |s|
      && ReadChunks(s, pos, out) == ReadChunks(s, next, out + c.data)
  {
    hide ReadChunkHead, ChunkBytes, ValidChunk, Utf8.Encode, SizeLine, At;
    ChunkHeadRead(s, pos, c, c.data);
    assert Resized(|out|, |c.data|) == |out| + |c.data|;
  }

  /** Behind the last chunk's line two bytes are read, whatever the trailer holds. */
  lemma LastRead(s: seq<byte>, pos: nat, c: Chunk, content: seq<byte>, out: seq<byte>)
    requires ValidChunk(c) && c.data == [] && At(s, pos, ChunkBytes(c, content))
    ensures pos <= |s| && |content| <= |ChunkBytes(c, content)|
    ensures ReadChunks(s, pos, out) == Ok((out, pos + |ChunkBytes(c, content)| - |content|))
  {
    hide ReadChunkHead, ChunkBytes, ValidChunk, Utf8.Encode, SizeLine, At;
    ChunkHeadRead(s, pos, c, content);
  }

  lemma {:induction false} ChunksRead(s: seq<byte>, pos: nat, chunks: seq<Chunk>, last: Chunk, trailer: seq<Field>, out: seq<byte>)
    requires forall k :: 0 <= k < |chunks| ==> ValidChunk(chunks[k]) && chunks[k].data != []
    requires ValidChunk(last) && last.data == []
    requires At(s, pos, ChunksBytes(chunks, last, trailer)) && |out| + |Data(chunks)| < TWO_64
    ensures pos <= |s| && |TrailerBytes(trailer)| <= |ChunksBytes(chunks, last, trailer)|
    ensures ReadChunks(s, pos, out) == Ok((out + Data(chunks), pos + |ChunksBytes(chunks, last, trailer)| - |TrailerBytes(trailer)|))
    decreases |chunks|
  {
    hide ReadChunks, ChunkBytes, ValidChunk, TrailerBytes;
    if chunks == [] {
      LastRead(s, pos, last, TrailerBytes(trailer), out);
      assert out + [] == out;
    } else {
      var c, rest := chunks[0], chunks[1..];
      AtSplit(s, pos, ChunkBytes(c, c.data), ChunksBytes(rest, last, trailer));
      ChunkRead(s, pos, c, out);
      ChunksRead(s, pos + |ChunkBytes(c, c.data)|, rest, last, trailer, out + c.data);
      assert out + c.data + Data(rest) == out + Data(chunks);
    }
  }

  // ----- the theorem

  function HeadBytes(m: Message): seq<byte> {
    Utf8.Encode(Join(Lines(m), CRLF))
  }

  /** The head at `pos` ends where the message's own head ends, whatever follows. */
  lemma HeadAlone(s: seq<byte>, pos: nat, m: Message)
    requires Valid(m) && At(s, pos, HeadBytes(m) + HEADERS_END)
    ensures var b := HeadBytes(m);
      && HeadEnd(s, pos) == Some(pos + |b| + 4) && pos + |b| + 4 <= |s|
      && s[pos..pos + |b|] == b && s[pos..pos + |b| + 4] == b + HEADERS_END
  {
    hide Utf8.Encode, Valid, Join, Lines, Find;
    var b := HeadBytes(m);
    LinesShape(m);
    AtSplit(s, pos, b, HEADERS_END);
    BlankLineIsLast(Lines(m), s[pos + |b| + 4..]);
    FirstBlankAt(s, pos, b);
    assert s[pos..pos + |b| + 4] == s[pos..pos + |b|] + s[pos + |b|..pos + |b| + 4];
  }

  lemma HeadRead(s: seq<byte>, pos: nat, m: Message)
    requires Valid(m) && At(s, pos, MessageBytes(m))
    ensures var b := HeadBytes(m);
      && HeadEnd(s, pos) == Some(pos + |b| + 4) && pos + |b| + 4 <= |s|
      && s[pos..pos + |b|] == b && s[pos..pos + |b| + 4] == b + HEADERS_END
      && At(s, pos + |b| + 4, PayloadBytes(m.payload))
      && |MessageBytes(m)| == |b| + 4 + |PayloadBytes(m.payload)|
  {
    hide Valid, PayloadBytes, HeadBytes;
    var b, p := HeadBytes(m), PayloadBytes(m.payload);
    MessageParts(m);
    AtSplit(s, pos, b, HEADERS_END + p);
    AtSplit(s, pos + |b|, HEADERS_END, p);
    AtSplit(s, pos, b, HEADERS_END);
    HeadAlone(s, pos, m);
  }

  lemma MessageParts(m: Message)
    ensures MessageBytes(m) == HeadBytes(m) + (HEADERS_END + PayloadBytes(m.payload))
  {
  }

  /** What is read behind a head is decided by the message's own fields. */
  lemma ReadBehindHead(s: seq<byte>, pos: nat, m: Message)
    requires Valid(m) && At(s, pos, HeadBytes(m) + HEADERS_END)
    ensures pos + |HeadBytes(m)| + 4 <= |s|
    ensures ReadResponse(s, pos) ==
      match ReadBody(s, pos + |HeadBytes(m)| + 4, FramingOf(Lines(m), |Lines(m)|))
      case Err(e) => Err(e)
      case Ok(b) => Ok((HttpResponse(m.status, b.0), b.1))
  {
    hide HeadEnd, Utf8.Encode, Utf8.Decode, Join, Split, StatusCode, FramingOf, ReadBody, Valid;
    HeadAlone(s, pos, m);
    LinesShape(m);
    Utf8.DecodeEncode(Join(Lines(m), CRLF));
    SplitJoin(Lines(m), CRLF);
    StatusRead(m);
  }

  lemma SplitAround(s: seq<byte>, pos: nat, b: seq<byte>, p: seq<byte>)
    requires At(s, pos, b) && At(s, pos + |b|, p)
    ensures s == s[..pos] + (b + (p + s[pos + |b| + |p|..]))
  {
    var mid, end := pos + |b|, pos + |b| + |p|;
    assert s[mid..] == s[mid..end] + s[end..];
    assert s[pos..] == s[pos..mid] + s[mid..];
    assert s == s[..pos] + s[pos..];
  }

  lemma FirstBlankAt(s: seq<byte>, pos: nat, b: seq<byte>)
    requires At(s, pos, b) && At(s, pos + |b|, HEADERS_END)
    requires NoEarlierBlank(b, s[pos + |b| + 4..])
    ensures Find(s, HEADERS_END, pos) == pos + |b|
  {
    hide Find;
    var rest := WithBlank(b, s[pos + |b| + 4..]);
    SplitAround(s, pos, b, HEADERS_END);
    assert s == s[..pos] + rest;
    hide At;
    forall k: nat | pos <= k < pos + |b| ensures !At(s, k, HEADERS_END) {
      var j: nat := k - pos;
      assert !At(rest, j, HEADERS_END);
      AtShift(s[..pos], rest, j, HEADERS_END);
    }
    FindIs(s, HEADERS_END, pos, pos + |b|);
  }

  lemma SizedRead(s: seq<byte>, pos: nat, m: Message)
    requires Valid(m) && m.payload.Sized? && At(s, pos, m.payload.body)
    ensures ReadBody(s, pos, FramingOf(Lines(m), |Lines(m)|)) == Ok((m.payload.body, pos + |m.payload.body|))
  {
    hide FramingOf, Names, ValidField, Trim, Lines, StatusLine, Lower, NatText;
    SizedFraming(m, |m.fields|);
  }

  lemma ChunkedRead(s: seq<byte>, pos: nat, m: Message)
    requires Valid(m) && m.payload.Chunked? && At(s, pos, PayloadBytes(m.payload))
    ensures Unread(m.payload) <= |PayloadBytes(m.payload)|
    ensures ReadBody(s, pos, FramingOf(Lines(m), |Lines(m)|)) ==
      Ok((Body(m.payload), pos + |PayloadBytes(m.payload)| - Unread(m.payload)))
  {
    hide FramingOf, ReadChunks, Names, Contains, ValidField, ValidChunk, Trim, Lines, StatusLine, Lower, NatText, ChunksBytes, Data, TrailerBytes;
    var i :| 0 <= i < |m.fields| && Names(m.fields[i], "transfer-encoding") && IsChunkedValue(m.fields[i].value);
    ChunkedFraming(m, i, |m.fields|);
    ChunksRead(s, pos, m.payload.chunks, m.payload.last, m.payload.trailer, []);
    assert [] + Data(m.payload.chunks) == Data(m.payload.chunks);
  }

  lemma PayloadRead(s: seq<byte>, pos: nat, m: Message)
    requires Valid(m) && At(s, pos, PayloadBytes(m.payload))
    ensures pos <= |s| && Unread(m.payload) <= |PayloadBytes(m.payload)|
    ensures ReadBody(s, pos, FramingOf(Lines(m), |Lines(m)|)) ==
      if m.payload.Bare? then Err(NoFraming)
      else Ok((Body(m.payload), pos + |PayloadBytes(m.payload)| - Unread(m.payload)))
  {
    hide FramingOf, ReadBody, Valid, Lines, ChunksBytes, Data, TrailerBytes;
    match m.payload
    case Sized(_) => SizedRead(s, pos, m);
    case Chunked(_, _, _) => ChunkedRead(s, pos, m);
    case Bare => BareRead(s, pos, m);
  }

  lemma BareRead(s: seq<byte>, pos: nat, m: Message)
    requires Valid(m) && m.payload.Bare? && pos <= |s|
    ensures ReadBody(s, pos, FramingOf(Lines(m), |Lines(m)|)) == Err(NoFraming)
  {
    hide FramingOf, Valid, Lines;
    BareFraming(m, |m.fields|);
  }

  /** What the client must make of a well-formed message at `pos`: status and body, read
      up to the trailer fields, or an error where nothing frames the message. */
  function Expected(pos: nat, m: Message): ResponseReading
    requires Unread(m.payload) <= |MessageBytes(m)|
  {
    if m.payload.Bare? then Err(NoFraming)
    else Ok((HttpResponse(m.status, Body(m.payload)), pos + |MessageBytes(m)| - Unread(m.payload)))
  }

  /** Wherever a well-formed message stands in the stream, reading there returns its
      status and body, stops at its trailer, and learns its own wish to close. */
  lemma MessageRead(s: seq<byte>, pos: nat, m: Message, before: bool)
    requires Valid(m) && At(s, pos, MessageBytes(m))
    ensures Unread(m.payload) <= |MessageBytes(m)|
    ensures ReadResponse(s, pos) == Expected(pos, m)
    ensures CloseMark(s, pos, before) == AsksToClose(m)
  {
    hide ReadResponse, CloseMark, HeadBytes, FramingOf, ReadBody, MessageBytes, PayloadBytes, Body, Valid, Unread, Lines, AsksToClose;
    HeadRead(s, pos, m);
    HeadPresent(s, pos, m);
    ReadBehindHead(s, pos, m);
    PayloadRead(s, pos + |HeadBytes(m)| + 4, m);
    CloseAtHead(s, pos, m, before);
  }

  lemma HeadPresent(s: seq<byte>, pos: nat, m: Message)
    requires At(s, pos, MessageBytes(m))
    ensures At(s, pos, HeadBytes(m) + HEADERS_END)
  {
    hide At, PayloadBytes, HeadBytes;
    MessageParts(m);
    AtSplit(s, pos, HeadBytes(m), HEADERS_END + PayloadBytes(m.payload));
    AtSplit(s, pos + |HeadBytes(m)|, HEADERS_END, PayloadBytes(m.payload));
    AtSplit(s, pos, HeadBytes(m), HEADERS_END);
  }

  lemma CloseAtHead(s: seq<byte>, pos: nat, m: Message, before: bool)
    requires Valid(m) && At(s, pos, HeadBytes(m) + HEADERS_END)
    ensures pos <= |s| && CloseMark(s, pos, before) == AsksToClose(m)
  {
    hide HeadEnd, Utf8.Encode, Join, Lines, ScanClose, Valid, AsksToClose;
    HeadAlone(s, pos, m);
    CloseScanned(m);
  }

  /** Nothing is left unread exactly when no trailer field is sent. */
  lemma UnreadIff(p: Payload)
    ensures Unread(p) == 0 <==> p.Chunked? ==> p.trailer == []
  {
    if p.Chunked? && p.trailer != [] {
      assert |TrailerBytes(p.trailer)| >= 2;
    }
  }

  function StreamBytes(ms: seq<Message>): seq<byte> {
    if ms == [] then [] else StreamBytes(ms[..|ms| - 1]) + MessageBytes(ms[|ms| - 1])
  }

  lemma {:induction false} MessageInStream(ms: seq<Message>, k: nat)
    requires k < |ms|
    ensures At(StreamBytes(ms), |StreamBytes(ms[..k])|, MessageBytes(ms[k]))
    ensures |StreamBytes(ms[..k + 1])| == |StreamBytes(ms[..k])| + |MessageBytes(ms[k])|
  {
    hide MessageBytes;
    var init := ms[..|ms| - 1];
    var s := StreamBytes(ms);
    assert ms[..k + 1][..k] == ms[..k];
    if k == |ms| - 1 {
      assert s[|StreamBytes(init)|..] == MessageBytes(ms[k]);
      assert ms[..k] == init;
    } else {
      MessageInStream(init, k);
      assert init[..k] == ms[..k] && init[k] == ms[k];
      var at, p := |StreamBytes(ms[..k])|, MessageBytes(ms[k]);
      assert s[at..at + |p|] == StreamBytes(init)[at..at + |p|];
    }
  }

  lemma ExpectedEnd(pos: nat, m: Message)
    requires Unread(m.payload) <= |MessageBytes(m)|
    ensures var r := Expected(pos, m);
      && (r.Err? <==> m.payload.Bare?) && (r.Err? ==> r.error == NoFraming)
      && (r.Ok? ==>
          && r.value.0 == HttpResponse(m.status, Body(m.payload))
          && (r.value.1 == pos + |MessageBytes(m)| <==> m.payload.Chunked? ==> m.payload.trailer == []))
  {
    hide MessageBytes, Body, TrailerBytes;
    UnreadIff(m.payload);
  }

  /** Any number of messages end to end, with anything behind them: a request at the
      start of the k-th message reads exactly that message. It ends where the next one
      starts if and only if the message has no trailer fields. */
  lemma StreamRead(ms: seq<Message>, after: seq<byte>, k: nat, before: bool)
    requires k < |ms| && forall i :: 0 <= i < |ms| ==> Valid(ms[i])
    ensures |StreamBytes(ms[..k])| <= |StreamBytes(ms) + after|
    ensures var s := StreamBytes(ms) + after; var pos := |StreamBytes(ms[..k])|; var r := ReadResponse(s, pos);
      && CloseMark(s, pos, before) == AsksToClose(ms[k])
      && (r.Err? <==> ms[k].payload.Bare?) && (r.Err? ==> r.error == NoFraming)
      && (r.Ok? ==>
          && r.value.0 == HttpResponse(ms[k].status, Body(ms[k].payload))
          && (r.value.1 == |StreamBytes(ms[..k + 1])| <==> ms[k].payload.Chunked? ==> ms[k].payload.trailer == []))
  {
    hide MessageBytes, ReadResponse, CloseMark, Valid, StreamBytes, Unread, Body, Expected, AsksToClose;
    MessageInStream(ms, k);
    var s, at, p := StreamBytes(ms), |StreamBytes(ms[..k])|, MessageBytes(ms[k]);
    assert (s + after)[at..at + |p|] == s[at..at + |p|];
    MessageRead(s + after, at, ms[k], before);
    ExpectedEnd(at, ms[k]);
  }

  const STATUS_200 := "HTTP/1.1 200 OK"
  const LENGTH_2 := "Content-Length: 2"
  const CLOSE_FIELD := "Connection: Close"

  /** A response as servers write it: capitalised names are recognised. */
  lemma CapitalisedIsRead()
    ensures var s := Utf8.Encode(STATUS_200 + "\r\n" + LENGTH_2 + "\r\n" + CLOSE_FIELD + "\r\n\r\n" + "hi");
      ReadResponse(s, 0) == Ok((HttpResponse(200, [0x68, 0x69]), |s|)) && CloseMark(s, 0, false)
  {
    hide ReadResponse, CloseMark, Utf8.Encode, Lines, Join, ListsClose, Announces, ValidField, Names, StatusLine;
    var length, close := Field("Content-Length", " 2"), Field("Connection", " Close");
    var m := Message(200, "OK", [length, close], Sized([0x68, 0x69]));
    var s := Utf8.Encode(STATUS_200 + "\r\n" + LENGTH_2 + "\r\n" + CLOSE_FIELD + "\r\n\r\n" + "hi");
    ConcreteBytes(m, s);
    LengthField(length);
    CloseField(close);
    assert m.fields[0] == length && m.fields[1] == close;
    assert Valid(m);
    assert s[0..|s|] == s;
    MessageRead(s, 0, m, false);
  }

  lemma LengthField(f: Field)
    requires f == Field("Content-Length", " 2")
    ensures ValidField(f) && Names(f, "content-length") && !Names(f, "transfer-encoding") && Announces(f.value, 2)
  {
    hide IsWhitespace, Spells;
    SpaceIsWhite();
    SpellsIff("2", 2);
    assert " 2" == " " + "2" + "";
    assert "2"[..0] == "" && NatValue("2") == 2;
  }

  lemma SpaceIsWhite()
    ensures AllWhitespace(" ") && AllWhitespace("")
  {
  }

  lemma CloseField(f: Field)
    requires f == Field("Connection", " Close")
    ensures ValidField(f) && Names(f, "connection") && !Names(f, "transfer-encoding") && !Names(f, "content-length")
    ensures ListsClose(f.value)
  {
    hide IsWhitespace, ListsClose;
    CloseValue();
  }

  lemma CloseValue()
    ensures ListsClose(" Close")
  {
    hide IsWhitespace, Split;
    SpaceIsWhite();
    assert " Close" == " " + "Close" + "" && SameUpToCase("Close", "close");
    assert IsClose(" Close");
    assert IsListOf(" Close", [" Close"]) && [" Close"][0] == " Close";
  }

  lemma ConcreteBytes(m: Message, s: seq<byte>)
    requires m == Message(200, "OK", [Field("Content-Length", " 2"), Field("Connection", " Close")], Sized([0x68, 0x69]))
    requires s == Utf8.Encode(STATUS_200 + "\r\n" + LENGTH_2 + "\r\n" + CLOSE_FIELD + "\r\n\r\n" + "hi")
    ensures MessageBytes(m) == s
  {
    hide Utf8.Encode;
    var lines := Lines(m);
    Digits200();
    assert StatusLine(m) == STATUS_200;
    assert FieldLine(m.fields[0]) == LENGTH_2 && FieldLine(m.fields[1]) == CLOSE_FIELD;
    assert lines == [STATUS_200, LENGTH_2, CLOSE_FIELD];
    ThreeLines(STATUS_200, LENGTH_2, CLOSE_FIELD);
    var head := STATUS_200 + CRLF + LENGTH_2 + CRLF + CLOSE_FIELD;
    Utf8.EncodeConcat(head + "\r\n\r\n", "hi");
    Utf8.EncodeConcat(head, "\r\n\r\n");
    Utf8.EncodeAscii("\r\n\r\n");
    Utf8.EncodeAscii("hi");
    assert Utf8.Encode("\r\n\r\n") == HEADERS_END && Utf8.Encode("hi") == [0x68, 0x69];
    Regroup(Utf8.Encode(head), HEADERS_END, [0x68, 0x69], [], [], []);
  }

  lemma ThreeLines(a: string, b: string, c: string)
    ensures Join([a, b, c], CRLF) == a + CRLF + b + CRLF + c
  {
    assert [a, b, c][1..] == [b, c] && [b, c][1..] == [c];
    assert Join([c], CRLF) == c;
    assert Join([b, c], CRLF) == b + (CRLF + c);
    Regroup(a, CRLF, b, CRLF, c, "");
  }

  lemma Digits200()
    ensures NatText(200) == "200"
  {
    assert NatText(2) == "2" && NatText(20) == "20";
  }
}
