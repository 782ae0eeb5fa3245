/** An independent receiver, after section 5.1.1 of RFC 2046, and the proof that it
    recovers exactly what the encoder was given. */
module MultipartReceiver {
  import opened Prelude
  import opened Multipart
  import Utf8

  const QUOTE: byte := 0x22
  const BACKSLASH: byte := 0x5C
  const BLANK_LINE: seq<byte> := CRLF + CRLF

  /** What a receiver learns about one part. */
  datatype Received = Received(name: seq<byte>, filename: Option<seq<byte>>, body: seq<byte>)

  /** First index at or after `i` where `d` occurs, if there is one. */
  function FirstAt(m: seq<byte>, i: nat, d: seq<byte>): (r: Option<nat>)
    requires d != []
    ensures r.Some? ==> i <= r.value && At(m, r.value, d)
    ensures r.Some? ==> forall q :: i <= q < r.value ==> !At(m, q, d)
    ensures r.None? ==> forall q :: i <= q <= |m| ==> !At(m, q, d)
  {
    if i > |m| then None
    else
      var r := Find(m, d, i);
      if r == |m| then None else Some(r)
  }

  lemma FirstAtIs(m: seq<byte>, i: nat, d: seq<byte>, p: nat)
    requires d != [] && i <= p && At(m, p, d)
    requires forall q :: i <= q < p ==> !At(m, q, d)
    ensures FirstAt(m, i, d) == Some(p)
  {
    var r := FirstAt(m, i, d);
    assert p <= |m|;
    assert r.Some?;
    assert !(r.value < p) && !(p < r.value);
  }

  /** Transport padding: spaces and tabs after a delimiter. */
  function SkipPadding(m: seq<byte>, i: nat): (r: nat)
    ensures i <= r
    decreases |m| - i
  {
    if i < |m| && (m[i] == SPACE || m[i] == 0x09) then SkipPadding(m, i + 1) else i
  }

  /** The contents between delimiters, from just behind one. The line end behind a
      delimiter may already belong to the next one. */
  function Contents(m: seq<byte>, i: nat, d: seq<byte>): Option<seq<seq<byte>>>
    requires d != []
    decreases |m| - i
  {
    if At(m, i, DASHES) then Some([])
    else
      var j := SkipPadding(m, i);
      if !At(m, j, CRLF) then None
      else
        match FirstAt(m, j, d)
        case None => None
        case Some(p) =>
          var content := if p < j + 2 then [] else m[j + 2..p];
          match Contents(m, p + |d|, d)
          case None => None
          case Some(rest) => Some([content] + rest)
  }

  /** A quoted string from behind its opening quote: a backslash stands for the byte
      after it. */
  function ReadQuoted(l: seq<byte>, i: nat, out: seq<byte>): Option<(seq<byte>, nat)>
    decreases |l| - i
  {
    if i >= |l| then None
    else if l[i] == QUOTE then Some((out, i + 1))
    else if l[i] == BACKSLASH then
      if i + 1 >= |l| then None else ReadQuoted(l, i + 2, out + [l[i + 1]])
    else ReadQuoted(l, i + 1, out + [l[i]])
  }

  const NAME_PREFIX: string := "Content-Disposition: form-data; name=\""
  const FILENAME_PREFIX: string := "; filename=\""

  /** The name and the filename of a disposition line. */
  function ReadDisposition(l: seq<byte>): Option<(seq<byte>, Option<seq<byte>>)> {
    var p := Utf8.Encode(NAME_PREFIX);
    if !At(l, 0, p) then None
    else
      match ReadQuoted(l, |p|, [])
      case None => None
      case Some((name, i)) =>
        var q := Utf8.Encode(FILENAME_PREFIX);
        if i == |l| then Some((name, Option<seq<byte>>.None))
        else if !At(l, i, q) then None
        else
          match ReadQuoted(l, i + |q|, [])
          case None => None
          case Some((filename, _)) => Some((name, Some(filename)))
  }

  /** Headers up to the first blank line, the disposition in the first line, then the
      body. */
  function ReadContent(c: seq<byte>): Option<Received> {
    match FirstAt(c, 0, BLANK_LINE)
    case None => None
    case Some(q) =>
      var block := c[..q];
      var line := match FirstAt(block, 0, CRLF) case Some(e) => block[..e] case None => block;
      match ReadDisposition(line)
      case None => None
      case Some((name, filename)) => Some(Received(name, filename, c[q + 4..]))
  }

  function ReadAll(contents: seq<seq<byte>>): Option<seq<Received>> {
    if contents == [] then Some([])
    else
      match (ReadContent(contents[0]), ReadAll(contents[1..]))
      case (Some(r), Some(rest)) => Some([r] + rest)
      case _ => None
  }

  /** The receiver: find the first delimiter line, split, read every part. */
  function Receive(m: seq<byte>, boundary: string): Option<seq<Received>> {
    var d := Delimiter(boundary);
    var start := if At(m, 0, DashBoundary(boundary)) then Some(|DashBoundary(boundary)|)
                 else match FirstAt(m, 0, d) case Some(p) => Some(p + |d|) case None => None;
    match start
    case None => None
    case Some(i) =>
      match Contents(m, i, d)
      case None => None
      case Some(contents) => ReadAll(contents)
  }

  /** What the receiver should see of a part. */
  function Expected(p: Part): Received {
    match p
    case Field(name, value) => Received(Utf8.Encode(name), None, Utf8.Encode(value))
    case File(fieldName, filename, _, bytes) =>
      Received(Utf8.Encode(fieldName), Some(Utf8.Encode(filename)), bytes)
  }

  function ExpectedAll(parts: seq<Part>): seq<Received> {
    if parts == [] then [] else [Expected(parts[0])] + ExpectedAll(parts[1..])
  }

  // ----- the bytes of a header block

  predicate NoCr(b: seq<byte>) {
    forall k :: 0 <= k < |b| ==> b[k] != CR
  }

  predicate NoCrText(s: string) {
    forall k :: 0 <= k < |s| ==> s[k] != '\r' && s[k] != '\n'
  }

  lemma {:induction false} EncodeNoCr(s: string)
    requires NoCrText(s)
    ensures NoCr(Utf8.Encode(s))
  {
    if s != [] {
      EncodeNoCr(s[1..]);
      var g := Utf8.EncodeChar(s[0]);
      assert NoCr(g) by { if s[0] as int < 0x80 { assert g == [s[0] as int]; } }
    }
  }

  lemma {:induction false} EscapeNoCr(s: string)
    requires !HasControl(s)
    ensures NoCrText(EscapeQuoted(s))
  {
    if s != [] {
      assert forall k :: 0 <= k < |s[1..]| ==> s[1..][k] == s[k + 1];
      EscapeNoCr(s[1..]);
      assert !IsControl(s[0]);
    }
  }

  /** The disposition line of a part. */
  function DispositionText(p: Part): string {
    match p
    case Field(name, _) => NAME_PREFIX + EscapeQuoted(name) + "\""
    case File(fieldName, filename, _, _) =>
      NAME_PREFIX + EscapeQuoted(fieldName) + "\"" + (FILENAME_PREFIX + EscapeQuoted(filename) + "\"")
  }

  /** The header lines behind it, each led by a line end. */
  function OtherLines(p: Part): seq<byte> {
    if p.Field? then [] else CRLF + Utf8.Encode("Content-Type: " + p.contentType)
  }

  lemma EncodeLineEnds()
    ensures Utf8.Encode("\r\n") == CRLF && Utf8.Encode("\r\n\r\n") == BLANK_LINE
  {
    Utf8.EncodeAscii("\r\n");
    Utf8.EncodeAscii("\r\n\r\n");
  }

  /** A header block is the disposition line, the other lines, a blank line. */
  lemma HeadLines(p: Part)
    ensures Head(p) == Utf8.Encode(DispositionText(p)) + OtherLines(p) + BLANK_LINE
  {
    hide Utf8.Encode, EscapeQuoted;
    EncodeLineEnds();
    var l := DispositionText(p);
    match p
    case Field(name, _) =>
      var t := "Content-Disposition: form-data; name=\"" + EscapeQuoted(name) + "\"";
      assert t + "\r\n\r\n" == "Content-Disposition: form-data; name=\"" + EscapeQuoted(name) + "\"\r\n\r\n" by {
        assert "\"" + "\r\n\r\n" == "\"\r\n\r\n";
      }
      Utf8.EncodeConcat(t, "\r\n\r\n");
    case File(f, n, ct, _) =>
      var a := "Content-Disposition: form-data; name=\"" + EscapeQuoted(f) + "\"; filename=\"" + EscapeQuoted(n) + "\"\r\n";
      FileLine(EscapeQuoted(f), EscapeQuoted(n));
      assert a == l + "\r\n";
      Utf8.EncodeConcat(l, "\r\n");
      Utf8.EncodeConcat("Content-Type: " + ct, "\r\n\r\n");
      Regroup(Utf8.Encode(l), CRLF, Utf8.Encode("Content-Type: " + ct), BLANK_LINE, [], []);
  }

  lemma FileLine(f: string, n: string)
    ensures "Content-Disposition: form-data; name=\"" + f + "\"; filename=\"" + n + "\"\r\n"
         == NAME_PREFIX + f + "\"" + (FILENAME_PREFIX + n + "\"") + "\r\n"
  {
    assert "\"" + FILENAME_PREFIX == "\"; filename=\"";
    assert "\"" + "\r\n" == "\"\r\n";
    assert NAME_PREFIX + f + "\"; filename=\"" == NAME_PREFIX + f + "\"" + FILENAME_PREFIX;
  }

  /** The content type has no line end. The encoder never checks it. */
  predicate ContentTypeSafe(p: Part) {
    p.File? ==> NoCrText(p.contentType)
  }

  /** The header block holds no blank line before the one that ends it. */
  predicate BlankOnlyAtEnd(p: Part) {
    forall q: nat :: q + 4 < |Head(p)| ==> !At(Head(p), q, BLANK_LINE)
  }

  /** The header block and the line end before it hold no delimiter. */
  predicate HeadClear(p: Part, boundary: string) {
    !Occurs(CRLF + Head(p), Delimiter(boundary))
  }

  lemma DispositionNoCr(p: Part)
    requires HeaderAllowed(p)
    ensures NoCr(Utf8.Encode(DispositionText(p)))
    ensures Utf8.Encode(DispositionText(p)) != [] && Utf8.Encode(DispositionText(p))[0] == 0x43
  {
    hide EscapeQuoted;
    assert NoCrText(NAME_PREFIX) && NoCrText(FILENAME_PREFIX) && NoCrText("\"");
    match p {
      case Field(name, _) =>
        assert HeaderValues(p)[0] == name;
        EscapeNoCr(name);
      case File(f, n, _, _) =>
        assert HeaderValues(p)[0] == f && HeaderValues(p)[1] == n;
        EscapeNoCr(f);
        EscapeNoCr(n);
    }
    EncodeNoCr(DispositionText(p));
    var t := DispositionText(p);
    assert t[0] == 'C';
    assert Utf8.EncodeChar(t[0]) == [0x43];
  }

  lemma OtherLinesShape(p: Part)
    requires ContentTypeSafe(p)
    ensures p.File? ==> |OtherLines(p)| > 2 && OtherLines(p)[..2] == CRLF && NoCr(OtherLines(p)[2..]) && OtherLines(p)[2] == 0x43
  {
    if p.File? {
      var t := "Content-Type: " + p.contentType;
      EncodeNoCr(t);
      assert t[0] == 'C';
      assert OtherLines(p)[2..] == Utf8.Encode(t);
    }
  }

  // ----- reading one content

  lemma {:induction false} ReadQuotedRun(l: seq<byte>, i: nat, out: seq<byte>, k: nat)
    requires i + k <= |l|
    requires forall n :: i <= n < i + k ==> l[n] != QUOTE && l[n] != BACKSLASH
    ensures ReadQuoted(l, i, out) == ReadQuoted(l, i + k, out + l[i..i + k])
    decreases k
  {
    if k == 0 {
      assert out + l[i..i] == out;
    } else {
      ReadQuotedRun(l, i + 1, out + [l[i]], k - 1);
      assert l[i..i + k] == [l[i]] + l[i + 1..i + k];
      Regroup(out, [l[i]], l[i + 1..i + k], [], [], []);
    }
  }

  function EscapedChar(c: char): string {
    if c == '\\' || c == '"' then ['\\', c] else [c]
  }

  lemma EscapedBytes(c: char, rest: string)
    ensures Utf8.Encode(EscapeQuoted([c] + rest)) == Utf8.Encode(EscapedChar(c)) + Utf8.Encode(EscapeQuoted(rest))
    ensures Utf8.Encode([c] + rest) == Utf8.EncodeChar(c) + Utf8.Encode(rest)
  {
    hide Utf8.EncodeChar;
    assert ([c] + rest)[1..] == rest;
    Utf8.EncodeConcat(EscapedChar(c), EscapeQuoted(rest));
    Utf8.EncodeCons(c, rest);
  }

  lemma ReadQuotedChar(l: seq<byte>, i: nat, out: seq<byte>, c: char)
    requires At(l, i, Utf8.Encode(EscapedChar(c)))
    ensures ReadQuoted(l, i, out) == ReadQuoted(l, i + |Utf8.Encode(EscapedChar(c))|, out + Utf8.EncodeChar(c))
  {
    if c == '\\' || c == '"' {
      var e := ['\\', c];
      Utf8.EncodeAscii(e);
      AtIndex(l, i, Utf8.Encode(e), 0);
      AtIndex(l, i, Utf8.Encode(e), 1);
    } else {
      Utf8.EncodeOne(c);
      var g := Utf8.EncodeChar(c);
      forall n | i <= n < i + |g| ensures l[n] != QUOTE && l[n] != BACKSLASH {
        AtIndex(l, i, g, n - i);
      }
      ReadQuotedRun(l, i, out, |g|);
    }
  }

  /** Unescaping undoes `EscapeQuoted`, byte for byte. */
  lemma {:induction false} ReadQuotedEscaped(l: seq<byte>, i: nat, out: seq<byte>, v: string)
    requires At(l, i, Utf8.Encode(EscapeQuoted(v)) + [QUOTE])
    ensures ReadQuoted(l, i, out) == Some((out + Utf8.Encode(v), i + |Utf8.Encode(EscapeQuoted(v))| + 1))
    decreases v
  {
    hide Utf8.Encode, Utf8.EncodeChar, EscapeQuoted, ReadQuoted;
    if v == [] {
      ReadQuotedClose(l, i, out);
    } else {
      var c, rest := v[0], v[1..];
      assert v == [c] + rest;
      EscapedBytes(c, rest);
      var e, tail := Utf8.Encode(EscapedChar(c)), Utf8.Encode(EscapeQuoted(rest));
      Regroup(e, tail, [QUOTE], [], [], []);
      AtSplit(l, i, e, tail + [QUOTE]);
      ReadQuotedChar(l, i, out, c);
      ReadQuotedEscaped(l, i + |e|, out + Utf8.EncodeChar(c), rest);
      Regroup(out, Utf8.EncodeChar(c), Utf8.Encode(rest), [], [], []);
    }
  }

  lemma ReadQuotedClose(l: seq<byte>, i: nat, out: seq<byte>)
    requires At(l, i, Utf8.Encode(EscapeQuoted("")) + [QUOTE])
    ensures ReadQuoted(l, i, out) == Some((out + Utf8.Encode(""), i + |Utf8.Encode(EscapeQuoted(""))| + 1))
  {
    assert [] + [QUOTE] == [QUOTE];
    AtIndex(l, i, [QUOTE], 0);
    assert out + [] == out;
  }

  lemma EncodeQuote(t: string)
    ensures Utf8.Encode(t + "\"") == Utf8.Encode(t) + [QUOTE]
  {
    Utf8.EncodeConcat(t, "\"");
    Utf8.EncodeAscii("\"");
  }

  /** A prefix and a quoted string behind it are read as the string's own text. */
  lemma QuotedRead(l: seq<byte>, i: nat, prefix: string, v: string)
    requires At(l, i, Utf8.Encode(prefix + EscapeQuoted(v) + "\""))
    ensures At(l, i, Utf8.Encode(prefix))
    ensures ReadQuoted(l, i + |Utf8.Encode(prefix)|, []) == Some((Utf8.Encode(v), i + |Utf8.Encode(prefix + EscapeQuoted(v) + "\"")|))
  {
    hide Utf8.Encode, ReadQuoted, EscapeQuoted, At;
    var a, b := Utf8.Encode(prefix), Utf8.Encode(EscapeQuoted(v));
    EncodeQuote(prefix + EscapeQuoted(v));
    Utf8.EncodeConcat(prefix, EscapeQuoted(v));
    Regroup(a, b, [QUOTE], [], [], []);
    AtSplit(l, i, a, b + [QUOTE]);
    ReadQuotedEscaped(l, i + |a|, [], v);
    assert [] + Utf8.Encode(v) == Utf8.Encode(v);
  }

  /** A disposition line gives back the name and the filename. */
  lemma DispositionRead(p: Part)
    ensures ReadDisposition(Utf8.Encode(DispositionText(p))) == Some((Expected(p).name, Expected(p).filename))
  {
    hide Utf8.Encode, ReadQuoted, EscapeQuoted, At;
    var name := if p.Field? then p.name else p.fieldName;
    var l, first := Utf8.Encode(DispositionText(p)), NAME_PREFIX + EscapeQuoted(name) + "\"";
    WholeAt(l);
    if p.File? {
      var second := FILENAME_PREFIX + EscapeQuoted(p.filename) + "\"";
      Utf8.EncodeConcat(first, second);
      EncodeQuote(FILENAME_PREFIX + EscapeQuoted(p.filename));
      AtSplit(l, 0, Utf8.Encode(first), Utf8.Encode(second));
      QuotedRead(l, |Utf8.Encode(first)|, FILENAME_PREFIX, p.filename);
    }
    QuotedRead(l, 0, NAME_PREFIX, name);
  }

  lemma WholeAt(l: seq<byte>)
    ensures At(l, 0, l)
  {
  }

  lemma NotAt(m: seq<byte>, q: nat, d: seq<byte>, k: nat)
    requires k < |d| && (q + k < |m| ==> m[q + k] != d[k])
    ensures !At(m, q, d)
  {
    if At(m, q, d) { AtIndex(m, q, d, k); }
  }

  /** In a header block the first blank line is the last four bytes, and the first line
      end follows the disposition line. */
  lemma BlankLineOfHead(l: seq<byte>, others: seq<byte>, body: seq<byte>)
    requires NoCr(l)
    requires others == [] || (|others| > 2 && others[..2] == CRLF && NoCr(others[2..]))
    ensures FirstAt(l + others + BLANK_LINE + body, 0, BLANK_LINE) == Some(|l + others|)
    ensures (l + others + BLANK_LINE + body)[..|l + others|] == l + others
    ensures (l + others + BLANK_LINE + body)[|l + others| + 4..] == body
    ensures FirstAt(l + others, 0, CRLF) == if others == [] then None else Some(|l|)
  {
    var c := l + others + BLANK_LINE + body;
    var h := l + others;
    assert c[|h|..|h| + 4] == BLANK_LINE;
    assert c[..|h|] == h;
    assert forall k :: 0 <= k < |l| ==> c[k] == l[k];
    forall q | 0 <= q < |h| ensures !At(c, q, BLANK_LINE) {
      assert c[q] == h[q];
      if q < |l| {
        NotAt(c, q, BLANK_LINE, 0);
      } else if q == |l| {
        assert c[q + 2] == h[q + 2] == others[2..][0];
        NotAt(c, q, BLANK_LINE, 2);
      } else if q == |l| + 1 {
        assert h[q] == others[..2][1];
        NotAt(c, q, BLANK_LINE, 0);
      } else {
        assert h[q] == others[2..][q - |l| - 2];
        NotAt(c, q, BLANK_LINE, 0);
      }
    }
    FirstAtIs(c, 0, BLANK_LINE, |h|);
    forall q | 0 <= q < |l| ensures !At(h, q, CRLF) {
      NotAt(h, q, CRLF, 0);
    }
    if others == [] {
      assert h == l;
      forall q | |l| <= q <= |h| ensures !At(h, q, CRLF) { NotAt(h, q, CRLF, 0); }
    } else {
      assert h[|l|..|l| + 2] == CRLF;
      FirstAtIs(h, 0, CRLF, |l|);
    }
  }

  /** With the first blank line at its end, a head gives its lines and its body. */
  lemma ContentSplit(l: seq<byte>, others: seq<byte>, body: seq<byte>)
    requires NoCr(l) && (others == [] || CRLF <= others)
    requires forall q: nat :: q < |l + others| ==> !At(l + others + BLANK_LINE, q, BLANK_LINE)
    ensures var c := l + others + BLANK_LINE + body; var h := l + others;
      && FirstAt(c, 0, BLANK_LINE) == Some(|h|) && c[..|h|] == h && c[|h| + 4..] == body
      && FirstAt(h, 0, CRLF) == if others == [] then None else Some(|l|)
  {
    var h := l + others;
    var c := h + BLANK_LINE + body;
    assert c[|h|..|h| + 4] == BLANK_LINE;
    forall q | 0 <= q < |h| ensures !At(c, q, BLANK_LINE) {
      assert !At(h + BLANK_LINE, q, BLANK_LINE);
      assert c[q..q + 4] == (h + BLANK_LINE)[q..q + 4];
    }
    FirstAtIs(c, 0, BLANK_LINE, |h|);
    FirstLineEnd(l, others);
  }

  lemma FirstLineEnd(l: seq<byte>, others: seq<byte>)
    requires NoCr(l) && (others == [] || CRLF <= others)
    ensures FirstAt(l + others, 0, CRLF) == if others == [] then None else Some(|l|)
  {
    var h := l + others;
    forall q | 0 <= q < |l| ensures !At(h, q, CRLF) {
      assert h[q] == l[q];
      NotAt(h, q, CRLF, 0);
    }
    if others == [] {
      assert h == l;
      forall q | |l| <= q <= |h| ensures !At(h, q, CRLF) { NotAt(h, q, CRLF, 0); }
    } else {
      assert h[|l|..|l| + 2] == CRLF;
      FirstAtIs(h, 0, CRLF, |l|);
    }
  }

  /** An earlier blank line gives the receiver a longer body. */
  lemma EarlyBlank(h: seq<byte>, body: seq<byte>, q: nat)
    requires q + 4 < |h| && At(h, q, BLANK_LINE)
    ensures ReadContent(h + body).Some? ==> |ReadContent(h + body).value.body| > |body|
  {
    hide ReadDisposition;
    var c := h + body;
    assert c[q..q + 4] == h[q..q + 4];
    assert At(c, q, BLANK_LINE);
  }

  lemma OthersLead(p: Part)
    ensures OtherLines(p) == [] || CRLF <= OtherLines(p)
  {
    hide Utf8.Encode;
  }

  /** The receiver reads a part's content as that part exactly when the header block holds
      no earlier blank line. */
  lemma ContentRead(p: Part)
    requires HeaderAllowed(p)
    ensures ReadContent(Head(p) + Body(p)) == Some(Expected(p)) <==> BlankOnlyAtEnd(p)
  {
    hide Utf8.Encode, FirstAt, ReadDisposition, HeaderAllowed, DispositionText, Head, OtherLines, At;
    HeadLines(p);
    DispositionNoCr(p);
    OthersLead(p);
    var l, others := Utf8.Encode(DispositionText(p)), OtherLines(p);
    if BlankOnlyAtEnd(p) {
      ContentSplit(l, others, Body(p));
      DispositionRead(p);
      assert (l + others)[..|l|] == l;
      assert others == [] ==> l + others == l;
    } else {
      var q: nat :| q + 4 < |Head(p)| && At(Head(p), q, BLANK_LINE);
      EarlyBlank(Head(p), Body(p), q);
      assert Expected(p).body == Body(p);
    }
  }

  // ----- the emitted delimiter is the first one

  /** What follows the first dash-boundary of a message. */
  function After(parts: seq<Part>, boundary: string): seq<byte> {
    if parts == [] then DASHES + CRLF
    else CRLF + Head(parts[0]) + Body(parts[0]) + Delimiter(boundary) + After(parts[1..], boundary)
  }

  lemma {:induction false} MessageAfter(parts: seq<Part>, boundary: string)
    ensures Message(parts, boundary) == DashBoundary(boundary) + After(parts, boundary)
  {
    hide Utf8.Encode, Head, Body;
    DashText(boundary);
    var b := DashBoundary(boundary);
    if parts != [] {
      MessageAfter(parts[1..], boundary);
      var h, y, rest := Head(parts[0]), Body(parts[0]), After(parts[1..], boundary);
      Regroup(b + CRLF + h + y, CRLF, b, [], [], []);
      Regroup(b + CRLF + h + y, CRLF + b, rest, [], [], []);
      Regroup(b + CRLF + h + y + CRLF, b, rest, [], [], []);
      Regroup(b, CRLF, h, y, CRLF + b, rest);
    }
  }

  lemma DashText(boundary: string)
    ensures Utf8.Encode("--" + boundary + "\r\n") == DashBoundary(boundary) + CRLF
    ensures Utf8.Encode("--" + boundary + "--\r\n") == DashBoundary(boundary) + (DASHES + CRLF)
  {
    hide Utf8.Encode;
    Utf8.EncodeConcat("--", boundary);
    Utf8.EncodeConcat("--" + boundary, "\r\n");
    Utf8.EncodeConcat("--" + boundary, "--\r\n");
    EncodeDashes();
    EncodeLineEnds();
  }

  lemma EncodeDashes()
    ensures Utf8.Encode("--") == DASHES && Utf8.Encode("--\r\n") == DASHES + CRLF
  {
    Utf8.EncodeAscii("--");
    Utf8.EncodeAscii("--\r\n");
    assert Utf8.Codes("--\r\n") == DASHES + CRLF;
  }

  /** A valid boundary has no carriage return, so the delimiter cannot overlap itself. */
  lemma BoundaryNoCr(boundary: string)
    requires ValidBoundary(boundary)
    ensures NoCr(DashBoundary(boundary))
    ensures var d := Delimiter(boundary); d[0] == CR && d[2] == DASH && forall k :: 0 < k < |d| ==> d[k] != CR
  {
    hide Utf8.Encode;
    var b := DashBoundary(boundary);
    forall k | 0 <= k < |b| ensures b[k] != CR {
      if k >= 2 { assert b[k] == Utf8.Encode(boundary)[k - 2]; }
    }
  }

  /** Carriage returns of a head with its leading line end are never followed, two
      bytes on, by a dash. */
  lemma HeadSafe(p: Part)
    requires HeaderAllowed(p) && ContentTypeSafe(p)
    ensures var x := CRLF + Head(p);
      && |x| >= 4 && x[|x| - 1] == LF
      && forall q :: 0 <= q && q + 2 < |x| && x[q] == CR ==> x[q + 2] != DASH
  {
    hide Utf8.Encode, HeaderAllowed, DispositionText, Head;
    HeadLines(p);
    DispositionNoCr(p);
    OtherLinesShape(p);
    HeadSafeBytes(Utf8.Encode(DispositionText(p)), OtherLines(p));
  }

  lemma HeadSafeBytes(l: seq<byte>, others: seq<byte>)
    requires NoCr(l) && l != [] && l[0] == 0x43
    requires others == [] || (|others| > 2 && others[..2] == CRLF && NoCr(others[2..]) && others[2] == 0x43)
    ensures var x := CRLF + (l + others + BLANK_LINE);
      && |x| >= 4 && x[|x| - 1] == LF
      && forall q :: 0 <= q && q + 2 < |x| && x[q] == CR ==> x[q + 2] != DASH
  {
    var x := CRLF + (l + others + BLANK_LINE);
    var e := 2 + |l|;
    var f := e + |others|;
    assert x[f..] == BLANK_LINE;
    forall q | 0 <= q && q + 2 < |x| ensures x[q] == CR ==> x[q + 2] != DASH {
      if q == 0 {
        assert x[2] == l[0];
      } else if q < e {
        assert q == 1 || x[q] == l[q - 2];
      } else if q < f {
        assert x[q] == others[q - e];
        assert q == e ==> x[q + 2] == others[2];
        assert q == e + 1 ==> others[q - e] == others[..2][1];
        assert q >= e + 2 ==> others[q - e] == others[2..][q - e - 2];
      } else {
        assert x[q] == x[f..][q - f] && x[q + 2] == x[f..][q + 2 - f];
      }
    }
  }

  /** A content type without line ends keeps the header block clear. */
  lemma SafeTypeIsClear(p: Part, boundary: string)
    requires ValidBoundary(boundary) && HeaderAllowed(p) && ContentTypeSafe(p)
    ensures BlankOnlyAtEnd(p) && HeadClear(p, boundary)
  {
    hide Utf8.Encode, HeaderAllowed, DispositionText, Head, OtherLines, ValidBoundary, FirstAt, At;
    HeadLines(p);
    DispositionNoCr(p);
    OtherLinesShape(p);
    var l, others := Utf8.Encode(DispositionText(p)), OtherLines(p);
    assert OtherLines(p) == [] || p.File? by { OthersOfField(p); }
    BlankLineOfHead(l, others, []);
    assert l + others + BLANK_LINE + [] == Head(p);
    HeadSafe(p);
    BoundaryNoCr(boundary);
    var x, d := CRLF + Head(p), Delimiter(boundary);
    forall q: nat | 0 <= q <= |x| ensures !At(x, q, d) {
      if At(x, q, d) {
        AtIndex(x, q, d, 0);
        AtIndex(x, q, d, 2);
        AtFits(x, q, d);
      }
    }
  }

  lemma InHeadOnly(x: seq<byte>, d: seq<byte>, q: nat)
    requires !Occurs(x, d) && q + |d| <= |x|
    ensures !At(x, q, d)
  {
  }

  lemma OthersOfField(p: Part)
    ensures p.Field? ==> OtherLines(p) == []
  {
  }

  lemma AtFits(s: seq<byte>, i: nat, p: seq<byte>)
    requires At(s, i, p)
    ensures i + |p| <= |s|
  {
  }

  lemma HeadEnds(p: Part)
    ensures var x := CRLF + Head(p); |x| >= 4 && x[|x| - 2] == CR && x[|x| - 1] == LF
  {
    hide Utf8.Encode, DispositionText, Head, OtherLines;
    HeadLines(p);
  }

  /** A delimiter that runs over the end of a head would hold the head's last line end. */
  lemma NotAcross(w: seq<byte>, x: seq<byte>, d: seq<byte>, q: nat)
    requires q + 2 < |x| < q + |d| && |x| <= |w| && w[|x| - 2] == CR && forall k :: 1 <= k < |d| ==> d[k] != CR
    ensures !At(w, q, d)
  {
    NotAt(w, q, d, |x| - 2 - q);
  }

  /** No delimiter begins before the end of the body. */
  lemma NoEarlierDelimiter(x: seq<byte>, body: seq<byte>, boundary: string, tail: seq<byte>, q: nat)
    requires ValidBoundary(boundary) && !Collides(body, boundary)
    requires |x| >= 4 && x[|x| - 2] == CR && x[|x| - 1] == LF
    requires !Occurs(x, Delimiter(boundary))
    requires q < |x| + |body|
    ensures !At(x + body + Delimiter(boundary) + tail, q, Delimiter(boundary))
  {
    hide Utf8.Encode, ValidBoundary;
    BoundaryNoCr(boundary);
    var d, bare := Delimiter(boundary), DashBoundary(boundary);
    var w := x + body + d + tail;
    var e := |x| + |body|;
    assert forall k :: 0 <= k < |x| ==> w[k] == x[k];
    assert w[|x|..e] == body && w[e..e + |d|] == d;
    assert w[e] == w[e..e + |d|][0];
    if q + |d| <= |x| {
      InHeadOnly(x, d, q);
      assert x[q..q + |d|] == w[q..q + |d|];
    } else if q + 2 < |x| {
      NotAcross(w, x, d, q);
    } else if q + 1 == |x| {
      NotAt(w, q, d, 0);
    } else if At(w, q, d) {
      if q + 2 == |x| {
        AtSplit(w, q, CRLF, bare);
        SeamCollision(w, |x|, body, bare);
      } else {
        InsideCollision(w, |x|, body, d, q);
      }
    }
  }

  /** A dash-boundary at the start of a body lies inside it. */
  lemma SeamCollision(w: seq<byte>, b: nat, body: seq<byte>, bare: seq<byte>)
    requires At(w, b, body) && At(w, b, bare) && NoCr(bare)
    requires b + |body| < |w| && w[b + |body|] == CR
    ensures At(body, 0, bare)
  {
    if |body| < |bare| { AtIndex(w, b, bare, |body|); }
    assert w[b..b + |body|] == body && w[b..b + |bare|] == bare;
    assert body[0..|bare|] == w[b..b + |body|][0..|bare|];
  }

  /** A delimiter that begins inside a body ends inside it. */
  lemma InsideCollision(w: seq<byte>, b: nat, body: seq<byte>, d: seq<byte>, q: nat)
    requires At(w, b, body) && At(w, q, d) && b <= q < b + |body|
    requires forall k :: 0 < k < |d| ==> d[k] != CR
    requires b + |body| < |w| && w[b + |body|] == CR
    ensures Occurs(body, d)
  {
    var e := b + |body|;
    if e < q + |d| { AtIndex(w, q, d, e - q); }
    assert body == w[b..e] && d == w[q..q + |d|];
    SliceOfSlice(w, b, e, q - b, q - b + |d|);
    assert At(body, q - b, d);
  }

  /** From a part's leading line end the first delimiter is the emitted one exactly when
      the header block holds none. */
  lemma FirstDelimiter(p: Part, boundary: string, tail: seq<byte>)
    requires ValidBoundary(boundary) && !PartCollides(p, boundary)
    ensures var w := CRLF + Head(p) + Body(p) + Delimiter(boundary) + tail;
      FirstAt(w, 0, Delimiter(boundary)) == Some(2 + |Head(p)| + |Body(p)|) <==> HeadClear(p, boundary)
  {
    hide Utf8.Encode, Head, FirstAt, ValidBoundary, Delimiter;
    HeadEnds(p);
    assert CollisionSpans(p)[0] == Body(p);
    var x := CRLF + Head(p);
    var d := Delimiter(boundary);
    var w := x + Body(p) + d + tail;
    var e := |x| + |Body(p)|;
    assert w[e..e + |d|] == d;
    if HeadClear(p, boundary) {
      forall q | 0 <= q < e ensures !At(w, q, d) {
        NoEarlierDelimiter(x, Body(p), boundary, tail, q);
      }
      FirstAtIs(w, 0, d, e);
    } else {
      var q :| 0 <= q <= |x| && At(x, q, d);
      assert w[q..q + |d|] == x[q..q + |d|];
      assert At(w, q, d) && q < e;
    }
  }

  // ----- the whole message

  lemma AtShift(m: seq<byte>, i: nat, w: seq<byte>, q: nat, d: seq<byte>)
    requires i <= |m| && m[i..] == w
    ensures At(m, i + q, d) <==> At(w, q, d)
  {
    if q + |d| <= |w| {
      SliceOfSlice(m, i, |m|, q, q + |d|);
    }
  }

  lemma FirstAtShift(m: seq<byte>, i: nat, w: seq<byte>, d: seq<byte>, p: nat)
    requires d != [] && i <= |m| && m[i..] == w && FirstAt(w, 0, d) == Some(p)
    ensures FirstAt(m, i, d) == Some(i + p)
  {
    hide At, FirstAt;
    AtShift(m, i, w, p, d);
    forall q | i <= q < i + p ensures !At(m, q, d) {
      AtShift(m, i, w, q - i, d);
    }
    FirstAtIs(m, i, d, i + p);
  }

  predicate AllSafe(parts: seq<Part>, boundary: string) {
    forall k :: 0 <= k < |parts| ==>
      HeaderAllowed(parts[k]) && HeadClear(parts[k], boundary) && !PartCollides(parts[k], boundary)
  }

  function PartContents(parts: seq<Part>): seq<seq<byte>> {
    if parts == [] then [] else [Head(parts[0]) + Body(parts[0])] + PartContents(parts[1..])
  }

  /** One part behind a delimiter: its content, and on behind its own delimiter. */
  lemma ContentsStep(m: seq<byte>, i: nat, p: Part, boundary: string, tail: seq<byte>)
    requires ValidBoundary(boundary) && HeadClear(p, boundary) && !PartCollides(p, boundary)
    requires i <= |m| && m[i..] == CRLF + Head(p) + Body(p) + Delimiter(boundary) + tail
    ensures var d := Delimiter(boundary); var next := i + 2 + |Head(p)| + |Body(p)| + |d|;
      && next <= |m| && m[next..] == tail
      && Contents(m, i, d) == match Contents(m, next, d) case None => None case Some(rest) => Some([Head(p) + Body(p)] + rest)
  {
    hide Utf8.Encode, Head, Body, FirstAt, ValidBoundary, HeadClear, PartCollides, Delimiter, At, SkipPadding;
    var d, h, y := Delimiter(boundary), Head(p), Body(p);
    var w := CRLF + h + y + d + tail;
    FirstDelimiter(p, boundary, tail);
    FirstAtShift(m, i, w, d, 2 + |h| + |y|);
    assert w == CRLF + (h + y + d + tail);
    LineEndNext(m, i, w, h + y + d + tail);
    BehindDelimiter(m, i, h, y, d, tail);
  }

  /** Splitting behind a dash-boundary gives the contents of the parts. */
  lemma {:induction false} ContentsRead(m: seq<byte>, i: nat, parts: seq<Part>, boundary: string)
    requires ValidBoundary(boundary) && AllSafe(parts, boundary)
    requires i <= |m| && m[i..] == After(parts, boundary)
    ensures Contents(m, i, Delimiter(boundary)) == Some(PartContents(parts))
    decreases |parts|
  {
    hide Utf8.Encode, Head, Body, FirstAt, ValidBoundary, HeaderAllowed, HeadClear, PartCollides, Delimiter, At;
    var d := Delimiter(boundary);
    if parts == [] {
      AtShift(m, i, DASHES + CRLF, 0, DASHES);
      PrefixAt(DASHES, CRLF);
    } else {
      hide Contents;
      var p := parts[0];
      ContentsStep(m, i, p, boundary, After(parts[1..], boundary));
      assert AllSafe(parts[1..], boundary);
      ContentsRead(m, i + 2 + |Head(p)| + |Body(p)| + |d|, parts[1..], boundary);
    }
  }

  lemma PrefixAt(a: seq<byte>, b: seq<byte>)
    ensures At(a + b, 0, a)
  {
  }

  lemma LineEndNext(m: seq<byte>, i: nat, w: seq<byte>, rest: seq<byte>)
    requires i <= |m| && m[i..] == w && w == CRLF + rest
    ensures !At(m, i, DASHES) && At(m, i, CRLF) && SkipPadding(m, i) == i
  {
    AtShift(m, i, w, 0, DASHES);
    AtShift(m, i, w, 0, CRLF);
    PrefixAt(CRLF, rest);
    assert m[i] == w[0] == CR;
    NotAt(w, 0, DASHES, 0);
  }

  lemma BehindDelimiter(m: seq<byte>, i: nat, h: seq<byte>, y: seq<byte>, d: seq<byte>, tail: seq<byte>)
    requires i <= |m| && m[i..] == CRLF + h + y + d + tail
    ensures var e := i + 2 + |h| + |y|;
      e + |d| <= |m| && m[i + 2..e] == h + y && m[e + |d|..] == tail
  {
    var w := CRLF + h + y + d + tail;
    var e := i + 2 + |h| + |y|;
    assert m[i..|m|] == w && w[..|w|] == w;
    SliceOfSlice(m, i, |m|, 2, 2 + |h| + |y|);
    SliceOfSlice(m, i, |m|, 2 + |h| + |y| + |d|, |w|);
    assert w[2..2 + |h| + |y|] == h + y && w[2 + |h| + |y| + |d|..|w|] == tail;
    assert m[e + |d|..] == m[e + |d|..|m|];
  }

  lemma SameHeadAndTail(a: Received, x: seq<Received>, b: Received, y: seq<Received>)
    requires [a] + x == [b] + y
    ensures a == b && x == y
  {
    assert ([a] + x)[0] == a && ([b] + y)[0] == b;
    assert ([a] + x)[1..] == x && ([b] + y)[1..] == y;
  }

  predicate BlanksAtEnds(parts: seq<Part>) {
    forall k :: 0 <= k < |parts| ==> BlankOnlyAtEnd(parts[k])
  }

  lemma {:induction false} ReadAllContents(parts: seq<Part>, boundary: string)
    requires AllSafe(parts, boundary)
    ensures ReadAll(PartContents(parts)) == Some(ExpectedAll(parts)) <==> BlanksAtEnds(parts)
  {
    hide ReadContent, Head, Body, HeaderAllowed, HeadClear, PartCollides, Expected, BlankOnlyAtEnd;
    if parts != [] {
      ContentRead(parts[0]);
      assert AllSafe(parts[1..], boundary);
      ReadAllContents(parts[1..], boundary);
      var c := PartContents(parts);
      assert c[1..] == PartContents(parts[1..]);
      if ReadAll(c) == Some(ExpectedAll(parts)) {
        SameHeadAndTail(ReadContent(c[0]).value, ReadAll(c[1..]).value, Expected(parts[0]), ExpectedAll(parts[1..]));
      }
      assert BlanksAtEnds(parts) <==> BlankOnlyAtEnd(parts[0]) && BlanksAtEnds(parts[1..]) by {
        assert forall k :: 1 <= k < |parts| ==> parts[k] == parts[1..][k - 1];
      }
    }
  }

  lemma {:induction false} NoErrorMeansSafe(parts: seq<Part>, boundary: string, i: nat)
    requires i <= |parts|
    ensures FirstError(parts, boundary, i).None? <==>
              forall k :: i <= k < |parts| ==> HeaderAllowed(parts[k]) && !PartCollides(parts[k], boundary)
    decreases |parts| - i
  {
    if i < |parts| { NoErrorMeansSafe(parts, boundary, i + 1); }
  }

  /** The multipart round trip: whatever parts and boundary the encoder accepts, as long as
      no header block holds the delimiter, the receiver recovers exactly their names,
      filenames and bodies, in order, if and only if no header block holds a blank line
      before its end. */
  lemma ReceiverRecovers(parts: seq<Part>, boundary: string)
    requires Serialize(parts, boundary).Ok?
    requires forall k :: 0 <= k < |parts| ==> HeadClear(parts[k], boundary)
    ensures Receive(Serialize(parts, boundary).value.1, boundary) == Some(ExpectedAll(parts)) <==> BlanksAtEnds(parts)
  {
    hide Receive, Message, ValidBoundary, HeaderAllowed, HeadClear, BlanksAtEnds, PartCollides, ExpectedAll;
    NoErrorMeansSafe(parts, boundary, 0);
    MessageReceived(parts, boundary);
  }

  /** So content types without line ends are enough. */
  lemma SafeTypesRecover(parts: seq<Part>, boundary: string)
    requires Serialize(parts, boundary).Ok?
    requires forall k :: 0 <= k < |parts| ==> ContentTypeSafe(parts[k])
    ensures Receive(Serialize(parts, boundary).value.1, boundary) == Some(ExpectedAll(parts))
  {
    hide Receive, Message, ValidBoundary, HeaderAllowed, HeadClear, ContentTypeSafe, PartCollides, ExpectedAll, BlankOnlyAtEnd;
    NoErrorMeansSafe(parts, boundary, 0);
    forall k | 0 <= k < |parts| ensures BlankOnlyAtEnd(parts[k]) && HeadClear(parts[k], boundary) {
      SafeTypeIsClear(parts[k], boundary);
    }
    ReceiverRecovers(parts, boundary);
  }

  lemma MessageReceived(parts: seq<Part>, boundary: string)
    requires ValidBoundary(boundary) && AllSafe(parts, boundary)
    ensures Receive(Message(parts, boundary), boundary) == Some(ExpectedAll(parts)) <==> BlanksAtEnds(parts)
  {
    hide Utf8.Encode, Contents, ReadAll, Message, ValidBoundary, AllSafe, DashBoundary, At, FirstAt, After, ExpectedAll, Delimiter, PartContents, BlanksAtEnds;
    var m := Message(parts, boundary);
    MessageAfter(parts, boundary);
    var b, after := DashBoundary(boundary), After(parts, boundary);
    PrefixAt(b, after);
    assert (b + after)[|b|..] == after;
    ContentsRead(m, |b|, parts, boundary);
    ReadAllContents(parts, boundary);
  }

  lemma {:induction false} ExpectedAt(parts: seq<Part>, k: nat)
    requires k < |parts|
    ensures |ExpectedAll(parts)| == |parts| && ExpectedAll(parts)[k] == Expected(parts[k])
    decreases k
  {
    ExpectedLength(parts);
    if k > 0 { ExpectedAt(parts[1..], k - 1); }
  }

  lemma {:induction false} ExpectedLength(parts: seq<Part>)
    ensures |ExpectedAll(parts)| == |parts|
  {
    if parts != [] { ExpectedLength(parts[1..]); }
  }

  /** Two part lists that serialize to the same bytes agree on every name, filename and
      body, when each is recovered. */
  lemma SerializeInjective(a: seq<Part>, b: seq<Part>, boundary: string)
    requires Serialize(a, boundary).Ok? && Serialize(a, boundary) == Serialize(b, boundary)
    requires BlanksAtEnds(a) && forall k :: 0 <= k < |a| ==> HeadClear(a[k], boundary)
    requires BlanksAtEnds(b) && forall k :: 0 <= k < |b| ==> HeadClear(b[k], boundary)
    ensures |a| == |b| && forall k :: 0 <= k < |a| ==> Expected(a[k]) == Expected(b[k])
  {
    hide Serialize, Receive, HeadClear, BlanksAtEnds, Expected;
    ReceiverRecovers(a, boundary);
    ReceiverRecovers(b, boundary);
    ExpectedLength(a);
    ExpectedLength(b);
    forall k | 0 <= k < |a| ensures Expected(a[k]) == Expected(b[k]) {
      ExpectedAt(a, k);
      ExpectedAt(b, k);
    }
  }

  /** A content type that ends its own header block: the encoder accepts it, and the
      receiver takes the rest of the block for a part of the body. */
  lemma BlankLineIsTaken(name: string, bytes: seq<byte>)
    requires HeaderAllowed(Part.File(name, name, "a\r\n\r\nb", bytes))
    ensures !BlankOnlyAtEnd(Part.File(name, name, "a\r\n\r\nb", bytes))
  {
    hide Utf8.Encode, DispositionText, Head, HeaderAllowed;
    var p := Part.File(name, name, "a\r\n\r\nb", bytes);
    HeadLines(p);
    var l, t := Utf8.Encode(DispositionText(p)), "Content-Type: a\r\n\r\nb";
    assert "Content-Type: " + "a\r\n\r\nb" == t;
    Utf8.EncodeAscii(t);
    var q := |l| + 2 + 15;
    assert Utf8.Encode(t)[15..19] == BLANK_LINE;
    assert Head(p)[q..q + 4] == BLANK_LINE;
    assert At(Head(p), q, BLANK_LINE);
  }

  // ----- the boundary of the header

  const FORM_DATA: string := "multipart/form-data; boundary="

  /** A character of a token, section 5.1 of RFC 2045. */
  predicate IsTokenChar(c: char) {
    0x21 <= c as int <= 0x7E && c !in "()<>@,;:\\\"/[]?="
  }

  /** What a receiver takes from the header: the value of the boundary parameter, which
      must be a token when it stands without quotes. */
  function BoundaryParam(header: string): Option<string> {
    if !(FORM_DATA <= header) then None
    else
      var v := header[|FORM_DATA|..];
      if v != "" && forall k :: 0 <= k < |v| ==> IsTokenChar(v[k]) then Some(v) else None
  }

  function ReceiveMessage(header: string, m: seq<byte>): Option<seq<Received>> {
    match BoundaryParam(header)
    case None => None
    case Some(boundary) => Receive(m, boundary)
  }

  lemma NonemptyBoundary(boundary: string)
    requires ValidBoundary(boundary)
    ensures boundary != ""
  {
  }

  /** The header gives the boundary back exactly when it is a token: the encoder also
      accepts boundaries with a blank or a special, and never quotes them. */
  lemma HeaderRead(parts: seq<Part>, boundary: string)
    requires Serialize(parts, boundary).Ok?
    ensures var header := Serialize(parts, boundary).value.0;
      && header == "multipart/form-data; boundary=" + boundary
      && BoundaryParam(header) == if forall k :: 0 <= k < |boundary| ==> IsTokenChar(boundary[k]) then Some(boundary) else None
  {
    hide Message, ValidBoundary, IsTokenChar;
    NonemptyBoundary(boundary);
    assert (FORM_DATA + boundary)[|FORM_DATA|..] == boundary;
  }

  /** Header and body together: the receiver recovers the parts if and only if the
      boundary is a token and no header block holds a blank line before its end. */
  lemma MessageRecovered(parts: seq<Part>, boundary: string)
    requires Serialize(parts, boundary).Ok?
    requires forall k :: 0 <= k < |parts| ==> HeadClear(parts[k], boundary)
    ensures var (header, m) := Serialize(parts, boundary).value;
      ReceiveMessage(header, m) == Some(ExpectedAll(parts)) <==>
        (forall k :: 0 <= k < |boundary| ==> IsTokenChar(boundary[k])) && BlanksAtEnds(parts)
  {
    hide Serialize, Receive, HeadClear, BlanksAtEnds, ExpectedAll, IsTokenChar, BoundaryParam;
    HeaderRead(parts, boundary);
    ReceiverRecovers(parts, boundary);
  }
}
