/** What the client makes of any head at all, well-formed or not: which status, which
    framing, whether to close, and which error. */
module KeepAliveHeads {
  import opened Prelude
  import opened Text
  import opened Decimal
  import opened Numerals
  import opened KeepAlive
  import opened KeepAliveFraming
  import Utf8

  // ----- the status

  /** The second word of a line whose words are parted by single spaces. */
  predicate IsSecondWord(line: string, a: string, w: string, b: string) {
    line == a + " " + w + b && Free(a, ' ') && Free(w, ' ') && (b == "" || b[0] == ' ')
  }

  /** The line's second word is the number, of at most 16 bits. */
  ghost predicate HasStatus(line: string, n: nat) {
    exists a, w, b :: IsSecondWord(line, a, w, b) && SpellsUnsigned(w, n) && n < 0x1_0000
  }

  lemma SecondWordIs(line: string, a: string, w: string, b: string)
    requires IsSecondWord(line, a, w, b)
    ensures var i := IndexOf(line, ' ', 0);
      i == |a| < |line| && line[i + 1..IndexOf(line, ' ', i + 1)] == w
  {
    var i := |a|;
    assert forall k :: 0 <= k < i ==> line[k] == a[k];
    IndexOfIs(line, ' ', 0, i);
    assert forall k :: 0 <= k < |w| ==> line[i + 1 + k] == w[k];
    assert forall k :: i + 1 <= k < i + 1 + |w| ==> line[k] == w[k - i - 1];
    assert b != "" ==> line[i + 1 + |w|] == b[0];
    IndexOfIs(line, ' ', i + 1, i + 1 + |w|);
  }

  lemma StatusIff(line: string, n: nat)
    ensures StatusCode(line) == Some(n) <==> HasStatus(line, n)
  {
    hide SpellsUnsigned, ParseUnsigned, IndexOf;
    var i := IndexOf(line, ' ', 0);
    if StatusCode(line) == Some(n) {
      var j := IndexOf(line, ' ', i + 1);
      var a, w, b := line[..i], line[i + 1..j], line[j..];
      ParseUnsignedIff(w, TWO_16, n);
      SplitAtWord(line, i, j);
      assert IsSecondWord(line, a, w, b);
    }
    if HasStatus(line, n) {
      var a, w, b :| IsSecondWord(line, a, w, b) && SpellsUnsigned(w, n);
      SecondWordIs(line, a, w, b);
      ParseUnsignedIff(w, TWO_16, n);
    }
  }

  lemma SplitAtWord(line: string, i: nat, j: nat)
    requires i < j <= |line| && line[i] == ' '
    ensures line == line[..i] + " " + line[i + 1..j] + line[j..]
  {
    assert line == line[..i] + line[i..] && line[i..] == [line[i]] + line[i + 1..];
    assert line[i + 1..] == line[i + 1..j] + line[j..];
  }

  // ----- field lines

  /** The line is `name:value`, the name in any case. */
  predicate IsFieldLine(line: string, name: string, value: string) {
    && |line| == |name| + 1 + |value| && line[|name|] == ':' && line[|name| + 1..] == value
    && SameUpToCase(line[..|name|], name)
  }

  /** An unsigned number below 2^64 with whitespace around it. */
  ghost predicate Carries(value: string, n: nat) {
    n < 0x1_0000_0000_0000_0000
    && exists a, t, b :: value == a + t + b && AllWhitespace(a) && AllWhitespace(b) && SpellsUnsigned(t, n)
  }

  ghost predicate AnnouncesLength(line: string, n: nat) {
    exists value :: IsFieldLine(line, "content-length", value) && Carries(value, n)
  }

  ghost predicate AnnouncesChunks(line: string) {
    exists value :: IsFieldLine(line, "transfer-encoding", value) && IsChunkedValue(value)
  }

  lemma FieldLineIff(line: string, name: string)
    requires NoUpper(name)
    ensures name + ":" <= Lower(line) <==> |name| < |line| && IsFieldLine(line, name, line[|name| + 1..])
    ensures |name| < |line| ==> Lower(line)[|name| + 1..] == Lower(line[|name| + 1..])
  {
    if |name| < |line| {
      FoldIff(line[..|name|], name);
      LowerSlice(line, 0, |name|);
      LowerSlice(line, |name| + 1, |line|);
      var low := Lower(line);
      assert line[..|name|] == line[0..|name|];
      assert low[|name|] == LowerChar(line[|name|]);
      hide Lower;
      assert low[..|name| + 1] == low[..|name|] + [low[|name|]];
      assert name + ":" <= low <==> low[..|name| + 1] == name + ":";
    }
  }

  lemma SpelledIsPlain(t: string, n: nat)
    requires SpellsUnsigned(t, n)
    ensures t != "" && !IsWhitespace(t[0]) && !IsWhitespace(t[|t| - 1]) && Lower(t) == t
  {
    hide Spells;
    SpellsIff(t, n);
    if t != "" && t[0] == '+' { SpellsIff(t[1..], n); }
    forall k | 0 <= k < |t| ensures LowerChar(t[k]) == t[k] && !IsWhitespace(t[k]) {
      if AllDigits(t) {
        assert IsDigit(t[k]);
      } else if k > 0 {
        assert t[k] == t[1..][k - 1];
      }
    }
  }

  /** A text that spells a number after folding is not changed by it. */
  lemma SpelledIsFolded(t: string, n: nat)
    requires SpellsUnsigned(Lower(t), n)
    ensures Lower(t) == t
  {
    hide Spells;
    var u := Lower(t);
    SpellsIff(u, n);
    if u != "" && u[0] == '+' { SpellsIff(u[1..], n); }
    forall k | 0 <= k < |t| ensures u[k] == t[k] {
      if AllDigits(u) {
        assert IsDigit(u[k]);
      } else if k > 0 {
        assert u[k] == u[1..][k - 1];
      }
    }
  }

  lemma LowerThree(a: string, t: string, b: string)
    requires AllWhitespace(a) && AllWhitespace(b)
    ensures Lower(a + t + b) == a + Lower(t) + b
  {
    LowerConcat(a + t, b);
    LowerConcat(a, t);
    LowerOfSpace(a);
    LowerOfSpace(b);
  }

  lemma CarriesIff(value: string, n: nat)
    ensures ParseUnsigned(Trim(Lower(value)), TWO_64) == Some(n) <==> Carries(value, n)
  {
    hide Trim, IsWhitespace, SpellsUnsigned, ParseUnsigned, Lower, AllWhitespace;
    ParseUnsignedIff(Trim(Lower(value)), TWO_64, n);
    if Carries(value, n) {
      var a, t, b :| value == a + t + b && AllWhitespace(a) && AllWhitespace(b) && SpellsUnsigned(t, n);
      LowerThree(a, t, b);
      SpelledIsPlain(t, n);
      TrimAround(a, t, b);
    }
    if ParseUnsigned(Trim(Lower(value)), TWO_64) == Some(n) {
      var a, b := Trimmed(value);
      var t := Trim(value);
      LowerThree(a, t, b);
      FoldedCore(a, t, b, n);
      SpelledIsFolded(t, n);
    }
  }

  lemma FoldedCore(a: string, t: string, b: string, n: nat)
    requires AllWhitespace(a) && AllWhitespace(b) && (t == "" || (!IsWhitespace(t[0]) && !IsWhitespace(t[|t| - 1])))
    requires SpellsUnsigned(Trim(a + Lower(t) + b), n)
    ensures SpellsUnsigned(Lower(t), n)
  {
    hide Trim, SpellsUnsigned, AllWhitespace;
    if t == "" {
      assert a + Lower(t) + b == a + b;
      TrimSpace(a, b);
      SpelledIsPlain("", n);
      assert false;
    } else {
      var u := Lower(t);
      PlainStaysPlain(t[0]);
      PlainStaysPlain(t[|t| - 1]);
      TrimAround(a, u, b);
    }
  }

  lemma PlainStaysPlain(c: char)
    ensures IsWhitespace(LowerChar(c)) <==> IsWhitespace(c)
  {
  }

  lemma LengthIff(line: string, n: nat)
    ensures LengthOf(line) == Some(n) <==> AnnouncesLength(line, n)
  {
    hide Trim, ParseUnsigned, Lower, SameUpToCase, Carries;
    FieldLineIff(line, "content-length");
    assert "content-length" + ":" == "content-length:";
    if 14 < |line| { CarriesIff(line[15..], n); }
  }

  /** The word `chunked` cannot begin in the name of the field or at its colon. */
  lemma NotInName(low: string, k: nat)
    requires "transfer-encoding:" <= low && At(low, k, "chunked")
    ensures k >= 18
  {
    var p := "transfer-encoding:";
    assert low[k] == 'c' && low[k + 1] == 'h';
    assert forall j :: 0 <= j < 18 ==> low[j] == p[j];
    assert p[12] == 'o' && forall j :: 0 <= j < 18 && j != 11 ==> p[j] != 'c';
  }

  lemma ChunkedLineIff(line: string)
    ensures IsChunkedLine(line) <==> AnnouncesChunks(line)
  {
    hide Lower, SameUpToCase, IsChunkedValue, At;
    FieldLineIff(line, "transfer-encoding");
    assert "transfer-encoding" + ":" == "transfer-encoding:";
    var low := Lower(line);
    if 17 < |line| {
      var v := line[18..];
      ChunkedIff(v);
      if Contains(low[18..], "chunked") { ContainsSuffix(low, 18, "chunked"); }
      if IsChunkedLine(line) {
        var k: nat :| k <= |low| && At(low, k, "chunked");
        NotInName(low, k);
        AtBehind(low, k, 18, "chunked");
      }
    }
  }

  lemma AtBehind(s: string, k: nat, i: nat, p: string)
    requires i <= k && At(s, k, p)
    ensures i <= |s| && At(s[i..], k - i, p)
  {
    assert s[i..][k - i..k - i + |p|] == s[k..k + |p|];
  }

  // ----- the framing

  ghost predicate SomeLength(line: string) {
    exists n: nat :: AnnouncesLength(line, n)
  }

  /** The k-th line is the last one that announces a length, and announces `n`. */
  ghost predicate LastLength(lines: seq<string>, k: nat, n: nat) {
    k < |lines| && AnnouncesLength(lines[k], n) && forall j :: k < j < |lines| ==> !SomeLength(lines[j])
  }

  lemma SomeLengthIff(line: string)
    ensures LengthOf(line).Some? <==> SomeLength(line)
  {
    hide AnnouncesLength, LengthOf;
    forall n: nat ensures LengthOf(line) == Some(n) <==> AnnouncesLength(line, n) {
      LengthIff(line, n);
    }
    if LengthOf(line).Some? { assert AnnouncesLength(line, LengthOf(line).value); }
  }

  ghost predicate SomeChunks(lines: seq<string>) {
    exists k :: 0 <= k < |lines| && AnnouncesChunks(lines[k])
  }

  ghost predicate HasLength(lines: seq<string>, n: nat) {
    exists k: nat :: LastLength(lines, k, n)
  }

  /** Any head: chunks when some line announces them, and the last length announced. */
  lemma {:induction false} FramingIff(lines: seq<string>, k: nat, n: nat)
    requires k <= |lines|
    ensures FramingOf(lines, k).chunked <==> SomeChunks(lines[..k])
    ensures FramingOf(lines, k).length == Some(n) <==> HasLength(lines[..k], n)
  {
    hide LengthOf, IsChunkedLine, AnnouncesLength, AnnouncesChunks, SomeLength;
    if k > 0 {
      FramingIff(lines, k - 1, n);
      var line := lines[k - 1];
      var before, all := lines[..k - 1], lines[..k];
      assert all == before + [line];
      LengthIff(line, n);
      SomeLengthIff(line);
      ChunkedLineIff(line);
      LastLengthStep(before, line, n);
      ChunksStep(before, line);
    }
  }

  lemma ChunksStep(before: seq<string>, line: string)
    ensures SomeChunks(before + [line]) <==> SomeChunks(before) || AnnouncesChunks(line)
  {
    hide AnnouncesChunks;
    var all := before + [line];
    if AnnouncesChunks(line) { assert AnnouncesChunks(all[|before|]); }
    if SomeChunks(before) {
      var k :| 0 <= k < |before| && AnnouncesChunks(before[k]);
      assert AnnouncesChunks(all[k]);
    }
  }

  lemma LastLengthStep(before: seq<string>, line: string, n: nat)
    ensures HasLength(before + [line], n) <==> if SomeLength(line) then AnnouncesLength(line, n) else HasLength(before, n)
  {
    hide AnnouncesLength, SomeLength;
    var all := before + [line];
    assert all[|before|] == line;
    if HasLength(all, n) {
      var k: nat :| LastLength(all, k, n);
      if k < |before| {
        assert !SomeLength(all[|before|]);
        assert forall j :: k < j < |before| ==> before[j] == all[j];
        assert LastLength(before, k, n);
      } else {
        Announced(line, n);
      }
    }
    if !SomeLength(line) && HasLength(before, n) {
      var k: nat :| LastLength(before, k, n);
      assert LastLength(all, k, n);
    }
    if AnnouncesLength(line, n) { assert LastLength(all, |before|, n); }
  }

  lemma Announced(line: string, n: nat)
    requires AnnouncesLength(line, n)
    ensures SomeLength(line)
  {
    hide AnnouncesLength;
  }

  // ----- lines

  predicate NoBreak(line: string) {
    forall k: nat :: k < |line| ==> !At(line, k, CRLF)
  }

  predicate AllUnbroken(lines: seq<string>) {
    forall k :: 0 <= k < |lines| ==> NoBreak(lines[k])
  }

  /** The bytes are these lines, with a carriage return and a line feed between them. */
  predicate IsTextLines(b: seq<byte>, lines: seq<string>) {
    lines != [] && AllUnbroken(lines) && Utf8.Encode(Join(lines, "\r\n")) == b
  }

  lemma BreakIff(s: string, k: nat)
    ensures At(s, k, CRLF) <==> k + 1 < |s| && s[k] == '\r' && s[k + 1] == '\n'
  {
    if k + 2 <= |s| { assert s[k..k + 2] == [s[k], s[k + 1]]; }
  }

  lemma FindBreak(line: string, rest: string)
    requires NoBreak(line)
    ensures Find(line + (CRLF + rest), CRLF, 0) == |line|
  {
    hide At;
    var s := line + (CRLF + rest);
    forall k: nat ensures At(s, k, CRLF) <==> k + 1 < |s| && s[k] == '\r' && s[k + 1] == '\n' {
      BreakIff(s, k);
    }
    forall k: nat | k < |line| ensures !At(s, k, CRLF) {
      BreakIff(line, k);
      assert s[k] == line[k] && (k + 1 < |line| ==> s[k + 1] == line[k + 1]);
      assert k + 1 == |line| ==> s[k + 1] == CRLF[0];
    }
    FindIs(s, CRLF, 0, |line|);
  }

  lemma {:induction false} SplitOfLines(lines: seq<string>)
    requires lines != [] && AllUnbroken(lines)
    ensures Split(Join(lines, CRLF), CRLF) == lines
    decreases |lines|
  {
    hide Find, NoBreak;
    if |lines| == 1 {
      NothingFound(lines[0]);
      assert lines == [lines[0]];
    } else {
      var rest := Join(lines[1..], CRLF);
      var s := lines[0] + (CRLF + rest);
      FindBreak(lines[0], rest);
      assert s[..|lines[0]|] == lines[0] && s[|lines[0]| + 2..] == rest;
      SplitOfLines(lines[1..]);
      assert [lines[0]] + lines[1..] == lines;
    }
  }

  lemma NothingFound(line: string)
    requires NoBreak(line)
    ensures Find(line, CRLF, 0) == |line|
  {
  }

  lemma {:induction false} LinesOfSplit(s: string)
    ensures AllUnbroken(Split(s, CRLF)) && Join(Split(s, CRLF), CRLF) == s
    decreases |s|
  {
    var e := Find(s, CRLF, 0);
    UnbrokenHead(s, e);
    if e < |s| {
      hide NoBreak, Find;
      var rest := s[e + 2..];
      LinesOfSplit(rest);
      var pieces := Split(rest, CRLF);
      assert Split(s, CRLF) == [s[..e]] + pieces;
      assert ([s[..e]] + pieces)[1..] == pieces;
      assert s == s[..e] + (CRLF + rest);
    }
  }

  lemma UnbrokenHead(s: string, e: nat)
    requires e == Find(s, CRLF, 0)
    ensures NoBreak(s[..e])
  {
    forall k: nat | k < e ensures !At(s[..e], k, CRLF) {
      assert !At(s, k, CRLF);
      if k + 2 <= e { assert s[..e][k..k + 2] == s[k..k + 2]; }
    }
  }

  /** A head has one reading as lines, the reader's. */
  lemma TextLinesIff(b: seq<byte>, lines: seq<string>)
    ensures IsTextLines(b, lines) <==> Utf8.Decode(b).Some? && lines == Split(Utf8.Decode(b).value, CRLF)
  {
    hide Utf8.Encode, Utf8.Decode, Join, Split, AllUnbroken;
    if IsTextLines(b, lines) {
      Utf8.DecodeEncode(Join(lines, CRLF));
      SplitOfLines(lines);
    }
    if Utf8.Decode(b).Some? {
      Utf8.EncodeDecode(b);
      LinesOfSplit(Utf8.Decode(b).value);
    }
  }

  // ----- closing

  /** A `Connection` line, with whitespace around the name or not, that lists `close`. */
  ghost predicate IsCloseField(line: string) {
    exists name, a, b, value ::
      line == a + name + b + ":" + value && AllWhitespace(a) && AllWhitespace(b)
      && SameUpToCase(name, "connection") && ListsClose(value)
  }

  lemma ConnectionIsPlain(name: string)
    requires SameUpToCase(name, "connection")
    ensures |name| == 10 && !IsWhitespace(name[0]) && !IsWhitespace(name[9]) && Free(name, ':')
  {
    var c := "connection";
    assert SameLetter(name[0], c[0]) && SameLetter(name[9], c[9]);
    forall k | 0 <= k < |name| ensures name[k] != ':' {
      assert SameLetter(name[k], c[k]);
    }
  }

  lemma SpaceHasNoColon(a: string)
    requires AllWhitespace(a)
    ensures Free(a, ':')
  {
  }

  lemma CloseLineIff(line: string)
    ensures IsCloseLine(line) <==> IsCloseField(line)
  {
    hide Split, HasCloseToken, ListsClose, SameUpToCase, IsWhitespace, Trim, Lower, IndexOf;
    var colon := IndexOf(line, ':', 0);
    if colon < |line| {
      ListsCloseIff(line[colon + 1..]);
      FoldIff(Trim(line[..colon]), "connection");
    }
    if IsCloseLine(line) {
      var a, b := Trimmed(line[..colon]);
      var name, value := Trim(line[..colon]), line[colon + 1..];
      assert line == line[..colon] + ":" + value;
    }
    if IsCloseField(line) {
      var name, a, b, value :|
        line == a + name + b + ":" + value && AllWhitespace(a) && AllWhitespace(b)
        && SameUpToCase(name, "connection") && ListsClose(value);
      ConnectionIsPlain(name);
      SpaceHasNoColon(a);
      SpaceHasNoColon(b);
      var front := a + name + b;
      assert line == front + ":" + value;
      assert Free(front, ':');
      assert forall k :: 0 <= k < |front| ==> line[k] == front[k];
      IndexOfIs(line, ':', 0, |front|);
      assert line[..colon] == front && line[colon + 1..] == value;
      TrimAround(a, name, b);
    }
  }

  ghost predicate AsksForClose(lines: seq<string>) {
    exists k :: 0 <= k < |lines| && IsCloseField(lines[k])
  }

  lemma WantsCloseIff(lines: seq<string>)
    ensures WantsClose(lines) <==> AsksForClose(lines)
  {
    hide IsCloseLine, IsCloseField;
    forall k | 0 <= k < |lines| ensures IsCloseLine(lines[k]) <==> IsCloseField(lines[k]) {
      CloseLineIff(lines[k]);
    }
  }

  /** The close mark of any head: set exactly when one of its lines asks for it. A head
      that is no text asks for nothing. */
  lemma ScanIff(headers: seq<byte>)
    ensures ScanClose(headers) <==> exists lines :: IsTextLines(headers, lines) && AsksForClose(lines)
  {
    hide Split, IsTextLines, WantsClose, AsksForClose, Utf8.Decode;
    forall lines ensures IsTextLines(headers, lines) <==> Utf8.Decode(headers).Some? && lines == Split(Utf8.Decode(headers).value, CRLF) {
      TextLinesIff(headers, lines);
    }
    if Utf8.Decode(headers).Some? { WantsCloseIff(Split(Utf8.Decode(headers).value, CRLF)); }
  }

  // ----- the whole response

  /** The head at `pos`: its bytes up to the first blank line. */
  predicate IsHead(s: seq<byte>, pos: nat, head: seq<byte>) {
    && At(s, pos, head + [0x0D, 0x0A, 0x0D, 0x0A])
    && forall k :: pos <= k < pos + |head| ==> !At(s, k, [0x0D, 0x0A, 0x0D, 0x0A])
  }

  lemma HeadEndIff(s: seq<byte>, pos: nat, head: seq<byte>)
    requires pos <= |s|
    ensures IsHead(s, pos, head) <==>
      HeadEnd(s, pos) == Some(pos + |head| + 4) && s[pos..pos + |head|] == head
  {
    if IsHead(s, pos, head) {
      AtSplit(s, pos, head, HEADERS_END);
      FindIs(s, HEADERS_END, pos, pos + |head|);
    }
    if HeadEnd(s, pos) == Some(pos + |head| + 4) && s[pos..pos + |head|] == head {
      var e := pos + |head|;
      assert s[pos..e + 4] == s[pos..e] + s[e..e + 4];
    }
  }

  lemma HeadIsThere(s: seq<byte>, pos: nat)
    requires pos <= |s|
    ensures HeadEnd(s, pos).Some? <==> exists head :: IsHead(s, pos, head)
  {
    hide HeadEnd, IsHead;
    forall head ensures IsHead(s, pos, head) <==> HeadEnd(s, pos) == Some(pos + |head| + 4) && s[pos..pos + |head|] == head {
      HeadEndIff(s, pos, head);
    }
    if HeadEnd(s, pos).Some? {
      var head := s[pos..HeadEnd(s, pos).value - 4];
      assert IsHead(s, pos, head);
    }
  }

  /** No blank line is left: the connection counts as closed, and the close mark stays. */
  lemma NoHeadIff(s: seq<byte>, pos: nat, before: bool)
    requires pos <= |s|
    ensures (forall head :: !IsHead(s, pos, head)) ==> ReadResponse(s, pos) == Err(Closed) && CloseMark(s, pos, before) == before
  {
    hide IsHead;
    HeadIsThere(s, pos);
  }

  /** What a request makes of any stream with a head at `pos`: an error for a head that
      is no text, for a first line without a status, for a head that announces neither
      length nor chunks, and for a body shorter than announced; else status and body. */
  lemma ResponseOutcome(s: seq<byte>, pos: nat, head: seq<byte>, before: bool)
    requires pos <= |s| && IsHead(s, pos, head)
    ensures pos + |head| + 4 <= |s|
    ensures CloseMark(s, pos, before) <==>
      exists lines :: IsTextLines(head + [0x0D, 0x0A, 0x0D, 0x0A], lines) && AsksForClose(lines)
    ensures (forall lines :: !IsTextLines(head, lines)) ==> ReadResponse(s, pos) == Err(BadHeaders)
    ensures forall lines :: IsTextLines(head, lines) && (forall n: nat :: !HasStatus(lines[0], n)) ==> ReadResponse(s, pos) == Err(BadStatus)
    ensures forall lines, status :: IsTextLines(head, lines) && HasStatus(lines[0], status) ==>
      BodyOutcome(s, pos + |head| + 4, lines, status, ReadResponse(s, pos))
  {
    hide IsHead, HeadEnd, Split, IsTextLines, StatusCode, HasStatus, ReadBody, FramingOf, ScanClose, AsksForClose, Utf8.Decode;
    HeadEndIff(s, pos, head);
    var end := pos + |head| + 4;
    HeadEnds(s, pos, head);
    ScanIff(s[pos..end]);
    forall lines ensures IsTextLines(head, lines) <==> Utf8.Decode(head).Some? && lines == Split(Utf8.Decode(head).value, CRLF) {
      TextLinesIff(head, lines);
    }
    if Utf8.Decode(head).Some? {
      var lines := Split(Utf8.Decode(head).value, CRLF);
      assert IsTextLines(head, lines);
      forall n: nat ensures StatusCode(lines[0]) == Some(n) <==> HasStatus(lines[0], n) {
        StatusIff(lines[0], n);
      }
      if StatusCode(lines[0]).Some? { BodyIs(s, end, lines, StatusCode(lines[0]).value, ReadResponse(s, pos)); }
    }
  }

  lemma HeadEnds(s: seq<byte>, pos: nat, head: seq<byte>)
    requires IsHead(s, pos, head)
    ensures s[pos..pos + |head| + 4] == head + [0x0D, 0x0A, 0x0D, 0x0A]
  {
  }

  /** The outcome behind a head with this status. */
  ghost predicate BodyOutcome(s: seq<byte>, at: nat, lines: seq<string>, status: nat, r: ResponseReading)
    requires at <= |s|
  {
    if SomeChunks(lines) then
      match ReadChunks(s, at, [])
      case Err(e) => r == Err(e)
      case Ok(b) => r == Ok((HttpResponse(status, b.0), b.1))
    else
      && ((forall n: nat :: !HasLength(lines, n)) ==> r == Err(NoFraming))
      && forall n: nat :: HasLength(lines, n) ==>
           r == if at + n <= |s| then Ok((HttpResponse(status, s[at..at + n]), at + n)) else Err(ShortBody)
  }

  lemma BodyIs(s: seq<byte>, at: nat, lines: seq<string>, status: nat, r: ResponseReading)
    requires at <= |s|
    requires match ReadBody(s, at, FramingOf(lines, |lines|))
             case Err(e) => r == Err(e)
             case Ok(b) => r == Ok((HttpResponse(status, b.0), b.1))
    ensures BodyOutcome(s, at, lines, status, r)
  {
    hide FramingOf, SomeChunks, HasLength, ReadChunks;
    assert lines[..|lines|] == lines;
    FramingIff(lines, |lines|, 0);
    forall n: nat ensures FramingOf(lines, |lines|).length == Some(n) <==> HasLength(lines, n) {
      FramingIff(lines, |lines|, n);
    }
    var f := FramingOf(lines, |lines|);
    if f.length.Some? { assert HasLength(lines, f.length.value); }
  }

  // ----- any chunk line

  /** A number in hex digits, below 2^64, with an optional `+` in front and whitespace
      around it; what follows a semicolon does not matter. */
  ghost predicate IsSizeLine(line: seq<byte>, n: nat) {
    n < 0x1_0000_0000_0000_0000
    && exists a, t, b, rest :: IsSizeText(line, a, t, b, rest) && SpellsHexUnsigned(t, n)
  }

  predicate IsSizeText(line: seq<byte>, a: string, t: string, b: string, rest: string) {
    && Utf8.Encode(a + t + b + rest) == line && AllWhitespace(a) && AllWhitespace(b)
    && Free(t, ';') && (rest == "" || rest[0] == ';')
  }

  ghost predicate SpellsHexUnsigned(t: string, n: nat) {
    SpellsHex(t, n) || (t != "" && t[0] == '+' && SpellsHex(t[1..], n))
  }

  lemma ParseHexIff(t: string, n: nat)
    ensures ParseHex(t) == Some(n) <==> n < 0x1_0000_0000_0000_0000 && SpellsHexUnsigned(t, n)
  {
    hide SpellsHex, HexValue;
    SpellsHexIff(t, n);
    if t != "" && t[0] == '+' {
      SpellsHexIff(t[1..], n);
      assert HexDigitValue(t[0]).None?;
    }
  }

  lemma SizeIsPlain(t: string, n: nat)
    requires SpellsHexUnsigned(t, n)
    ensures t != "" && !IsWhitespace(t[0]) && !IsWhitespace(t[|t| - 1])
  {
    hide SpellsHex, HexValue;
    SpellsHexIff(t, n);
    if t != "" && t[0] == '+' { SpellsHexIff(t[1..], n); }
    var last := |t| - 1;
    if AllHex(t) && t != "" {
      assert HexDigitValue(t[0]).Some? && HexDigitValue(t[last]).Some?;
    } else {
      assert t[last] == t[1..][last - 1];
      assert HexDigitValue(t[1..][last - 1]).Some?;
    }
  }

  lemma SizeLineIff(line: seq<byte>, n: nat)
    ensures ChunkSize(line) == Some(n) <==> IsSizeLine(line, n)
  {
    hide SpellsHexUnsigned, ParseHex, Trim, IsWhitespace, Utf8.Encode, Utf8.Decode, IndexOf, AllWhitespace;
    if ChunkSize(line) == Some(n) {
      var text := Utf8.Decode(line).value;
      var e := IndexOf(text, ';', 0);
      var head := text[..e];
      var a, b := Trimmed(head);
      var t, rest := Trim(head), text[e..];
      ParseHexIff(t, n);
      Utf8.EncodeDecode(line);
      assert text == head + rest;
      CoreIsFree(a, t, b, ';');
      assert IsSizeText(line, a, t, b, rest);
    }
    if IsSizeLine(line, n) {
      var a, t, b, rest :| IsSizeText(line, a, t, b, rest) && SpellsHexUnsigned(t, n);
      var head := a + t + b;
      var text := head + rest;
      Utf8.DecodeEncode(text);
      SpaceHasNo(a);
      SpaceHasNo(b);
      assert forall k :: 0 <= k < |head| ==> text[k] == head[k] && head[k] != ';';
      assert rest != "" ==> text[|head|] == rest[0];
      IndexOfIs(text, ';', 0, |head|);
      assert text[..|head|] == head;
      SizeIsPlain(t, n);
      TrimAround(a, t, b);
      ParseHexIff(t, n);
    }
  }

  lemma SpaceHasNo(a: string)
    requires AllWhitespace(a)
    ensures Free(a, ';')
  {
  }

  lemma CoreIsFree(a: string, t: string, b: string, c: char)
    requires Free(a + t + b, c)
    ensures Free(t, c)
  {
    forall k | 0 <= k < |t| ensures t[k] != c {
      assert (a + t + b)[|a| + k] == t[k];
    }
  }

  /** A size that carries the buffer's length past 2^64 leaves only what is beyond: the
      buffer is cut to that, and two bytes are passed instead of the data. */
  lemma OverflowShrinks(s: seq<byte>, pos: nat, e: nat, n: nat, out: seq<byte>)
    requires pos <= e && At(s, e, [0x0D, 0x0A]) && forall k :: pos <= k < e ==> !At(s, k, [0x0D, 0x0A])
    requires IsSizeLine(s[pos..e], n) && |out| < 0x1_0000_0000_0000_0000 <= |out| + n
    ensures ReadChunks(s, pos, out) ==
      if e + 4 <= |s| then ReadChunks(s, e + 4, out[..|out| + n - 0x1_0000_0000_0000_0000]) else Err(ShortBody)
  {
    hide At, IsSizeLine, ReadChunkHead, ReadChunks;
    WrappedHead(s, pos, e, n);
    WrappedLength(|out|, n);
    WrappedStep(s, pos, e, n, out, |out| + n - 0x1_0000_0000_0000_0000);
  }

  lemma WrappedHead(s: seq<byte>, pos: nat, e: nat, n: nat)
    requires pos <= e && At(s, e, CRLF_BYTES) && forall k :: pos <= k < e ==> !At(s, k, CRLF_BYTES)
    requires IsSizeLine(s[pos..e], n)
    ensures ReadChunkHead(s, pos) == Ok((n, e + 2))
  {
    hide IsSizeLine, ChunkSize, Find;
    SizeLineIff(s[pos..e], n);
    FindIs(s, CRLF_BYTES, pos, e);
  }

  lemma WrappedLength(len: nat, n: nat)
    requires n < TWO_64 && len < TWO_64 <= len + n
    ensures Resized(len, n) == len + n - TWO_64
  {
  }

  lemma WrappedStep(s: seq<byte>, pos: nat, e: nat, n: nat, out: seq<byte>, total: nat)
    requires pos <= |s| && ReadChunkHead(s, pos) == Ok((n, e + 2)) && n > 0 && Resized(|out|, n) == total < |out|
    ensures ReadChunks(s, pos, out) == if e + 4 <= |s| then ReadChunks(s, e + 4, out[..total]) else Err(ShortBody)
  {
    hide ReadChunkHead, Resized;
  }
}
