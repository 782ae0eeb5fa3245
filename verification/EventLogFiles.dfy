/** Loading any log file at all: which records come out, which tail, and which error. */
module EventLogFiles {
  import opened Prelude
  import opened Text
  import opened Json
  import opened JsonLex
  import opened EventLog
  import Utf8

  /** The raw lines, each ended by a newline. */
  function Ended(raws: seq<string>): string {
    if raws == [] then "" else raws[0] + "\n" + Ended(raws[1..])
  }

  predicate AllUnbroken(raws: seq<string>) {
    forall k :: 0 <= k < |raws| ==> Free(raws[k], '\n')
  }

  /** The file is these lines, each with its newline, and a tail without one. */
  predicate IsLogFile(file: seq<byte>, raws: seq<string>, tail: seq<byte>) {
    && AllUnbroken(raws) && file == Utf8.Encode(Ended(raws)) + tail
    && forall k :: 0 <= k < |tail| ==> tail[k] != 0x0A
  }

  /** A line is its raw line without a carriage return at the end. */
  predicate IsLineOf(line: string, raw: string) {
    raw == line + "\r" || (raw == line && (line == "" || line[|line| - 1] != '\r'))
  }

  /** The records of the lines that are not blank, in order. */
  ghost predicate AreRecords(raws: seq<string>, vs: seq<JsonValue>)
    decreases |raws|
  {
    if raws == [] then vs == []
    else exists line ::
      && IsLineOf(line, raws[0])
      && if AllWhitespace(line) then AreRecords(raws[1..], vs)
         else vs != [] && Parse(line) == Ok(vs[0]) && AreRecords(raws[1..], vs[1..])
  }

  /** The line with this number, counted from one, is no record, for this reason. */
  ghost predicate IsBadLine(raws: seq<string>, n: nat, e: ParseError) {
    1 <= n <= |raws| && exists line :: IsLineOf(line, raws[n - 1]) && !AllWhitespace(line) && Parse(line) == Err(e)
  }

  ghost predicate FirstBad(raws: seq<string>, n: nat, e: ParseError) {
    IsBadLine(raws, n, e) && forall m, f :: 1 <= m < n ==> !IsBadLine(raws, m, f)
  }

  // ----- lines

  lemma LineIs(line: string, raw: string)
    ensures IsLineOf(line, raw) <==> WithoutReturn(raw) == line
  {
    if raw != "" && raw[|raw| - 1] == '\r' { assert raw == raw[..|raw| - 1] + "\r"; }
  }

  lemma {:induction false} EndedLines(raws: seq<string>)
    requires AllUnbroken(raws)
    ensures |Lines(Ended(raws))| == |raws| && forall k :: 0 <= k < |raws| ==> Lines(Ended(raws))[k] == WithoutReturn(raws[k])
  {
    hide WithoutReturn, IndexOf;
    if raws != [] {
      var raw, rest := raws[0], Ended(raws[1..]);
      var t := raw + "\n" + rest;
      assert forall k :: 0 <= k < |raw| ==> t[k] == raw[k];
      assert t[|raw|] == '\n';
      IndexOfIs(t, '\n', 0, |raw|);
      assert t[..|raw|] == raw && t[|raw| + 1..] == rest;
      EndedLines(raws[1..]);
      assert Lines(t) == [WithoutReturn(raw)] + Lines(rest);
    }
  }

  /** A text that is empty or ends with a newline is lines with their newlines. */
  lemma {:induction false} LinesOf(t: string) returns (raws: seq<string>)
    requires t == "" || t[|t| - 1] == '\n'
    ensures AllUnbroken(raws) && Ended(raws) == t
    decreases |t|
  {
    hide IndexOf;
    if t == "" {
      raws := [];
    } else {
      var e := IndexOf(t, '\n', 0);
      assert e < |t|;
      var rest := t[e + 1..];
      assert rest != "" ==> rest[|rest| - 1] == t[|t| - 1];
      var more := LinesOf(rest);
      raws := [t[..e]] + more;
      assert raws[1..] == more;
      assert t == t[..e] + "\n" + rest;
    }
  }

  lemma {:induction false} EndedShape(raws: seq<string>)
    ensures Ended(raws) == "" || Ended(raws)[|Ended(raws)| - 1] == '\n'
  {
    if raws != [] { EndedShape(raws[1..]); }
  }

  // ----- the complete part

  lemma LastByte(t: string)
    requires t != ""
    ensures Utf8.Encode(t) != []
    ensures Utf8.Encode(t)[|Utf8.Encode(t)| - 1] == 0x0A <==> t[|t| - 1] == '\n'
  {
    hide Utf8.Encode, Utf8.EncodeChar;
    var init, c := t[..|t| - 1], t[|t| - 1];
    assert t == init + [c];
    Utf8.EncodeConcat(init, [c]);
    EncodeOne(c);
    LastOfChar(c);
    var g := Utf8.EncodeChar(c);
    assert Utf8.Encode(t)[|Utf8.Encode(t)| - 1] == g[|g| - 1];
  }

  lemma EncodeOne(c: char)
    ensures Utf8.Encode([c]) == Utf8.EncodeChar(c)
  {
    assert [c][1..] == "";
    assert Utf8.Encode("") == [];
  }

  lemma LastOfChar(c: char)
    ensures var g := Utf8.EncodeChar(c); g[|g| - 1] == 0x0A <==> c == '\n'
  {
  }

  lemma CompletePart(file: seq<byte>, raws: seq<string>, tail: seq<byte>)
    requires IsLogFile(file, raws, tail)
    ensures Healed(file) == Utf8.Encode(Ended(raws)) && file[CompleteLength(file)..] == tail
  {
    hide Utf8.Encode, CompleteLength;
    var b := Utf8.Encode(Ended(raws));
    EndedShape(raws);
    if Ended(raws) != "" { LastByte(Ended(raws)); } else { NothingEncoded(); }
    assert |b| > 0 ==> file[|b| - 1] == b[|b| - 1];
    assert forall k :: |b| <= k < |file| ==> file[k] == tail[k - |b|];
    CompleteLengthIs(file, |b|);
    assert file[..|b|] == b && file[|b|..] == tail;
  }

  lemma NothingEncoded()
    ensures Utf8.Encode("") == []
  {
  }

  /** A file whose complete part is text is a log file, in one way. */
  lemma LogFileOf(file: seq<byte>) returns (raws: seq<string>)
    requires Utf8.Decode(Healed(file)).Some?
    ensures IsLogFile(file, raws, file[CompleteLength(file)..]) && Ended(raws) == Utf8.Decode(Healed(file)).value
  {
    hide Utf8.Encode, Utf8.Decode, CompleteLength, AllUnbroken;
    var n := CompleteLength(file);
    var t := Utf8.Decode(Healed(file)).value;
    Utf8.EncodeDecode(Healed(file));
    if t != "" { LastByte(t); }
    raws := LinesOf(t);
    assert file == file[..n] + file[n..];
  }

  // ----- the records

  lemma {:induction false} BlankIff(line: string)
    ensures Trim(line) == "" <==> AllWhitespace(line)
  {
    if AllWhitespace(line) {
      TrimSpace(line, "");
      assert line + "" == line;
    }
    if Trim(line) == "" {
      var a, b := Trimmed(line);
      assert line == a + b;
    }
  }

  /** The lines from the n-th on: the records that are collected, or the first bad line. */
  ghost predicate Collects(raws: seq<string>, n: nat, out: seq<JsonValue>, r: Result<seq<JsonValue>, LoadError>)
    requires n <= |raws|
  {
    match r
    case Ok(vs) => out <= vs && AreRecords(raws[n..], vs[|out|..])
    case Err(BadLine(m, e)) => n < m && IsBadLine(raws, m, e) && forall i, f :: n < i < m ==> !IsBadLine(raws, i, f)
    case Err(NotUtf8) => false
  }

  lemma {:induction false} ParseLinesIs(raws: seq<string>, lines: seq<string>, n: nat, out: seq<JsonValue>)
    requires n <= |raws| == |lines| && forall k :: 0 <= k < |raws| ==> lines[k] == WithoutReturn(raws[k])
    ensures Collects(raws, n, out, ParseLines(lines, n, out))
    decreases |raws| - n
  {
    hide WithoutReturn, Trim, AllWhitespace, Parse, Collects, AreRecords, IsBadLine;
    if n == |raws| {
      NoneLeft(raws, n, out);
    } else {
      LineIs(lines[n], raws[n]);
      BlankIff(lines[n]);
      if Trim(lines[n]) == "" {
        ParseLinesIs(raws, lines, n + 1, out);
        BlankPassed(raws, n, lines[n], out, ParseLines(lines, n + 1, out));
      } else if Parse(lines[n]).Ok? {
        var v := Parse(lines[n]).value;
        ParseLinesIs(raws, lines, n + 1, out + [v]);
        RecordPassed(raws, n, lines[n], v, out, ParseLines(lines, n + 1, out + [v]));
      } else {
        BadFound(raws, n, lines[n], out, Parse(lines[n]).error);
      }
    }
  }

  lemma NoneLeft(raws: seq<string>, n: nat, out: seq<JsonValue>)
    requires n == |raws|
    ensures Collects(raws, n, out, Ok(out))
  {
    assert raws[n..] == [] && out[|out|..] == [];
  }

  /** The n-th raw line has one line. */
  lemma OneLine(raws: seq<string>, n: nat, line: string)
    requires n < |raws| && IsLineOf(line, raws[n])
    ensures forall other :: IsLineOf(other, raws[n]) ==> other == line
  {
    LineIs(line, raws[n]);
    forall other | IsLineOf(other, raws[n]) ensures other == line {
      LineIs(other, raws[n]);
    }
  }

  lemma BlankPassed(raws: seq<string>, n: nat, line: string, out: seq<JsonValue>, r: Result<seq<JsonValue>, LoadError>)
    requires n < |raws| && IsLineOf(line, raws[n]) && AllWhitespace(line) && Collects(raws, n + 1, out, r)
    ensures Collects(raws, n, out, r)
  {
    hide IsLineOf, AllWhitespace, Parse;
    OneLine(raws, n, line);
    assert raws[n..][0] == raws[n] && raws[n..][1..] == raws[n + 1..];
    var number := n + 1;
    assert forall f :: !IsBadLine(raws, number, f);
  }

  lemma RecordPassed(raws: seq<string>, n: nat, line: string, v: JsonValue, out: seq<JsonValue>, r: Result<seq<JsonValue>, LoadError>)
    requires n < |raws| && IsLineOf(line, raws[n]) && !AllWhitespace(line) && Parse(line) == Ok(v)
    requires Collects(raws, n + 1, out + [v], r)
    ensures Collects(raws, n, out, r)
  {
    hide IsLineOf, AllWhitespace, Parse;
    OneLine(raws, n, line);
    assert raws[n..][0] == raws[n] && raws[n..][1..] == raws[n + 1..];
    var number := n + 1;
    assert forall f :: !IsBadLine(raws, number, f);
    if r.Ok? {
      var vs := r.value;
      assert vs[|out|] == (out + [v])[|out|] == v;
      assert vs[|out|..][0] == v && vs[|out|..][1..] == vs[|out| + 1..];
      assert vs[|out + [v]|..] == vs[|out| + 1..];
      assert out <= vs by { assert out == (out + [v])[..|out|]; }
    }
  }

  lemma BadFound(raws: seq<string>, n: nat, line: string, out: seq<JsonValue>, e: ParseError)
    requires n < |raws| && IsLineOf(line, raws[n]) && !AllWhitespace(line) && Parse(line) == Err(e)
    ensures Collects(raws, n, out, Err(BadLine(n + 1, e)))
  {
    hide IsLineOf, AllWhitespace, Parse;
  }

  /** Records leave no room for a bad line, and there is one list of them. */
  lemma {:induction false} RecordsDetermined(raws: seq<string>, vs: seq<JsonValue>, us: seq<JsonValue>)
    requires AreRecords(raws, vs) && AreRecords(raws, us)
    ensures vs == us
    decreases |raws|
  {
    hide IsLineOf, AllWhitespace, Parse;
    if raws != [] {
      var line :| IsLineOf(line, raws[0]) &&
        if AllWhitespace(line) then AreRecords(raws[1..], vs)
        else vs != [] && Parse(line) == Ok(vs[0]) && AreRecords(raws[1..], vs[1..]);
      OneLine(raws, 0, line);
      if AllWhitespace(line) {
        RecordsDetermined(raws[1..], vs, us);
      } else {
        RecordsDetermined(raws[1..], vs[1..], us[1..]);
        assert vs == [vs[0]] + vs[1..] && us == [us[0]] + us[1..];
      }
    }
  }

  lemma {:induction false} RecordsAreGood(raws: seq<string>, vs: seq<JsonValue>, n: nat, e: ParseError)
    requires AreRecords(raws, vs)
    ensures !IsBadLine(raws, n, e)
    decreases |raws|
  {
    hide IsLineOf, AllWhitespace, Parse;
    if 1 <= n <= |raws| {
      var line :| IsLineOf(line, raws[0]) &&
        if AllWhitespace(line) then AreRecords(raws[1..], vs)
        else vs != [] && Parse(line) == Ok(vs[0]) && AreRecords(raws[1..], vs[1..]);
      OneLine(raws, 0, line);
      if n > 1 {
        assert raws[1..][n - 2] == raws[n - 1];
        if AllWhitespace(line) { RecordsAreGood(raws[1..], vs, n - 1, e); } else { RecordsAreGood(raws[1..], vs[1..], n - 1, e); }
      }
    }
  }

  // ----- the theorem

  lemma LoadBehind(file: seq<byte>, raws: seq<string>, tail: seq<byte>)
    requires IsLogFile(file, raws, tail)
    ensures Utf8.Decode(Healed(file)).Some?
    ensures Load(file) == match ParseLines(Lines(Ended(raws)), 0, []) { case Err(e) => Err(e) case Ok(vs) => Ok((vs, tail)) }
    ensures Collects(raws, 0, [], ParseLines(Lines(Ended(raws)), 0, []))
  {
    hide Utf8.Encode, Utf8.Decode, CompleteLength, Healed, Lines, ParseLines, Collects, Ended;
    CompletePart(file, raws, tail);
    Utf8.DecodeEncode(Ended(raws));
    EndedLines(raws);
    ParseLinesIs(raws, Lines(Ended(raws)), 0, []);
  }

  /** Any file: loading gives the records of its complete lines in order and the torn
      tail behind the last newline, when every line that is not blank is a record; else
      the first line that is none, by number and reason; and a complete part that is no
      text is refused. */
  lemma LoadOutcome(file: seq<byte>)
    ensures forall vs, tail :: Load(file) == Ok((vs, tail)) <==> exists raws :: IsLogFile(file, raws, tail) && AreRecords(raws, vs)
    ensures forall n, e :: Load(file) == Err(BadLine(n, e)) <==> exists raws, tail :: IsLogFile(file, raws, tail) && FirstBad(raws, n, e)
    ensures Load(file) == Err(NotUtf8) <==> forall raws, tail :: !IsLogFile(file, raws, tail)
  {
    hide Load, AreRecords, IsLogFile, FirstBad, Utf8.Decode, CompleteLength, Healed;
    if Utf8.Decode(Healed(file)).Some? {
      var raws0 := LogFileOf(file);
      var tail0 := file[CompleteLength(file)..];
      OneReading(file, raws0, tail0);
      OutcomeOf(file, raws0, tail0);
    } else {
      NotText(file);
      forall raws, tail ensures !IsLogFile(file, raws, tail) {
        if IsLogFile(file, raws, tail) { LoadBehind(file, raws, tail); }
      }
    }
  }

  lemma NotText(file: seq<byte>)
    requires Utf8.Decode(Healed(file)).None?
    ensures Load(file) == Err(NotUtf8)
  {
  }

  lemma OneReading(file: seq<byte>, raws0: seq<string>, tail0: seq<byte>)
    requires IsLogFile(file, raws0, tail0)
    ensures forall raws, tail :: IsLogFile(file, raws, tail) ==> tail == tail0 && raws == raws0
  {
    hide IsLogFile, Utf8.Encode, CompleteLength, Healed;
    forall raws, tail | IsLogFile(file, raws, tail) ensures tail == tail0 && raws == raws0 {
      CompletePart(file, raws, tail);
      CompletePart(file, raws0, tail0);
      Utf8.EncodeInjective(Ended(raws), Ended(raws0));
      Unbroken(file, raws, tail);
      Unbroken(file, raws0, tail0);
      SameLines(raws, raws0);
    }
  }

  lemma Unbroken(file: seq<byte>, raws: seq<string>, tail: seq<byte>)
    requires IsLogFile(file, raws, tail)
    ensures AllUnbroken(raws)
  {
  }

  lemma {:induction false} SameLines(a: seq<string>, b: seq<string>)
    requires AllUnbroken(a) && AllUnbroken(b) && Ended(a) == Ended(b)
    ensures a == b
    decreases |a|
  {
    if a != [] && b != [] {
      var t := Ended(a);
      FirstLine(a);
      FirstLine(b);
      assert a == [a[0]] + a[1..] && b == [b[0]] + b[1..];
      SameLines(a[1..], b[1..]);
    }
  }

  lemma FirstLine(a: seq<string>)
    requires a != [] && AllUnbroken(a)
    ensures var t := Ended(a); var e := IndexOf(t, '\n', 0); e < |t| && t[..e] == a[0] && t[e + 1..] == Ended(a[1..])
  {
    hide IndexOf;
    var t, rest := Ended(a), Ended(a[1..]);
    assert t == a[0] + "\n" + rest;
    assert forall k :: 0 <= k < |a[0]| ==> t[k] == a[0][k];
    IndexOfIs(t, '\n', 0, |a[0]|);
  }

  lemma OutcomeOf(file: seq<byte>, raws: seq<string>, tail: seq<byte>)
    requires IsLogFile(file, raws, tail)
    ensures forall vs, other :: Load(file) == Ok((vs, other)) <==> other == tail && AreRecords(raws, vs)
    ensures forall n, e :: Load(file) == Err(BadLine(n, e)) <==> FirstBad(raws, n, e)
    ensures Load(file) != Err(NotUtf8)
  {
    hide Load, AreRecords, IsLogFile, ParseLines, Lines, Ended, IsBadLine;
    LoadBehind(file, raws, tail);
    var r := ParseLines(Lines(Ended(raws)), 0, []);
    assert raws[0..] == raws;
    match r
    case Ok(us) =>
      assert us[0..] == us;
      forall vs | AreRecords(raws, vs) ensures vs == us { RecordsDetermined(raws, vs, us); }
      forall n, e ensures !FirstBad(raws, n, e) { RecordsAreGood(raws, us, n, e); }
    case Err(BadLine(m, f)) =>
      forall vs ensures !AreRecords(raws, vs) { if AreRecords(raws, vs) { RecordsAreGood(raws, vs, m, f); } }
      forall n, e | FirstBad(raws, n, e) ensures n == m && e == f { OneBad(raws, n, e, m, f); }
  }

  lemma OneBad(raws: seq<string>, n: nat, e: ParseError, m: nat, f: ParseError)
    requires FirstBad(raws, n, e) && FirstBad(raws, m, f)
    ensures n == m && e == f
  {
    hide IsLineOf, Parse, AllWhitespace;
    assert n == m;
    var line :| IsLineOf(line, raws[n - 1]) && !AllWhitespace(line) && Parse(line) == Err(e);
    OneLine(raws, n - 1, line);
  }
}
