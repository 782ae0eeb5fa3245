/** The append-only event log, one compact JSON record a line. A crash can leave any
    prefix of the record being appended; the next append first cuts that torn tail.
    Over every run of appends and crashes, loading returns exactly the records whose
    line was written completely, in order. */
module EventLog {
  import opened Prelude
  import opened Text
  import opened Json
  import opened JsonLex
  import opened JsonWriter
  import opened JsonRoundTrip
  import opened JsonPrintRead
  import opened JsonTheorems
  import Utf8

  const NEWLINE: byte := 0x0A

  /** One past the last newline: the length of the newline-terminated part. */
  function CompleteLength(file: seq<byte>): (n: nat)
    ensures n <= |file|
    ensures n > 0 ==> file[n - 1] == NEWLINE
    ensures forall k :: n <= k < |file| ==> file[k] != NEWLINE
  {
    if file == [] then 0
    else if file[|file| - 1] == NEWLINE then |file|
    else CompleteLength(file[..|file| - 1])
  }

  lemma CompleteLengthIs(file: seq<byte>, n: nat)
    requires n <= |file|
    requires n > 0 ==> file[n - 1] == NEWLINE
    requires forall k :: n <= k < |file| ==> file[k] != NEWLINE
    ensures CompleteLength(file) == n
  {
    var m := CompleteLength(file);
    assert !(m < n) && !(n < m);
  }

  function Healed(file: seq<byte>): seq<byte> {
    file[..CompleteLength(file)]
  }

  /** `str::lines`: pieces ended by a newline, with a carriage return before it
      dropped, and a last unended piece if there is one. */
  function Lines(t: string): seq<string>
    decreases |t|
  {
    if t == [] then []
    else
      var e := IndexOf(t, '\n', 0);
      if e == |t| then [t] else [WithoutReturn(t[..e])] + Lines(t[e + 1..])
  }

  function WithoutReturn(t: string): string {
    if t != [] && t[|t| - 1] == '\r' then t[..|t| - 1] else t
  }

  datatype LoadError = NotUtf8 | BadLine(number: nat, error: ParseError)

  /** The values of the non-blank lines from `n` on, after the values `out`. */
  function ParseLines(lines: seq<string>, n: nat, out: seq<JsonValue>): Result<seq<JsonValue>, LoadError>
    requires n <= |lines|
    decreases |lines| - n
  {
    if n == |lines| then Ok(out)
    else if Trim(lines[n]) == [] then ParseLines(lines, n + 1, out)
    else
      match Parse(lines[n])
      case Err(e) => Err(BadLine(n + 1, e))
      case Ok(v) => ParseLines(lines, n + 1, out + [v])
  }

  /** The complete records, and the bytes after the last newline. */
  function Load(file: seq<byte>): Result<(seq<JsonValue>, seq<byte>), LoadError> {
    match Utf8.Decode(Healed(file))
    case None => Err(NotUtf8)
    case Some(text) =>
      match ParseLines(Lines(text), 0, [])
      case Err(e) => Err(e)
      case Ok(vs) => Ok((vs, file[CompleteLength(file)..]))
  }

  /** The log file of one submission. */
  class Log {
    var file: seq<byte>

    constructor ()
      ensures file == []
    {
      file := [];
    }

    method HealTornTail()
      modifies this
      ensures file == Healed(old(file))
    {
      if |file| == 0 { return; }
      if file[|file| - 1] == NEWLINE { return; }
      var keep := |file|;
      while keep > 0 && file[keep - 1] != NEWLINE
        invariant 0 <= keep <= |file| && file == old(file)
        invariant forall k :: keep <= k < |file| ==> file[k] != NEWLINE
      {
        keep := keep - 1;
      }
      CompleteLengthIs(file, keep);
      file := file[..keep];
    }

    method AppendLine(line: string)
      modifies this
      ensures file == Healed(old(file)) + Utf8.Encode(line + "\n")
    {
      HealTornTail();
      var record := line + "\n";
      file := file + Utf8.Encode(record);
    }

    method AppendRecord(v: JsonValue)
      modifies this
      ensures file == Healed(old(file)) + RecordBytes(v)
    {
      var line := ToCompactString(v);
      AppendLine(line);
    }

    method LoadRecords() returns (r: Result<(seq<JsonValue>, seq<byte>), LoadError>)
      ensures r == Load(file)
    {
      var split := |file|;
      while split > 0 && file[split - 1] != NEWLINE
        invariant 0 <= split <= |file|
        invariant forall k :: split <= k < |file| ==> file[k] != NEWLINE
      {
        split := split - 1;
      }
      CompleteLengthIs(file, split);
      match Utf8.Decode(file[..split])
      case None => return Err(NotUtf8);
      case Some(text) =>
        var lines := Lines(text);
        var out: seq<JsonValue> := [];
        for n := 0 to |lines|
          invariant ParseLines(lines, n, out) == ParseLines(lines, 0, [])
        {
          if Trim(lines[n]) == [] { continue; }
          match Parse(lines[n])
          case Err(e) => return Err(BadLine(n + 1, e));
          case Ok(v) => out := out + [v];
        }
        return Ok((out, file[split..]));
    }
  }

  // ----- runs

  function RecordBytes(v: JsonValue): seq<byte> {
    Utf8.Encode(Render(v, Compact, 0) + "\n")
  }

  /** An append that finished, or one cut off after `written` bytes of its record. */
  datatype Op = Append(v: JsonValue) | CrashedAppend(v: JsonValue, written: nat)

  predicate ValidOp(op: Op) {
    op.CrashedAppend? ==> op.written <= |RecordBytes(op.v)|
  }

  predicate Complete(op: Op) {
    op.Append? || op.written == |RecordBytes(op.v)|
  }

  function Apply(file: seq<byte>, op: Op): seq<byte>
    requires ValidOp(op)
  {
    match op
    case Append(v) => Healed(file) + RecordBytes(v)
    case CrashedAppend(v, written) => Healed(file) + RecordBytes(v)[..written]
  }

  /** The file after the operations `ops` on a log that did not exist. */
  function Run(ops: seq<Op>): seq<byte>
    requires forall k :: 0 <= k < |ops| ==> ValidOp(ops[k])
  {
    if ops == [] then [] else Apply(Run(ops[..|ops| - 1]), ops[|ops| - 1])
  }

  /** The records whose line reached the disk whole. */
  function Committed(ops: seq<Op>): seq<JsonValue> {
    if ops == [] then []
    else
      var before, last := Committed(ops[..|ops| - 1]), ops[|ops| - 1];
      if Complete(last) then before + [last.v] else before
  }

  function LogText(vs: seq<JsonValue>): string {
    if vs == [] then "" else LogText(vs[..|vs| - 1]) + (Render(vs[|vs| - 1], Compact, 0) + "\n")
  }

  lemma {:induction false} EncodeKeepsLine(t: string)
    requires OneLine(t)
    ensures forall k :: 0 <= k < |Utf8.Encode(t)| ==> Utf8.Encode(t)[k] >= 0x20
  {
    if t != [] {
      EncodeKeepsLine(t[1..]);
      assert t[0] as int < 0x80 ==> Utf8.EncodeChar(t[0]) == [t[0] as int];
    }
  }

  /** A record's bytes hold one newline, the last byte. */
  lemma RecordShape(v: JsonValue)
    ensures var b := RecordBytes(v);
      |b| > 0 && b[|b| - 1] == NEWLINE && forall k :: 0 <= k < |b| - 1 ==> b[k] != NEWLINE
  {
    hide Render;
    var t := Render(v, Compact, 0);
    CompactIsOneLine(v);
    EncodeKeepsLine(t);
    Utf8.EncodeConcat(t, "\n");
    Utf8.EncodeOne('\n');
  }

  lemma LogTextSnoc(vs: seq<JsonValue>, v: JsonValue)
    ensures Utf8.Encode(LogText(vs + [v])) == Utf8.Encode(LogText(vs)) + RecordBytes(v)
  {
    hide Render, Utf8.Encode;
    assert (vs + [v])[..|vs|] == vs;
    Utf8.EncodeConcat(LogText(vs), Render(v, Compact, 0) + "\n");
  }

  /** Whatever prefix of a record follows a clean log, healing gives back the clean
      log, with the record only if all of it is there. */
  lemma HealedAfter(base: seq<byte>, v: JsonValue, written: nat)
    requires base == Healed(base) && written <= |RecordBytes(v)|
    ensures Healed(base + RecordBytes(v)[..written])
         == if written == |RecordBytes(v)| then base + RecordBytes(v) else base
  {
    hide RecordBytes, CompleteLength;
    RecordShape(v);
    var rec := RecordBytes(v);
    var file := base + rec[..written];
    assert rec[..|rec|] == rec;
    assert CompleteLength(base) == |base|;
    if written == |rec| {
      CompleteLengthIs(file, |file|);
      assert file[..|file|] == file;
    } else {
      CompleteLengthIs(file, |base|);
      assert file[..|base|] == base;
    }
  }

  lemma HealedTwice(file: seq<byte>)
    ensures Healed(Healed(file)) == Healed(file)
  {
    hide CompleteLength;
    var n := CompleteLength(file);
    CompleteLengthIs(file[..n], n);
  }

  /** At every moment of every run the newline-terminated part of the file is the
      text of exactly the committed records. */
  lemma {:induction false} RunInvariant(ops: seq<Op>)
    requires forall k :: 0 <= k < |ops| ==> ValidOp(ops[k])
    ensures Healed(Run(ops)) == Utf8.Encode(LogText(Committed(ops)))
  {
    hide Utf8.Encode, RecordBytes, LogText, Healed;
    if ops == [] {
      EmptyLog();
    } else {
      var init, last := ops[..|ops| - 1], ops[|ops| - 1];
      RunInvariant(init);
      var rec := RecordBytes(last.v);
      assert rec[..|rec|] == rec;
      HealedTwice(Run(init));
      HealedAfter(Healed(Run(init)), last.v, if last.Append? then |rec| else last.written);
      LogTextSnoc(Committed(init), last.v);
    }
  }

  lemma EmptyLog()
    ensures Healed([]) == Utf8.Encode(LogText([]))
  {
  }

  function MangledAll(vs: seq<JsonValue>): (r: seq<JsonValue>)
    ensures |r| == |vs|
    ensures forall k :: 0 <= k < |vs| ==> r[k] == Mangled(vs[k])
  {
    seq(|vs|, k requires 0 <= k < |vs| => Mangled(vs[k]))
  }

  function Renderings(vs: seq<JsonValue>): (r: seq<string>)
    ensures |r| == |vs|
    ensures forall k :: 0 <= k < |vs| ==> r[k] == Render(vs[k], Compact, 0)
  {
    seq(|vs|, k requires 0 <= k < |vs| => Render(vs[k], Compact, 0))
  }

  lemma {:induction false} LinesConcat(t: string, u: string)
    requires t != [] ==> t[|t| - 1] == '\n'
    ensures Lines(t + u) == Lines(t) + Lines(u)
    decreases |t|
  {
    if t == [] {
      assert t + u == u;
    } else {
      var e := IndexOf(t, '\n', 0);
      IndexOfIs(t + u, '\n', 0, e);
      assert (t + u)[..e] == t[..e] && (t + u)[e + 1..] == t[e + 1..] + u;
      LinesConcat(t[e + 1..], u);
      Regroup([WithoutReturn(t[..e])], Lines(t[e + 1..]), Lines(u), [], [], []);
    }
  }

  lemma LineOfRecord(t: string)
    requires OneLine(t)
    ensures Lines(t + "\n") == [t]
  {
    IndexOfIs(t + "\n", '\n', 0, |t|);
    assert (t + "\n")[..|t|] == t && (t + "\n")[|t| + 1..] == [];
  }

  lemma {:induction false} LinesOfLog(vs: seq<JsonValue>)
    ensures Lines(LogText(vs)) == Renderings(vs)
    ensures vs != [] ==> LogText(vs) != [] && LogText(vs)[|LogText(vs)| - 1] == '\n'
  {
    hide Render, Lines, Renderings;
    if vs == [] {
      NoLines();
    } else {
      var init, v := vs[..|vs| - 1], vs[|vs| - 1];
      LinesOfLog(init);
      CompactIsOneLine(v);
      LinesConcat(LogText(init), Render(v, Compact, 0) + "\n");
      LineOfRecord(Render(v, Compact, 0));
      RenderingsSnoc(init, v);
      assert vs == init + [v];
    }
  }

  lemma NoLines()
    ensures Lines(LogText([])) == Renderings([])
  {
  }

  lemma RenderingsSnoc(vs: seq<JsonValue>, v: JsonValue)
    ensures Renderings(vs + [v]) == Renderings(vs) + [Render(v, Compact, 0)]
  {
    hide Render;
  }

  predicate Storable(v: JsonValue) {
    DistinctKeys(v) && Height(v) <= MAX_DEPTH
  }

  lemma RenderNotBlank(v: JsonValue)
    ensures Trim(Render(v, Compact, 0)) != []
  {
    var t := Render(v, Compact, 0);
    assert t != [] && !IsWhitespace(t[0]) by {
      if v.Number? { NumberStart(v.n); }
    }
    assert TrimStart(t) == t;
    assert !AllWhitespace(t[0..]);
  }

  lemma {:induction false} ParseRenderings(vs: seq<JsonValue>, n: nat)
    requires n <= |vs| && forall k :: 0 <= k < |vs| ==> Storable(vs[k])
    ensures ParseLines(Renderings(vs), n, MangledAll(vs)[..n]) == Ok(MangledAll(vs))
    decreases |vs| - n
  {
    hide Parse, Trim, Render, Mangled, DistinctKeys, Height;
    var all := MangledAll(vs);
    if n == |vs| {
      assert all[..n] == all;
    } else {
      RenderNotBlank(vs[n]);
      ParsePrinted(vs[n], Compact);
      assert all[..n] + [all[n]] == all[..n + 1];
      ParseRenderings(vs, n + 1);
    }
  }

  /** After any run of appends and crashes of storable records, loading succeeds and
      returns the committed records in order, mangled as one round trip mangles them;
      the torn tail is everything after them. */
  lemma LoadAfterRun(ops: seq<Op>)
    requires forall k :: 0 <= k < |ops| ==> ValidOp(ops[k])
    requires forall k :: 0 <= k < |Committed(ops)| ==> Storable(Committed(ops)[k])
    ensures Load(Run(ops)).Ok?
    ensures Load(Run(ops)).value.0 == MangledAll(Committed(ops))
    ensures Load(Run(ops)).value.1 == Run(ops)[CompleteLength(Run(ops))..]
    ensures Utf8.Encode(LogText(Committed(ops))) + Load(Run(ops)).value.1 == Run(ops)
  {
    hide Render, Parse, Mangled, Lines, LogText, CompleteLength, Run, Committed, Utf8.Encode, Utf8.Decode, ParseLines, Storable;
    var vs := Committed(ops);
    RunInvariant(ops);
    Utf8.DecodeEncode(LogText(vs));
    LinesOfLog(vs);
    ParseRenderings(vs, 0);
    assert MangledAll(vs)[..0] == [];
    var n := CompleteLength(Run(ops));
    assert Run(ops) == Run(ops)[..n] + Run(ops)[n..];
  }

  /** When the committed records also meet the round-trip condition they come back
      themselves; a crash loses only the record being appended. */
  lemma LoadReturnsCommitted(ops: seq<Op>)
    requires forall k :: 0 <= k < |ops| ==> ValidOp(ops[k])
    requires forall k :: 0 <= k < |Committed(ops)| ==> Storable(Committed(ops)[k]) && TextsSurvive(Committed(ops)[k])
    ensures Load(Run(ops)).Ok? && Load(Run(ops)).value.0 == Committed(ops)
    ensures |ops| > 0 && !Complete(ops[|ops| - 1]) ==> Committed(ops) == Committed(ops[..|ops| - 1])
    ensures |ops| > 0 && Complete(ops[|ops| - 1]) ==> Load(Run(ops)).value.1 == []
  {
    hide Load, LogText, Mangled, TextsSurvive, RecordBytes, CompleteLength;
    LoadAfterRun(ops);
    var vs := Committed(ops);
    forall k | 0 <= k < |vs| ensures MangledAll(vs)[k] == vs[k] {
      MangledFixed(vs[k]);
    }
    if |ops| > 0 && Complete(ops[|ops| - 1]) {
      var last := ops[|ops| - 1];
      RecordShape(last.v);
      var rec := RecordBytes(last.v);
      assert rec[..|rec|] == rec;
      assert Run(ops) == Healed(Run(ops[..|ops| - 1])) + rec;
      CompleteLengthIs(Run(ops), |Run(ops)|);
    }
  }
}
