/** The record files: a digest length in brackets and Len/Msg/MD triples, one field a
    line, with blank lines and comments anywhere. */
module Rsp {
  import opened Prelude
  import opened Text
  import opened Decimal
  import Hex

  datatype RspError =
    | MissingLengthHeader
    | UnexpectedField(line: nat, expected: string)
    | InvalidInteger(line: nat, field: string)
    | InvalidHex(line: nat, field: string, source: Hex.HexError)
    | TruncatedRecord

  datatype Case = Case(lenBits: nat, msg: seq<byte>, md: seq<byte>)

  datatype Document = Document(digestLengthBytes: nat, cases: seq<Case>)

  /** `trim_end_matches('\r')`. */
  function StripReturns(s: string): (r: string)
    ensures |r| <= |s| && r == s[..|r|]
  {
    if s != [] && s[|s| - 1] == '\r' then StripReturns(s[..|s| - 1]) else s
  }

  function Clean(raw: string): string {
    Trim(StripReturns(raw))
  }

  /** A line split at its first `=`, both sides trimmed. */
  function SplitKv(line: string): Option<(string, string)> {
    var eq := IndexOf(line, '=', 0);
    if eq == |line| then None else Some((Trim(line[..eq]), Trim(line[eq + 1..])))
  }

  predicate IsBracketed(line: string) {
    |line| >= 2 && line[0] == '[' && line[|line| - 1] == ']'
  }

  predicate IsSkipped(line: string) {
    line == "" || line[0] == '#'
  }

  /** The record being built. */
  datatype State = State(digest: Option<nat>, cases: seq<Case>, len: Option<nat>, msg: Option<seq<byte>>)

  function NextExpected(st: State): string {
    if st.len.None? then "Len" else if st.msg.None? then "Msg" else "MD"
  }

  function HeaderStep(st: State, line: string, number: nat): Result<State, RspError>
    requires IsBracketed(line)
  {
    match SplitKv(line[1..|line| - 1])
    case None => Err(MissingLengthHeader)
    case Some(kv) =>
      if kv.0 != "L" then Err(MissingLengthHeader)
      else
        match ParseUnsigned(kv.1, TWO_64)
        case None => Err(InvalidInteger(number, "L"))
        case Some(n) => Ok(st.(digest := Some(n)))
  }

  function FieldStep(st: State, key: string, value: string, number: nat): Result<State, RspError> {
    if key == "Len" && st.len.None? && st.msg.None? then
      match ParseUnsigned(value, TWO_64)
      case None => Err(InvalidInteger(number, "Len"))
      case Some(n) => Ok(st.(len := Some(n)))
    else if key == "Msg" && st.len.Some? && st.msg.None? then
      match Hex.Decode(value)
      case Err(e) => Err(InvalidHex(number, "Msg", e))
      case Ok(b) => Ok(st.(msg := Some(b)))
    else if key == "MD" && st.len.Some? && st.msg.Some? then
      match Hex.Decode(value)
      case Err(e) => Err(InvalidHex(number, "MD", e))
      case Ok(b) => Ok(State(st.digest, st.cases + [Case(st.len.value, st.msg.value, b)], None, None))
    else Err(UnexpectedField(number, NextExpected(st)))
  }

  function Step(st: State, raw: string, number: nat): Result<State, RspError> {
    var line := Clean(raw);
    if IsSkipped(line) then Ok(st)
    else if IsBracketed(line) then HeaderStep(st, line, number)
    else
      match SplitKv(line)
      case None => Err(UnexpectedField(number, NextExpected(st)))
      case Some(kv) => FieldStep(st, kv.0, kv.1, number)
  }

  function ParseFrom(lines: seq<string>, k: nat, st: State): Result<State, RspError>
    requires k <= |lines|
    decreases |lines| - k
  {
    if k == |lines| then Ok(st)
    else
      match Step(st, lines[k], k + 1)
      case Err(e) => Err(e)
      case Ok(next) => ParseFrom(lines, k + 1, next)
  }

  function Finished(st: State): Result<Document, RspError> {
    if st.len.Some? || st.msg.Some? then Err(TruncatedRecord)
    else if st.digest.None? then Err(MissingLengthHeader)
    else Ok(Document(st.digest.value, st.cases))
  }

  const START := State(None, [], None, None)

  function Parse(src: string): Result<Document, RspError> {
    match ParseFrom(Split(src, "\n"), 0, START)
    case Err(e) => Err(e)
    case Ok(st) => Finished(st)
  }

  method ParseText(src: string) returns (r: Result<Document, RspError>)
    ensures r == Parse(src)
  {
    hide Split, Clean, SplitKv, IsSkipped, ParseUnsigned, Hex.Decode;
    var digestLength: Option<nat> := None;
    var cases: seq<Case> := [];
    var pendingLen: Option<nat> := None;
    var pendingMsg: Option<seq<byte>> := None;
    var lines := Split(src, "\n");
    for idx := 0 to |lines|
      invariant ParseFrom(lines, idx, State(digestLength, cases, pendingLen, pendingMsg)) == ParseFrom(lines, 0, START)
    {
      var lineNo := idx + 1;
      ghost var st := State(digestLength, cases, pendingLen, pendingMsg);
      var line := Clean(lines[idx]);
      if IsSkipped(line) { continue; }
      if IsBracketed(line) {
        var kv := SplitKv(line[1..|line| - 1]);
        if kv.None? || kv.value.0 != "L" { return Err(MissingLengthHeader); }
        var parsed := ParseUnsigned(kv.value.1, TWO_64);
        if parsed.None? { return Err(InvalidInteger(lineNo, "L")); }
        digestLength := parsed;
        continue;
      }
      var kv := SplitKv(line);
      if kv.None? { return Err(UnexpectedField(lineNo, NextExpected(State(digestLength, cases, pendingLen, pendingMsg)))); }
      var (key, value) := kv.value;
      if key == "Len" && pendingLen.None? && pendingMsg.None? {
        var parsed := ParseUnsigned(value, TWO_64);
        if parsed.None? { return Err(InvalidInteger(lineNo, "Len")); }
        pendingLen := parsed;
      } else if key == "Msg" && pendingLen.Some? && pendingMsg.None? {
        var decoded := Hex.DecodeText(value);
        if decoded.Err? { return Err(InvalidHex(lineNo, "Msg", decoded.error)); }
        pendingMsg := Some(decoded.value);
      } else if key == "MD" && pendingLen.Some? && pendingMsg.Some? {
        var decoded := Hex.DecodeText(value);
        if decoded.Err? { return Err(InvalidHex(lineNo, "MD", decoded.error)); }
        cases := cases + [Case(pendingLen.value, pendingMsg.value, decoded.value)];
        pendingLen, pendingMsg := None, None;
      } else {
        return Err(UnexpectedField(lineNo, NextExpected(State(digestLength, cases, pendingLen, pendingMsg))));
      }
    }
    if pendingLen.Some? || pendingMsg.Some? { return Err(TruncatedRecord); }
    if digestLength.None? { return Err(MissingLengthHeader); }
    return Ok(Document(digestLength.value, cases));
  }

  lemma StepKeepsPending(st: State, raw: string, number: nat)
    requires st.msg.Some? ==> st.len.Some?
    ensures Step(st, raw, number).Ok? ==> (Step(st, raw, number).value.msg.Some? ==> Step(st, raw, number).value.len.Some?)
  {
    hide Clean, SplitKv, IsSkipped, ParseUnsigned, Hex.Decode;
  }

  /** After every line of every file: a message is only ever pending under a length. */
  lemma {:induction false} PendingInvariant(lines: seq<string>, k: nat, st: State)
    requires k <= |lines| && (st.msg.Some? ==> st.len.Some?)
    ensures ParseFrom(lines, k, st).Ok? ==>
      (ParseFrom(lines, k, st).value.msg.Some? ==> ParseFrom(lines, k, st).value.len.Some?)
    decreases |lines| - k
  {
    hide Step;
    if k < |lines| {
      StepKeepsPending(st, lines[k], k + 1);
      match Step(st, lines[k], k + 1)
      case Err(_) =>
      case Ok(next) => PendingInvariant(lines, k + 1, next);
    }
  }
}
