/** What one line of a record file says, and which error a file comes to: the first line
    that does not say what is due there, or what the end of the file finds missing. */
module RspLines {
  import opened Prelude
  import opened Text
  import opened Decimal
  import opened Numerals
  import opened Rsp
  import opened RspFiles
  import Hex

  // ----- one line

  /** The text without the whitespace around it. */
  ghost predicate IsTrimmed(raw: string, t: string) {
    && (t == "" || (!IsWhitespace(t[0]) && !IsWhitespace(t[|t| - 1])))
    && exists a, b :: raw == a + t + b && AllWhitespace(a) && AllWhitespace(b)
  }

  ghost predicate Skips(raw: string) {
    exists t :: IsTrimmed(raw, t) && (t == "" || t[0] == '#')
  }

  /** The text is `key = value`, parted at its first `=`. */
  ghost predicate IsPair(t: string, key: string, value: string) {
    exists a, b :: t == a + "=" + b && Free(a, '=') && IsTrimmed(a, key) && IsTrimmed(b, value)
  }

  /** What a line says that counts. */
  ghost predicate Says(raw: string, e: Entry) {
    exists t :: IsTrimmed(raw, t) && t != "" && t[0] != '#' && IsEntry(t, e)
  }

  predicate InBrackets(t: string, inside: string) {
    t == "[" + inside + "]"
  }

  ghost predicate IsEntry(t: string, e: Entry) {
    match e
    case Header(Some((key, value))) => exists inside :: InBrackets(t, inside) && IsPair(inside, key, value)
    case Header(None) => exists inside :: InBrackets(t, inside) && Free(inside, '=')
    case Field(key, value) => (forall inside :: !InBrackets(t, inside)) && IsPair(t, key, value)
    case Junk => (forall inside :: !InBrackets(t, inside)) && Free(t, '=')
  }

  lemma TrimmedIff(raw: string, t: string)
    ensures IsTrimmed(raw, t) <==> Trim(raw) == t
  {
    hide Trim, IsTrimmed;
    TrimIsTrimmed(raw);
    if IsTrimmed(raw, t) { TrimmedIsTrim(raw, t); }
  }

  lemma TrimIsTrimmed(raw: string)
    ensures IsTrimmed(raw, Trim(raw))
  {
    hide IsWhitespace, Trim, AllWhitespace;
    var a, b := Trimmed(raw);
    TrimEnds(raw);
  }

  lemma TrimmedIsTrim(raw: string, t: string)
    requires IsTrimmed(raw, t)
    ensures Trim(raw) == t
  {
    hide IsWhitespace, Trim, AllWhitespace;
    var c, d :| raw == c + t + d && AllWhitespace(c) && AllWhitespace(d);
    if t == "" {
      assert raw == c + d;
      TrimSpace(c, d);
    } else {
      TrimAround(c, t, d);
    }
  }

  /** Carriage returns at the end are whitespace like any other. */
  lemma CleanIsTrim(raw: string)
    ensures Clean(raw) == Trim(raw)
  {
    hide IsWhitespace, Trim;
    var s := StripReturns(raw);
    ReturnsBehind(raw);
    var a, b := Trimmed(s);
    var t, rest := Trim(s), raw[|s|..];
    assert raw == s + rest;
    assert AllWhitespace(b + rest);
    assert raw == a + t + (b + rest);
    assert IsTrimmed(raw, t) by { TrimEnds(s); }
    TrimmedIff(raw, t);
  }

  lemma TrimEnds(s: string)
    ensures Trim(s) == "" || (!IsWhitespace(Trim(s)[0]) && !IsWhitespace(Trim(s)[|Trim(s)| - 1]))
  {
  }

  lemma {:induction false} ReturnsBehind(s: string)
    ensures AllWhitespace(s[|StripReturns(s)|..])
  {
    if s != [] && s[|s| - 1] == '\r' {
      var init := s[..|s| - 1];
      ReturnsBehind(init);
      assert s[|StripReturns(s)|..] == init[|StripReturns(init)|..] + [s[|s| - 1]];
    }
  }

  lemma PairIff(t: string, key: string, value: string)
    ensures SplitKv(t) == Some((key, value)) <==> IsPair(t, key, value)
  {
    hide IsWhitespace, Trim, IsTrimmed, IndexOf;
    var eq := IndexOf(t, '=', 0);
    if eq < |t| {
      TrimmedIff(t[..eq], key);
      TrimmedIff(t[eq + 1..], value);
      assert t == t[..eq] + "=" + t[eq + 1..];
    }
    if IsPair(t, key, value) {
      var a, b :| t == a + "=" + b && Free(a, '=') && IsTrimmed(a, key) && IsTrimmed(b, value);
      assert forall k :: 0 <= k < |a| ==> t[k] == a[k];
      IndexOfIs(t, '=', 0, |a|);
      assert t[..eq] == a && t[eq + 1..] == b;
    }
  }

  lemma NoPairIff(t: string)
    ensures SplitKv(t) == None <==> Free(t, '=')
  {
  }

  lemma BracketsIff(t: string, inside: string)
    ensures InBrackets(t, inside) <==> IsBracketed(t) && t[1..|t| - 1] == inside
  {
    if IsBracketed(t) { assert t == [t[0]] + t[1..|t| - 1] + [t[|t| - 1]]; }
    if InBrackets(t, inside) { assert t[1..|t| - 1] == inside; }
  }

  lemma EntryIff(t: string, e: Entry)
    ensures EntryOf(t) == e <==> IsEntry(t, e)
  {
    hide SplitKv, IsPair, InBrackets, Free;
    forall inside ensures InBrackets(t, inside) <==> IsBracketed(t) && t[1..|t| - 1] == inside {
      BracketsIff(t, inside);
    }
    if IsBracketed(t) {
      var inside := t[1..|t| - 1];
      NoPairIff(inside);
      assert InBrackets(t, inside);
      match e
      case Header(Some((key, value))) => PairIff(inside, key, value);
      case _ =>
    } else {
      NoPairIff(t);
      match e
      case Field(key, value) => PairIff(t, key, value);
      case _ =>
    }
  }

  /** The reader takes a line for what it says. */
  lemma LineIff(raw: string, e: Entry)
    ensures IsSkipped(Clean(raw)) <==> Skips(raw)
    ensures !IsSkipped(Clean(raw)) && EntryOf(Clean(raw)) == e <==> Says(raw, e)
  {
    hide IsTrimmed, Trim, EntryOf, IsEntry, Clean;
    CleanIsTrim(raw);
    forall t ensures IsTrimmed(raw, t) <==> Trim(raw) == t {
      TrimmedIff(raw, t);
    }
    EntryIff(Trim(raw), e);
    assert IsTrimmed(raw, Trim(raw));
  }

  // ----- the first fault

  const KEYS: seq<string> := ["Len", "Msg", "MD"]

  ghost predicate Reads(value: string) {
    exists n: nat :: n < 0x1_0000_0000_0000_0000 && SpellsUnsigned(value, n)
  }

  /** The entry does not say what is due, which is the field `KEYS[turn]` or a header. */
  ghost predicate IsFault(e: Entry, turn: nat, number: nat, err: RspError)
    requires turn < 3
  {
    match e
    case Junk => err == UnexpectedField(number, KEYS[turn])
    case Header(None) => err == MissingLengthHeader
    case Header(Some((key, value))) =>
      if key != "L" then err == MissingLengthHeader else !Reads(value) && err == InvalidInteger(number, "L")
    case Field(key, value) =>
      if key != KEYS[turn] then err == UnexpectedField(number, KEYS[turn])
      else if turn == 0 then !Reads(value) && err == InvalidInteger(number, "Len")
      else Hex.Decode(value).Err? && err == InvalidHex(number, key, Hex.Decode(value).error)
  }

  ghost predicate SaysField(raw: string) {
    exists key, value :: Says(raw, Field(key, value))
  }

  ghost predicate SaysHeader(raw: string) {
    exists kv :: Says(raw, Header(kv))
  }

  /** How many of the first `k` lines say a field. */
  ghost function FieldCount(lines: seq<string>, k: nat): nat
    requires k <= |lines|
  {
    if k == 0 then 0 else FieldCount(lines, k - 1) + (if SaysField(lines[k - 1]) then 1 else 0)
  }

  ghost predicate FaultAt(lines: seq<string>, k: nat, err: RspError) {
    k < |lines| && exists e :: Says(lines[k], e) && IsFault(e, FieldCount(lines, k) % 3, k + 1, err)
  }

  ghost predicate Faultless(lines: seq<string>, k: nat) {
    forall j, err :: 0 <= j < k ==> !FaultAt(lines, j, err)
  }

  ghost predicate AnyHeader(lines: seq<string>, k: nat)
    requires k <= |lines|
  {
    exists j :: 0 <= j < k && SaysHeader(lines[j])
  }

  predicate Sound(st: State) {
    st.msg.Some? ==> st.len.Some?
  }

  function Turn(st: State): nat {
    if st.len.None? then 0 else if st.msg.None? then 1 else 2
  }

  lemma ReadsIff(value: string)
    ensures ParseUnsigned(value, TWO_64).Some? <==> Reads(value)
  {
    hide SpellsUnsigned, ParseUnsigned;
    forall n: nat ensures ParseUnsigned(value, TWO_64) == Some(n) <==> n < TWO_64 && SpellsUnsigned(value, n) {
      ParseUnsignedIff(value, TWO_64, n);
    }
    if ParseUnsigned(value, TWO_64).Some? { assert SpellsUnsigned(value, ParseUnsigned(value, TWO_64).value); }
  }

  lemma FieldOutcome(st: State, key: string, value: string, number: nat, err: RspError)
    requires Sound(st)
    ensures FieldStep(st, key, value, number) == Err(err) <==> IsFault(Field(key, value), Turn(st), number, err)
    ensures FieldStep(st, key, value, number).Ok? ==>
      var next := FieldStep(st, key, value, number).value;
      Sound(next) && Turn(next) == (Turn(st) + 1) % 3 && next.digest == st.digest
  {
    hide Reads, ParseUnsigned, Hex.Decode;
    ReadsIff(value);
    assert KEYS[0] == "Len" && KEYS[1] == "Msg" && KEYS[2] == "MD";
    KeysDiffer();
  }

  lemma KeysDiffer()
    ensures "Len" != "Msg" && "Len" != "MD" && "Msg" != "MD"
  {
    assert "Len"[0] != "Msg"[0] && "Len"[0] != "MD"[0] && |"Msg"| != |"MD"|;
  }

  lemma HeaderOutcome(st: State, line: string, number: nat, err: RspError)
    requires Sound(st) && IsBracketed(line)
    ensures HeaderStep(st, line, number) == Err(err) <==> IsFault(EntryOf(line), Turn(st), number, err)
    ensures HeaderStep(st, line, number).Ok? ==>
      var next := HeaderStep(st, line, number).value;
      Sound(next) && Turn(next) == Turn(st) && next.digest.Some?
  {
    hide Reads, ParseUnsigned, SplitKv;
    var kv := SplitKv(line[1..|line| - 1]);
    if kv.Some? { ReadsIff(kv.value.1); }
  }

  /** The outcome of a step on an entry: its fault, or a state whose turn went on with a
      field and that knows of a header. */
  ghost predicate IsOutcome(r: Result<State, RspError>, st: State, e: Entry, number: nat, err: RspError) {
    && (r == Err(err) <==> IsFault(e, Turn(st), number, err))
    && (r.Ok? ==>
          && Sound(r.value) && Turn(r.value) == (Turn(st) + (if e.Field? then 1 else 0)) % 3
          && (r.value.digest.Some? <==> st.digest.Some? || e.Header?))
  }

  lemma StepOutcome(st: State, raw: string, number: nat, err: RspError)
    requires Sound(st) && !IsSkipped(Clean(raw))
    ensures IsOutcome(Step(st, raw, number), st, EntryOf(Clean(raw)), number, err)
  {
    hide Clean, IsSkipped, IsBracketed, SplitKv, FieldStep, HeaderStep, IsFault, Reads;
    var line := Clean(raw);
    if IsBracketed(line) {
      HeaderOutcome(st, line, number, err);
    } else if SplitKv(line).Some? {
      var (key, value) := SplitKv(line).value;
      FieldOutcome(st, key, value, number, err);
    } else {
      JunkFault(st, number, err);
    }
  }

  lemma JunkFault(st: State, number: nat, err: RspError)
    requires Sound(st)
    ensures IsFault(Junk, Turn(st), number, err) <==> err == UnexpectedField(number, NextExpected(st))
  {
    assert KEYS[0] == "Len" && KEYS[1] == "Msg" && KEYS[2] == "MD";
  }

  /** The state that the first `k` lines leave: whose turn it is, and whether there was a
      header. */
  ghost predicate IsReached(lines: seq<string>, k: nat, st: State)
    requires k <= |lines|
  {
    && ParseFrom(lines, 0, START) == ParseFrom(lines, k, st)
    && Sound(st) && Turn(st) == FieldCount(lines, k) % 3
    && (st.digest.Some? <==> AnyHeader(lines, k))
  }

  /** A line that counts, in the words of what it says. */
  lemma LineSays(lines: seq<string>, k: nat, err: RspError)
    requires k < |lines|
    ensures IsSkipped(Clean(lines[k])) ==> !SaysField(lines[k]) && !SaysHeader(lines[k]) && !FaultAt(lines, k, err)
    ensures !IsSkipped(Clean(lines[k])) ==>
      var e := EntryOf(Clean(lines[k]));
      && (SaysField(lines[k]) <==> e.Field?) && (SaysHeader(lines[k]) <==> e.Header?)
      && (FaultAt(lines, k, err) <==> IsFault(e, FieldCount(lines, k) % 3, k + 1, err))
  {
    hide Says, Clean, EntryOf, IsSkipped, IsFault, FieldCount;
    forall e ensures !IsSkipped(Clean(lines[k])) && EntryOf(Clean(lines[k])) == e <==> Says(lines[k], e) {
      LineIff(lines[k], e);
    }
    var e := EntryOf(Clean(lines[k]));
    if !IsSkipped(Clean(lines[k])) {
      assert Says(lines[k], e);
      match e
      case Field(key, value) => assert SaysField(lines[k]);
      case Header(kv) => assert SaysHeader(lines[k]);
      case Junk =>
    }
  }

  lemma ReachNext(lines: seq<string>, k: nat, st: State, err: RspError)
    requires k < |lines| && IsReached(lines, k, st)
    ensures Step(st, lines[k], k + 1) == Err(err) <==> FaultAt(lines, k, err)
    ensures Step(st, lines[k], k + 1).Ok? ==> IsReached(lines, k + 1, Step(st, lines[k], k + 1).value)
  {
    hide FaultAt, SaysField, SaysHeader, IsFault, EntryOf, Clean, IsSkipped, IsBracketed, SplitKv, FieldStep, HeaderStep;
    LineSays(lines, k, err);
    HeaderNext(lines, k);
    if !IsSkipped(Clean(lines[k])) { StepOutcome(st, lines[k], k + 1, err); }
  }

  lemma HeaderNext(lines: seq<string>, k: nat)
    requires k < |lines|
    ensures AnyHeader(lines, k + 1) <==> AnyHeader(lines, k) || SaysHeader(lines[k])
  {
    hide SaysHeader;
  }

  lemma {:induction false} Reach(lines: seq<string>, k: nat) returns (st: State)
    requires k <= |lines| && Faultless(lines, k)
    ensures IsReached(lines, k, st)
  {
    hide IsReached, FaultAt, Step;
    if k == 0 {
      st := START;
      StartReached(lines);
    } else {
      var before := Reach(lines, k - 1);
      var r := Step(before, lines[k - 1], k);
      if r.Err? { ReachNext(lines, k - 1, before, r.error); }
      assert r.Ok?;
      ReachNext(lines, k - 1, before, TruncatedRecord);
      st := r.value;
    }
  }

  lemma StartReached(lines: seq<string>)
    ensures IsReached(lines, 0, START)
  {
    hide ParseFrom, SaysHeader, SaysField;
    assert !AnyHeader(lines, 0);
  }

  /** The file's error is the fault of its first faulty line; a file without one fails
      only on a record that is not finished, or on a missing header. */
  lemma ErrorIff(src: string, err: RspError)
    ensures var lines := Split(src, "\n"); var n := |lines|;
      Parse(src) == Err(err) <==>
        || (exists k :: 0 <= k < n && FaultAt(lines, k, err) && Faultless(lines, k))
        || (Faultless(lines, n) && FieldCount(lines, n) % 3 != 0 && err == TruncatedRecord)
        || (Faultless(lines, n) && FieldCount(lines, n) % 3 == 0 && !AnyHeader(lines, n) && err == MissingLengthHeader)
  {
    hide Split, FaultAt, AnyHeader, Step, FieldCount, IsReached;
    var lines := Split(src, "\n");
    if Faultless(lines, |lines|) {
      var st := Reach(lines, |lines|);
      AtEnd(lines, st);
    } else {
      var j, fault :| 0 <= j < |lines| && FaultAt(lines, j, fault);
      var k := FirstFaulty(lines, j, fault);
      var st := Reach(lines, k);
      var f :| FaultAt(lines, k, f);
      FaultEnds(lines, k, st, f);
      if m :| 0 <= m < |lines| && FaultAt(lines, m, err) && Faultless(lines, m) {
        assert m == k;
        FaultEnds(lines, k, st, err);
      }
    }
  }

  lemma AtEnd(lines: seq<string>, st: State)
    requires IsReached(lines, |lines|, st)
    ensures ParseFrom(lines, 0, START) == Ok(st)
    ensures st.len.Some? || st.msg.Some? <==> FieldCount(lines, |lines|) % 3 != 0
    ensures st.digest.Some? <==> AnyHeader(lines, |lines|)
  {
    hide AnyHeader, FieldCount;
  }

  lemma FaultEnds(lines: seq<string>, k: nat, st: State, err: RspError)
    requires k < |lines| && IsReached(lines, k, st) && FaultAt(lines, k, err)
    ensures ParseFrom(lines, 0, START) == Err(err)
  {
    hide FaultAt, Step, AnyHeader, FieldCount;
    ReachNext(lines, k, st, err);
  }

  lemma {:induction false} FirstFaulty(lines: seq<string>, j: nat, err: RspError) returns (k: nat)
    requires j < |lines| && FaultAt(lines, j, err)
    ensures k <= j && Faultless(lines, k) && exists f :: FaultAt(lines, k, f)
    decreases j
  {
    hide FaultAt;
    if Faultless(lines, j) {
      k := j;
    } else {
      var i, f :| 0 <= i < j && FaultAt(lines, i, f);
      k := FirstFaulty(lines, i, f);
    }
  }
}
