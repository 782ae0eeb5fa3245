/** What a record file means, apart from its layout: when parsing succeeds and with
    what, and that every rendering of a document is read back. */
module RspFiles {
  import opened Prelude
  import opened Text
  import opened Decimal
  import opened Rsp
  import Hex

  /** One line that counts: a bracketed header, a `key = value` field, or neither. */
  datatype Entry = Header(kv: Option<(string, string)>) | Field(key: string, value: string) | Junk

  function EntryOf(line: string): Entry {
    if IsBracketed(line) then Header(SplitKv(line[1..|line| - 1]))
    else
      match SplitKv(line)
      case None => Junk
      case Some(kv) => Field(kv.0, kv.1)
  }

  /** The lines that count, from line `k` on. */
  function Entries(lines: seq<string>, k: nat): seq<Entry>
    requires k <= |lines|
    decreases |lines| - k
  {
    if k == |lines| then []
    else if IsSkipped(Clean(lines[k])) then Entries(lines, k + 1)
    else [EntryOf(Clean(lines[k]))] + Entries(lines, k + 1)
  }

  function EntriesOf(src: string): seq<Entry> {
    Entries(Split(src, "\n"), 0)
  }

  function HeaderLength(e: Entry): Option<nat> {
    if e.Header? && e.kv.Some? && e.kv.value.0 == "L" then ParseUnsigned(e.kv.value.1, TWO_64) else None
  }

  /** Every header is a readable `L`, and nothing is junk. */
  predicate HeadersFine(es: seq<Entry>) {
    forall k :: 0 <= k < |es| ==> !es[k].Junk? && (es[k].Header? ==> HeaderLength(es[k]).Some?)
  }

  /** The last header's length. */
  function LastLength(es: seq<Entry>): Option<nat> {
    if es == [] then None
    else if es[|es| - 1].Header? then HeaderLength(es[|es| - 1])
    else LastLength(es[..|es| - 1])
  }

  function Fields(es: seq<Entry>): (r: seq<Entry>)
    ensures forall k :: 0 <= k < |r| ==> r[k].Field?
  {
    if es == [] then []
    else if es[0].Field? then [es[0]] + Fields(es[1..])
    else Fields(es[1..])
  }

  /** The fields cut into Len, Msg, MD triples. */
  function Triples(fs: seq<Entry>): Option<seq<Case>>
    requires forall k :: 0 <= k < |fs| ==> fs[k].Field?
  {
    if fs == [] then Some([])
    else if |fs| < 3 || fs[0].key != "Len" || fs[1].key != "Msg" || fs[2].key != "MD" then None
    else
      var n, msg, md := ParseUnsigned(fs[0].value, TWO_64), Hex.Decode(fs[1].value), Hex.Decode(fs[2].value);
      if n.None? || msg.Err? || md.Err? then None
      else
        match Triples(fs[3..])
        case None => None
        case Some(rest) => Some([Case(n.value, msg.value, md.value)] + rest)
  }

  // ----- parsing is reading triples

  /** The rest of the fields, with a record begun. */
  function Resumed(len: Option<nat>, msg: Option<seq<byte>>, fs: seq<Entry>): Option<seq<Case>>
    requires forall k :: 0 <= k < |fs| ==> fs[k].Field?
    decreases |fs|
  {
    if fs == [] then if len.None? && msg.None? then Some([]) else None
    else if fs[0].key == "Len" && len.None? && msg.None? then
      match ParseUnsigned(fs[0].value, TWO_64)
      case None => None
      case Some(n) => Resumed(Some(n), None, fs[1..])
    else if fs[0].key == "Msg" && len.Some? && msg.None? then
      match Hex.Decode(fs[0].value)
      case Err(_) => None
      case Ok(b) => Resumed(len, Some(b), fs[1..])
    else if fs[0].key == "MD" && len.Some? && msg.Some? then
      match Hex.Decode(fs[0].value)
      case Err(_) => None
      case Ok(b) =>
        match Resumed(None, None, fs[1..])
        case None => None
        case Some(rest) => Some([Case(len.value, msg.value, b)] + rest)
    else None
  }

  /** From the start of a record, resuming is cutting triples. */
  lemma {:induction false} ResumedIsTriples(fs: seq<Entry>)
    requires forall k :: 0 <= k < |fs| ==> fs[k].Field?
    ensures Resumed(None, None, fs) == Triples(fs)
    decreases |fs|
  {
    hide ParseUnsigned, Hex.Decode;
    if fs != [] && fs[0].key == "Len" && ParseUnsigned(fs[0].value, TWO_64).Some? {
      var a, len := fs[1..], ParseUnsigned(fs[0].value, TWO_64);
      assert Resumed(None, None, fs) == Resumed(len, None, a);
      if a != [] && a[0].key == "Msg" && Hex.Decode(a[0].value).Ok? {
        var b, msg := a[1..], Some(Hex.Decode(a[0].value).value);
        assert a[0] == fs[1] && b == fs[2..];
        assert Resumed(len, None, a) == Resumed(len, msg, b);
        if b != [] && b[0].key == "MD" && Hex.Decode(b[0].value).Ok? {
          assert b[0] == fs[2] && b[1..] == fs[3..];
          ResumedIsTriples(fs[3..]);
        }
      }
    }
  }

  /** What the rest of the lines must be for parsing to succeed from a state. */
  predicate Succeeds(st: State, es: seq<Entry>) {
    HeadersFine(es) && Resumed(st.len, st.msg, Fields(es)).Some?
    && (st.digest.Some? || LastLength(es).Some?)
  }

  function Meaning(st: State, es: seq<Entry>): Document
    requires Succeeds(st, es)
  {
    Document(
      if LastLength(es).Some? then LastLength(es).value else st.digest.value,
      st.cases + Resumed(st.len, st.msg, Fields(es)).value)
  }

  function ParseRest(lines: seq<string>, k: nat, st: State): Result<Document, RspError>
    requires k <= |lines|
  {
    match ParseFrom(lines, k, st)
    case Err(e) => Err(e)
    case Ok(end) => Finished(end)
  }

  lemma {:induction false} LastLengthCons(e: Entry, es: seq<Entry>)
    requires HeadersFine([e] + es)
    ensures LastLength([e] + es) == if LastLength(es).Some? then LastLength(es) else if e.Header? then HeaderLength(e) else None
    decreases |es|
  {
    hide HeaderLength;
    var all := [e] + es;
    if es == [] {
      assert all[..0] == [] && all[|all| - 1] == e;
    } else {
      var init := es[..|es| - 1];
      assert all[|all| - 1] == es[|es| - 1] && all[..|all| - 1] == [e] + init;
      assert HeadersFine([e] + init) by {
        assert forall k :: 0 <= k < |[e] + init| ==> ([e] + init)[k] == all[k];
      }
      if !es[|es| - 1].Header? {
        LastLengthCons(e, init);
      } else {
        assert HeaderLength(all[|all| - 1]).Some?;
      }
    }
  }

  lemma HeadersFineCons(e: Entry, es: seq<Entry>)
    ensures HeadersFine([e] + es) <==> HeadersFine([e]) && HeadersFine(es)
  {
    hide HeaderLength;
    var all := [e] + es;
    assert forall k :: 0 <= k < |es| ==> es[k] == all[k + 1];
    if HeadersFine(all) {
      assert all[0] == e;
      forall k | 0 <= k < |es| ensures !es[k].Junk? && (es[k].Header? ==> HeaderLength(es[k]).Some?) {
        assert es[k] == all[k + 1];
      }
    }
    if HeadersFine([e]) && HeadersFine(es) {
      assert [e][0] == e;
      forall k | 0 <= k < |all| ensures !all[k].Junk? && (all[k].Header? ==> HeaderLength(all[k]).Some?) {
        assert k > 0 ==> all[k] == es[k - 1];
      }
    }
  }

  /** The effect of one entry on a state. */
  function EntryStep(st: State, e: Entry, number: nat): Result<State, RspError> {
    match e
    case Junk => Err(UnexpectedField(number, NextExpected(st)))
    case Header(_) => if HeaderLength(e).Some? then Ok(st.(digest := HeaderLength(e))) else Err(MissingLengthHeader)
    case Field(key, value) => FieldStep(st, key, value, number)
  }

  lemma StepByEntry(st: State, raw: string, number: nat)
    ensures IsSkipped(Clean(raw)) ==> Step(st, raw, number) == Ok(st)
    ensures !IsSkipped(Clean(raw)) ==>
      var r := EntryStep(st, EntryOf(Clean(raw)), number);
      (Step(st, raw, number).Ok? <==> r.Ok?) && (r.Ok? ==> Step(st, raw, number) == r)
  {
    hide Clean, SplitKv, ParseUnsigned, FieldStep;
  }

  /** One entry in front: success and meaning go over to the next state. */
  lemma EntryMeaning(st: State, e: Entry, es: seq<Entry>, number: nat)
    ensures var r := EntryStep(st, e, number);
      && (r.Err? ==> !Succeeds(st, [e] + es))
      && (r.Ok? ==> (Succeeds(st, [e] + es) <==> Succeeds(r.value, es)))
      && (r.Ok? && Succeeds(st, [e] + es) ==> Meaning(st, [e] + es) == Meaning(r.value, es))
  {
    hide ParseUnsigned, Hex.Decode, HeaderLength;
    HeadersFineCons(e, es);
    assert HeadersFine([e]) <==> !e.Junk? && (e.Header? ==> HeaderLength(e).Some?) by {
      assert [e][0] == e;
    }
    if HeadersFine([e] + es) {
      LastLengthCons(e, es);
    }
    FieldsCons(e, es);
    if e.Field? {
      ResumedCons(st, e, es, number);
    }
  }

  lemma FieldsCons(e: Entry, es: seq<Entry>)
    ensures Fields([e] + es) == (if e.Field? then [e] else []) + Fields(es)
  {
    assert ([e] + es)[1..] == es;
  }

  lemma ResumedCons(st: State, e: Entry, es: seq<Entry>, number: nat)
    requires e.Field?
    ensures var r := FieldStep(st, e.key, e.value, number); var fs := [e] + Fields(es);
      && (r.Err? ==> Resumed(st.len, st.msg, fs).None?)
      && (r.Ok? ==> r.value.digest == st.digest)
      && (r.Ok? ==> (Resumed(st.len, st.msg, fs).Some? <==> Resumed(r.value.len, r.value.msg, Fields(es)).Some?))
      && (r.Ok? && Resumed(st.len, st.msg, fs).Some? ==>
            st.cases + Resumed(st.len, st.msg, fs).value == r.value.cases + Resumed(r.value.len, r.value.msg, Fields(es)).value)
  {
    hide ParseUnsigned, Hex.Decode, Fields;
    var fs := [e] + Fields(es);
    assert fs[0] == e && fs[1..] == Fields(es);
  }

  lemma {:induction false} ParseRestIff(lines: seq<string>, k: nat, st: State)
    requires k <= |lines|
    ensures ParseRest(lines, k, st).Ok? <==> Succeeds(st, Entries(lines, k))
    ensures ParseRest(lines, k, st).Ok? ==> ParseRest(lines, k, st).value == Meaning(st, Entries(lines, k))
    decreases |lines| - k
  {
    hide Step, Clean, EntryOf, EntryStep, Succeeds, Meaning, IsSkipped;
    if k == |lines| {
      NothingLeft(st);
    } else {
      StepByEntry(st, lines[k], k + 1);
      if IsSkipped(Clean(lines[k])) {
        ParseRestIff(lines, k + 1, st);
      } else {
        var e, es := EntryOf(Clean(lines[k])), Entries(lines, k + 1);
        EntryMeaning(st, e, es, k + 1);
        if EntryStep(st, e, k + 1).Ok? {
          ParseRestIff(lines, k + 1, EntryStep(st, e, k + 1).value);
        }
      }
    }
  }

  lemma NothingLeft(st: State)
    ensures Finished(st).Ok? <==> Succeeds(st, [])
    ensures Succeeds(st, []) ==> Finished(st).value == Meaning(st, [])
  {
  }

  /** A file parses exactly when its headers are readable lengths, there is one, and
      its fields are Len/Msg/MD triples with readable values; then the cases are those
      triples in file order and the last header's length wins. */
  lemma ParseIff(src: string)
    ensures var es := EntriesOf(src);
      && (Parse(src).Ok? <==> HeadersFine(es) && LastLength(es).Some? && Triples(Fields(es)).Some?)
      && (Parse(src).Ok? ==> Parse(src).value == Document(LastLength(es).value, Triples(Fields(es)).value))
  {
    hide Entries, HeadersFine, LastLength, Fields, Triples, Resumed, Split, ParseFrom, Finished;
    ParseRestIff(Split(src, "\n"), 0, START);
    ResumedIsTriples(Fields(EntriesOf(src)));
    assert Parse(src) == ParseRest(Split(src, "\n"), 0, START);
  }

  /** Layout is invisible: files with the same entries parse to the same document. */
  lemma SameEntriesSameDocument(a: string, b: string)
    requires EntriesOf(a) == EntriesOf(b)
    ensures Parse(a).Ok? <==> Parse(b).Ok?
    ensures Parse(a).Ok? ==> Parse(a) == Parse(b)
  {
    hide EntriesOf, Parse, HeadersFine, LastLength, Fields, Triples;
    ParseIff(a);
    ParseIff(b);
  }

  // ----- rendering

  function FieldText(key: string, value: string): string {
    key + " = " + value
  }

  function CaseLines(c: Case): seq<string> {
    [FieldText("Len", NatText(c.lenBits)), FieldText("Msg", Hex.EncodeUpper(c.msg)), FieldText("MD", Hex.EncodeUpper(c.md))]
  }

  function CasesLines(cs: seq<Case>): seq<string> {
    if cs == [] then [] else CaseLines(cs[0]) + CasesLines(cs[1..])
  }

  function DocumentLines(d: Document): seq<string> {
    ["[" + FieldText("L", NatText(d.digestLengthBytes)) + "]"] + CasesLines(d.cases)
  }

  predicate Representable(d: Document) {
    d.digestLengthBytes < TWO_64 && forall k :: 0 <= k < |d.cases| ==> d.cases[k].lenBits < TWO_64
  }

  /** A source line holds the text: it is the text once whitespace and carriage returns
      around it are gone. */
  predicate Holds(raw: string, text: string) {
    Clean(raw) == Trim(text)
  }

  /** The source lines are the content lines, dressed, in order, with any blank or
      comment lines between. */
  predicate IsLayout(raws: seq<string>, contents: seq<string>)
    decreases |raws|
  {
    if raws == [] then contents == []
    else if IsSkipped(Clean(raws[0])) then IsLayout(raws[1..], contents)
    else contents != [] && Holds(raws[0], contents[0]) && IsLayout(raws[1..], contents[1..])
  }

  function EntriesFor(contents: seq<string>): seq<Entry> {
    if contents == [] then [] else [EntryOf(Trim(contents[0]))] + EntriesFor(contents[1..])
  }

  lemma {:induction false} LayoutEntries(raws: seq<string>, k: nat, contents: seq<string>)
    requires k <= |raws| && IsLayout(raws[k..], contents)
    ensures Entries(raws, k) == EntriesFor(contents)
    decreases |raws| - k
  {
    hide Clean, EntryOf, IsSkipped, Trim;
    if k < |raws| {
      assert raws[k..][0] == raws[k] && raws[k..][1..] == raws[k + 1..];
      if IsSkipped(Clean(raws[k])) {
        LayoutEntries(raws, k + 1, contents);
      } else {
        LayoutEntries(raws, k + 1, contents[1..]);
      }
    }
  }

  /** Whitespace and carriage returns around a text do not hide it. */
  lemma DressedHolds(left: string, core: string, right: string, count: nat)
    requires AllWhitespace(left) && AllWhitespace(right)
    requires core != [] && !IsWhitespace(core[0]) && !IsWhitespace(core[|core| - 1])
    ensures Clean(left + core + right + Returns(count)) == core
    ensures Holds(left + core + right + Returns(count), core)
  {
    assert IsWhitespace('\r');
    hide IsWhitespace, Trim;
    var s := left + core + right;
    ReturnsAreWhitespace(count);
    assert AllWhitespace(right + Returns(count));
    assert (left + core)[|left + core| - 1] == core[|core| - 1];
    StripWithin(s + Returns(count), left + core, right + Returns(count));
    var kept := StripReturns(s + Returns(count));
    assert s + Returns(count) == left + core + (right + Returns(count));
    TrimAround(left, core, kept[|left + core|..]);
    assert kept == left + core + kept[|left + core|..];
    TrimAround("", core, "");
    assert "" + core + "" == core;
  }

  function Returns(n: nat): (r: string)
    ensures |r| == n && forall k :: 0 <= k < n ==> r[k] == '\r'
  {
    seq(n, _ => '\r')
  }

  lemma ReturnsAreWhitespace(n: nat)
    ensures AllWhitespace(Returns(n))
  {
  }

  /** Stripping returns takes off no more than the whitespace behind the core. */
  lemma {:induction false} StripWithin(s: string, head: string, tail: string)
    requires s == head + tail && head != [] && head[|head| - 1] != '\r' && AllWhitespace(tail)
    ensures |StripReturns(s)| >= |head|
    ensures AllWhitespace(StripReturns(s)[|head|..])
    decreases |tail|
  {
    hide IsWhitespace;
    if tail == [] {
      assert s == head;
    } else if s[|s| - 1] == '\r' {
      assert s[..|s| - 1] == head + tail[..|tail| - 1];
      StripWithin(s[..|s| - 1], head, tail[..|tail| - 1]);
    } else {
      assert s[|head|..] == tail;
    }
  }

  // ----- rendered lines are the entries they say

  predicate Plain(s: string) {
    forall k :: 0 <= k < |s| ==> !IsWhitespace(s[k]) && s[k] != '='
  }

  lemma TrimWhole(core: string)
    requires core != [] && !IsWhitespace(core[0]) && !IsWhitespace(core[|core| - 1])
    ensures Trim(core) == core
  {
    hide IsWhitespace, Trim;
    TrimAround("", core, "");
    assert "" + core + "" == core;
  }

  /** A field text, trimmed: an empty value takes the space before it along. */
  lemma TrimField(key: string, value: string)
    requires key != [] && Plain(key) && Plain(value)
    ensures Trim(FieldText(key, value)) == if value == "" then key + " =" else FieldText(key, value)
  {
    hide Trim;
    var core := if value == "" then key + " =" else FieldText(key, value);
    assert core[0] == key[0];
    assert value != "" ==> core[|core| - 1] == value[|value| - 1];
    assert value == "" ==> core[|core| - 1] == '=';
    if value == "" {
      TrimAround("", core, " ");
      assert "" + core + " " == FieldText(key, value);
    } else {
      TrimWhole(core);
    }
  }

  lemma EqualsAt(key: string, line: string)
    requires Plain(key) && |line| >= |key| + 2 && line[..|key| + 1] == key + " " && line[|key| + 1] == '='
    ensures IndexOf(line, '=', 0) == |key| + 1
  {
    hide IsWhitespace;
    var eq := |key| + 1;
    assert forall k :: 0 <= k < eq ==> line[k] == line[..eq][k] == (key + " ")[k];
    IndexOfIs(line, '=', 0, eq);
  }

  lemma FieldSplits(key: string, value: string, line: string)
    requires key != [] && Plain(key) && Plain(value)
    requires line == if value == "" then key + " =" else FieldText(key, value)
    ensures SplitKv(line) == Some((key, value))
  {
    hide Trim;
    var eq := |key| + 1;
    assert line[..eq] == key + " " && line[eq] == '=';
    EqualsAt(key, line);
    TrimAround("", key, " ");
    assert "" + key + " " == key + " ";
    if value == "" {
      assert line[eq + 1..] == "";
      TrimNothing();
    } else {
      assert line[eq + 1..] == " " + value;
      TrimAround(" ", value, "");
      assert " " + value + "" == " " + value;
    }
  }

  lemma TrimNothing()
    ensures Trim("") == ""
  {
  }

  lemma FieldEntry(key: string, value: string)
    requires key != [] && Plain(key) && Plain(value) && key[0] != '[' && key[0] != '#'
    ensures EntryOf(Trim(FieldText(key, value))) == Field(key, value)
  {
    hide Trim, SplitKv, IsWhitespace;
    TrimField(key, value);
    FieldSplits(key, value, Trim(FieldText(key, value)));
    assert Trim(FieldText(key, value))[0] == key[0];
  }

  lemma HeaderEntry(key: string, value: string)
    requires key != [] && Plain(key) && Plain(value) && value != ""
    ensures EntryOf(Trim("[" + FieldText(key, value) + "]")) == Header(Some((key, value)))
  {
    hide Trim, SplitKv;
    var line := "[" + FieldText(key, value) + "]";
    TrimWhole(line);
    assert line[1..|line| - 1] == FieldText(key, value);
    FieldSplits(key, value, FieldText(key, value));
  }

  lemma DigitsArePlain(n: nat)
    ensures Plain(NatText(n)) && NatText(n) != ""
  {
    hide NatValue;
    assert forall k :: 0 <= k < |NatText(n)| ==> IsDigit(NatText(n)[k]);
  }

  lemma HexIsPlain(b: seq<byte>)
    ensures Plain(Hex.EncodeUpper(b))
  {
    forall k | 0 <= k < |Hex.EncodeUpper(b)| ensures !IsWhitespace(Hex.EncodeUpper(b)[k]) && Hex.EncodeUpper(b)[k] != '=' {
      Hex.EncodedDigits(b, k / 2);
      assert k == 2 * (k / 2) || k == 2 * (k / 2) + 1;
      UpperDigitIsPlain(b[k / 2] as int / 16);
      UpperDigitIsPlain(b[k / 2] as int % 16);
    }
  }

  lemma UpperDigitIsPlain(n: nat)
    requires n < 16
    ensures !IsWhitespace(Hex.UpperDigit(n)) && Hex.UpperDigit(n) != '='
  {
  }

  lemma KeysArePlain()
    ensures Plain("L") && Plain("Len") && Plain("Msg") && Plain("MD")
  {
  }

  function CaseEntries(cs: seq<Case>): (r: seq<Entry>)
    ensures forall k :: 0 <= k < |r| ==> r[k].Field?
  {
    if cs == [] then []
    else
      [Field("Len", NatText(cs[0].lenBits)), Field("Msg", Hex.EncodeUpper(cs[0].msg)), Field("MD", Hex.EncodeUpper(cs[0].md))]
      + CaseEntries(cs[1..])
  }

  lemma EntriesForThree(a: string, b: string, c: string, rest: seq<string>)
    ensures EntriesFor([a, b, c] + rest) == [EntryOf(Trim(a)), EntryOf(Trim(b)), EntryOf(Trim(c))] + EntriesFor(rest)
  {
    hide EntryOf, Trim;
    var all := [a, b, c] + rest;
    assert all[1..] == [b, c] + rest && ([b, c] + rest)[1..] == [c] + rest && ([c] + rest)[1..] == rest;
    assert EntriesFor([c] + rest) == [EntryOf(Trim(c))] + EntriesFor(rest);
    assert EntriesFor([b, c] + rest) == [EntryOf(Trim(b))] + EntriesFor([c] + rest);
    assert EntriesFor(all) == [EntryOf(Trim(a))] + EntriesFor([b, c] + rest);
  }

  lemma {:induction false} CasesEntries(cs: seq<Case>)
    ensures EntriesFor(CasesLines(cs)) == CaseEntries(cs)
  {
    hide EntryOf, Trim, NatText, Hex.EncodeUpper, FieldText, Plain;
    if cs != [] {
      var c := cs[0];
      CasesEntries(cs[1..]);
      KeysArePlain();
      DigitsArePlain(c.lenBits);
      HexIsPlain(c.msg);
      HexIsPlain(c.md);
      FieldEntry("Len", NatText(c.lenBits));
      FieldEntry("Msg", Hex.EncodeUpper(c.msg));
      FieldEntry("MD", Hex.EncodeUpper(c.md));
      var l := CaseLines(c);
      EntriesForThree(l[0], l[1], l[2], CasesLines(cs[1..]));
      assert CasesLines(cs) == [l[0], l[1], l[2]] + CasesLines(cs[1..]);
    }
  }

  lemma {:induction false} CaseEntriesMean(cs: seq<Case>)
    requires forall k :: 0 <= k < |cs| ==> cs[k].lenBits < TWO_64
    ensures Triples(CaseEntries(cs)) == Some(cs)
  {
    hide NatText, Hex.EncodeUpper, Hex.Decode, ParseUnsigned;
    if cs != [] {
      var c := cs[0];
      CaseEntriesMean(cs[1..]);
      ParseUnsignedNatText(c.lenBits, TWO_64);
      Hex.DecodeEncoded(c.msg);
      Hex.DecodeEncoded(c.md);
      assert CaseEntries(cs)[3..] == CaseEntries(cs[1..]);
      assert [c] + cs[1..] == cs;
    }
  }

  lemma {:induction false} OnlyFields(fs: seq<Entry>)
    requires forall k :: 0 <= k < |fs| ==> fs[k].Field?
    ensures Fields(fs) == fs && LastLength(fs) == None
  {
    if fs != [] {
      OnlyFields(fs[1..]);
      OnlyFields(fs[..|fs| - 1]);
    }
  }

  lemma DocumentStart(d: Document)
    ensures EntriesFor(DocumentLines(d)) == [Header(Some(("L", NatText(d.digestLengthBytes))))] + CaseEntries(d.cases)
  {
    hide EntryOf, Trim, NatText, CasesLines, CaseEntries, Plain, FieldText;
    var lines, n := DocumentLines(d), NatText(d.digestLengthBytes);
    KeysArePlain();
    DigitsArePlain(d.digestLengthBytes);
    HeaderEntry("L", n);
    CasesEntries(d.cases);
    assert lines[1..] == CasesLines(d.cases);
  }

  lemma HeaderIsFine(n: nat)
    requires n < TWO_64
    ensures var h := Header(Some(("L", NatText(n)))); HeaderLength(h) == Some(n) && HeadersFine([h])
  {
    hide NatText;
    ParseUnsignedNatText(n, TWO_64);
  }

  lemma DocumentEntries(d: Document)
    requires Representable(d)
    ensures var es := EntriesFor(DocumentLines(d));
      && HeadersFine(es) && LastLength(es) == Some(d.digestLengthBytes) && Triples(Fields(es)) == Some(d.cases)
  {
    hide EntriesFor, DocumentLines, NatText, Triples, HeaderLength, CaseEntries, LastLength, Fields;
    var h, fs := Header(Some(("L", NatText(d.digestLengthBytes)))), CaseEntries(d.cases);
    DocumentStart(d);
    HeaderIsFine(d.digestLengthBytes);
    CaseEntriesMean(d.cases);
    OnlyFields(fs);
    FieldsCons(h, fs);
    assert [] + fs == fs;
    HeadersFineCons(h, fs);
    LastLengthCons(h, fs);
  }

  /** Any rendering of a document, with blank and comment lines, carriage returns and
      surrounding whitespace anywhere, parses to that document. */
  lemma RenderedParses(d: Document, raws: seq<string>)
    requires Representable(d)
    requires forall k :: 0 <= k < |raws| ==> Free(raws[k], '\n')
    requires IsLayout(raws, DocumentLines(d))
    ensures Parse(Join(raws, "\n")) == Ok(d)
  {
    hide IsLayout, EntriesFor, DocumentLines, HeadersFine, LastLength, Fields, Triples, Parse, Split, Join, Free;
    LayoutNonempty(raws, d);
    SplitJoin(raws, "\n");
    assert raws[0..] == raws;
    LayoutEntries(raws, 0, DocumentLines(d));
    DocumentEntries(d);
    ParseIff(Join(raws, "\n"));
  }

  lemma LayoutNonempty(raws: seq<string>, d: Document)
    requires IsLayout(raws, DocumentLines(d))
    ensures raws != []
  {
  }
}
