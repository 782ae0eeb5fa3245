/** The main results about the integer-only codec. */
module JsonTheorems {
  import opened Prelude
  import opened JsonLex
  import opened Json
  import opened JsonWriter
  import opened JsonRoundTrip
  import opened JsonPrintRead
  import Utf8
  import Decimal

  /** Parsing a printed value, in either layout, accepts exactly the values whose
      objects have distinct keys and that nest at most 64 deep, and returns the
      mangled value. */
  lemma ParsePrinted(v: JsonValue, layout: Layout)
    ensures DistinctKeys(v) && Height(v) <= MAX_DEPTH ==> Parse(Render(v, layout, 0)) == Ok(Mangled(v))
    ensures !(DistinctKeys(v) && Height(v) <= MAX_DEPTH) ==> Parse(Render(v, layout, 0)).Err?
  {
    hide ReadValue, Render, Mangled, Readable;
    var text := Render(v, layout, 0);
    var b := Utf8.Encode(text);
    assert b[0..|b|] == b;
    ReadableIff(v, 0);
    RenderStart(v, layout, 0, b, 0);
    ReadRendered(v, layout, 0, b, 0, 0);
  }

  /** The round trip, with its exact condition. */
  lemma RoundTrip(v: JsonValue, layout: Layout)
    ensures Parse(Render(v, layout, 0)) == Ok(v)
       <==> DistinctKeys(v) && Height(v) <= MAX_DEPTH && TextsSurvive(v)
  {
    ParsePrinted(v, layout);
    MangledFixed(v);
  }

  /** The family the round trip fails on: a newline followed by e-acute. */
  lemma LatinAfterEscapeIsLost()
    ensures var v := String(['\n', 0xE9 as char]);
      Parse(Render(v, Compact, 0)) == Ok(String(['\n', 0xC3 as char, 0xA9 as char]))
  {
    hide Parse, Render, Readable;
    var t := ['\n', 0xE9 as char];
    ParsePrinted(String(t), Compact);
    assert t[1..] == [0xE9 as char];
    Utf8.EncodeOne(0xE9 as char);
    assert Utf8.EncodeChar(0xE9 as char) == [0xC3, 0xA9];
    assert Utf8.Latin1([0xC3, 0xA9]) == [0xC3 as char, 0xA9 as char];
    assert MangledText(t) == ['\n', 0xC3 as char, 0xA9 as char];
  }

  // ----- what every accepted document looks like

  lemma {:induction false} ReadValueReadable(s: seq<byte>, i: nat, depth: nat)
    requires i <= |s|
    ensures ReadValue(s, i, depth).Ok? ==> Readable(ReadValue(s, i, depth).value.0, depth)
    decreases |s| - i, 2
  {
    hide ReadString, ReadNumber, ReadItems, ReadMembers;
    var j := SkipWs(s, i);
    if depth <= MAX_DEPTH && j < |s| {
      if s[j] == LBRACE {
        ReadMembersReadable(s, SkipWs(s, j + 1), depth, []);
      } else if s[j] == LBRACKET {
        ReadItemsReadable(s, SkipWs(s, j + 1), depth, []);
      } else if IsDigitByte(s[j]) || s[j] == MINUS {
        ReadNumberIsNumber(s, j);
      }
    }
  }

  lemma ReadNumberIsNumber(s: seq<byte>, i: nat)
    requires i < |s| && (IsDigitByte(s[i]) || s[i] == MINUS)
    ensures ReadNumber(s, i).Ok? ==> ReadNumber(s, i).value.0.Number?
  {
  }

  lemma {:induction false} ReadItemsReadable(s: seq<byte>, i: nat, depth: nat, out: seq<JsonValue>)
    requires i <= |s| && depth <= MAX_DEPTH
    requires ItemsReadable(out, |out|, depth + 1)
    ensures ReadItems(s, i, depth, out).Ok? ==> Readable(ReadItems(s, i, depth, out).value.0, depth)
    decreases |s| - i, 3
  {
    hide ReadValue;
    ReadValueReadable(s, i, depth + 1);
    var r := ReadValue(s, i, depth + 1);
    if r.Ok? {
      var k := SkipWs(s, r.value.1);
      var all := out + [r.value.0];
      assert ItemsReadable(all, |all|, depth + 1);
      if k < |s| && s[k] == COMMA {
        ReadItemsReadable(s, k + 1, depth, all);
      }
    }
  }

  lemma {:induction false} ReadMembersReadable(s: seq<byte>, i: nat, depth: nat, out: seq<Member>)
    requires i <= |s| && depth <= MAX_DEPTH
    requires Readable(Object(out), depth)
    ensures ReadMembers(s, i, depth, out).Ok? ==> Readable(ReadMembers(s, i, depth, out).value.0, depth)
    decreases |s| - i, 4
  {
    hide ReadValue, ReadString;
    var r := ReadMember(s, i, depth, out);
    if r.Ok? {
      var (key, afterKey) := ReadString(s, SkipWs(s, i)).value;
      var j := Expect(s, SkipWs(s, afterKey), COLON).value;
      ReadValueReadable(s, j, depth + 1);
      var m := r.value.0;
      var all := out + [m];
      assert KeysDistinct(all) by {
        forall a, b | 0 <= a < b < |all| ensures all[a].key != all[b].key {
          if b == |out| { assert out[a] in out; }
        }
      }
      var k := SkipWs(s, r.value.1);
      if k < |s| && s[k] == COMMA {
        ReadMembersReadable(s, k + 1, depth, all);
      }
    }
  }

  /** Every accepted document nests at most 64 deep and repeats no key in an object. */
  lemma ParsedShape(text: string)
    ensures Parse(text).Ok? ==> Height(Parse(text).value) <= MAX_DEPTH && DistinctKeys(Parse(text).value)
  {
    hide ReadValue;
    var s := Utf8.Encode(text);
    ReadValueReadable(s, SkipWs(s, 0), 0);
    if Parse(text).Ok? { ReadableIff(Parse(text).value, 0); }
  }

  /** Whatever was parsed can be printed and parsed again, in either layout. */
  lemma ParsedPrintsParseably(text: string, layout: Layout)
    ensures Parse(text).Ok? ==> Parse(Render(Parse(text).value, layout, 0)) == Ok(Mangled(Parse(text).value))
  {
    ParsedShape(text);
    if Parse(text).Ok? { ParsePrinted(Parse(text).value, layout); }
  }

  // ----- compact output is one line

  predicate OneLine(t: string) {
    forall k :: 0 <= k < |t| ==> t[k] as int >= 0x20
  }

  lemma OneLineConcat(t: string, u: string)
    ensures OneLine(t + u) <==> OneLine(t) && OneLine(u)
  {
    if OneLine(t + u) {
      assert forall k :: 0 <= k < |t| ==> t[k] == (t + u)[k];
      assert forall k :: 0 <= k < |u| ==> u[k] == (t + u)[|t| + k];
    }
  }

  lemma {:induction false} EscapedOneLine(s: string)
    ensures OneLine(Escaped(s))
  {
    if s != [] { EscapedOneLine(s[1..]); }
  }

  lemma QuotedOneLine(s: string)
    ensures OneLine(Quoted(s))
  {
    EscapedOneLine(s);
  }

  lemma CommaOneLine(k: nat)
    ensures OneLine(Comma(k)) && OneLine(":") && OneLine(Break(Compact, 1))
  {
  }

  /** No compact rendering holds a control character, whatever its strings hold. */
  lemma {:induction false} CompactIsOneLine(v: JsonValue)
    ensures OneLine(Render(v, Compact, 0))
    decreases v, 0
  {
    hide RenderItems, RenderMembers, Escaped;
    match v
    case Number(n) =>
      var m: nat := if n < 0 then -(n as int) else n;
      assert OneLine(Decimal.NatText(m));
    case String(s) => EscapedOneLine(s);
    case Array(items) => ItemsOneLine(items, |items|);
    case Object(members) => MembersOneLine(members, |members|);
    case _ =>
  }

  lemma {:induction false} ItemsOneLine(items: seq<JsonValue>, n: nat)
    requires n <= |items|
    ensures OneLine(RenderItems(items, n, Compact, 1))
    decreases items, n
  {
    if n > 0 {
      hide OneLine, Render;
      var v := items[n - 1];
      ItemsOneLine(items, n - 1);
      CompactIsOneLine(v);
      RenderCompactIndent(v, 0, 1);
      CommaOneLine(n - 1);
      OneLineConcat(Comma(n - 1), Break(Compact, 1));
      OneLineConcat(Comma(n - 1) + Break(Compact, 1), Render(v, Compact, 1));
      OneLineConcat(RenderItems(items, n - 1, Compact, 1), Comma(n - 1) + Break(Compact, 1) + Render(v, Compact, 1));
    }
  }

  lemma {:induction false} MembersOneLine(members: seq<Member>, n: nat)
    requires n <= |members|
    ensures OneLine(RenderMembers(members, n, Compact, 1))
    decreases members, n
  {
    if n > 0 {
      hide OneLine, Render, Quoted;
      var m := members[n - 1];
      MembersOneLine(members, n - 1);
      QuotedOneLine(m.key);
      CompactIsOneLine(m.value);
      RenderCompactIndent(m.value, 0, 1);
      CommaOneLine(n - 1);
      OneLineConcat(Quoted(m.key), ":");
      OneLineConcat(Quoted(m.key) + ":", Render(m.value, Compact, 1));
      OneLineConcat(Comma(n - 1), Break(Compact, 1));
      OneLineConcat(Comma(n - 1) + Break(Compact, 1), RenderMember(m, Compact, 1));
      OneLineConcat(RenderMembers(members, n - 1, Compact, 1), Comma(n - 1) + Break(Compact, 1) + RenderMember(m, Compact, 1));
    }
  }
}
