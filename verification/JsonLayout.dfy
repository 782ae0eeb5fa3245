/** The printed text of a value, character by character: which spelling each character
    of a string gets, and where the brackets, commas, colons, line breaks and indentation
    of the two layouts stand. */
module JsonLayout {
  import opened Prelude
  import opened Text
  import opened Numerals
  import opened Json
  import opened JsonWriter
  import Decimal
  import S = LiteStrings

  // ----- strings

  /** The characters that have an escape of one letter and are always printed with it. */
  predicate HasShort(c: char) {
    c as int in [0x22, 0x5C, 0x08, 0x09, 0x0A, 0x0C, 0x0D]
  }

  /** How a character is printed: a one-letter escape of section 7 of RFC 8259, or four
      lower-case hex digits, or itself. */
  predicate IsSpelling(c: char, t: string) {
    if HasShort(c) then |t| == 2 && t[0] == '\\' && t[1] as int < 0x80 && S.IsShort(t[1] as int, c as int)
    else if c as int < 0x20 then
      t == "\\u00" + ["0123456789abcdef"[c as int / 16], "0123456789abcdef"[c as int % 16]]
    else t == [c]
  }

  predicate AreSpellings(s: string, parts: seq<string>) {
    |parts| == |s| && forall k :: 0 <= k < |s| ==> IsSpelling(s[k], parts[k])
  }

  ghost predicate IsQuoted(s: string, text: string) {
    exists parts :: AreSpellings(s, parts) && text == "\"" + Join(parts, "") + "\""
  }

  lemma LowerHexIs(n: nat)
    requires n < 16
    ensures LowerHex(n) == "0123456789abcdef"[n]
  {
    var u := "0123456789abcdef";
    assert u[0] == '0' && u[1] == '1' && u[2] == '2' && u[3] == '3' && u[4] == '4' && u[5] == '5' && u[6] == '6' && u[7] == '7';
    assert u[8] == '8' && u[9] == '9' && u[10] == 'a' && u[11] == 'b' && u[12] == 'c' && u[13] == 'd' && u[14] == 'e' && u[15] == 'f';
  }

  lemma ControlDigits(n: nat)
    requires n < 0x20
    ensures "\\u" + HexDigits(n) == "\\u00" + ["0123456789abcdef"[n / 16], "0123456789abcdef"[n % 16]]
  {
    LowerHexIs(0);
    LowerHexIs(n / 16);
    LowerHexIs(n % 16);
    assert n / 0x1000 % 16 == 0 && n / 0x100 % 16 == 0 && n / 0x10 % 16 == n / 16;
  }

  lemma SpellingIff(c: char, t: string)
    ensures EscapeChar(c) == t <==> IsSpelling(c, t)
  {
    hide HexDigits;
    if HasShort(c) {
      if |t| == 2 { assert t == [t[0], t[1]]; }
    } else if c as int < 0x20 {
      ControlDigits(c as int);
    }
  }

  function SpellingsOf(s: string): (r: seq<string>)
    ensures |r| == |s| && forall k :: 0 <= k < |s| ==> r[k] == EscapeChar(s[k])
  {
    seq(|s|, k requires 0 <= k < |s| => EscapeChar(s[k]))
  }

  lemma {:induction false} EscapedIsJoined(s: string)
    ensures Escaped(s) == Join(SpellingsOf(s), "")
  {
    hide EscapeChar;
    if s != [] {
      EscapedIsJoined(s[1..]);
      var parts := SpellingsOf(s);
      assert parts[1..] == SpellingsOf(s[1..]);
      if |s| == 1 { assert Escaped(s[1..]) == ""; }
      assert "" + Join(parts[1..], "") == Join(parts[1..], "");
    }
  }

  lemma QuotedIff(s: string, text: string)
    ensures Quoted(s) == text <==> IsQuoted(s, text)
  {
    hide EscapeChar, IsSpelling, Join;
    forall c, t ensures EscapeChar(c) == t <==> IsSpelling(c, t) {
      SpellingIff(c, t);
    }
    EscapedIsJoined(s);
    assert AreSpellings(s, SpellingsOf(s));
    forall parts | AreSpellings(s, parts) ensures parts == SpellingsOf(s) { }
  }

  // ----- layout

  /** A line break and two spaces for every level; nothing in the compact layout. */
  function NewLine(layout: Layout, level: nat): string {
    if layout == Compact then "" else "\n" + seq(2 * level, _ => ' ')
  }

  function Colon(layout: Layout): string {
    if layout == Compact then ":" else ": "
  }

  lemma {:induction false} IndentIs(level: nat)
    ensures Indent(level) == seq(2 * level, _ => ' ')
  {
    if level > 0 { IndentIs(level - 1); }
  }

  lemma BreakIs(layout: Layout, level: nat)
    ensures Break(layout, level) == NewLine(layout, level)
  {
    IndentIs(level);
  }

  /** Each part on a line of its own. */
  function Lines(layout: Layout, level: nat, parts: seq<string>): (r: seq<string>)
    ensures |r| == |parts| && forall k :: 0 <= k < |parts| ==> r[k] == NewLine(layout, level) + parts[k]
  {
    seq(|parts|, k requires 0 <= k < |parts| => NewLine(layout, level) + parts[k])
  }

  /** The parts of a container between its brackets, one level further in. */
  function Listed(layout: Layout, level: nat, open: string, parts: seq<string>, close: string): string {
    if parts == [] then open + close
    else open + Join(Lines(layout, level + 1, parts), ",") + NewLine(layout, level) + close
  }

  /** A sign for a negative number, then its digits without a redundant zero. */
  ghost predicate IsInteger(n: int, text: string) {
    if n >= 0 then IsPlain(n, text) else text != "" && text[0] == '-' && IsPlain(-n, text[1..])
  }

  ghost predicate IsPlain(n: nat, text: string) {
    Spells(text, n) && (|text| > 1 ==> text[0] != '0')
  }

  /** The text of a value in a layout, at a level. */
  ghost predicate IsPrinted(v: JsonValue, layout: Layout, level: nat, text: string)
    decreases v
  {
    match v
    case Null => text == "null"
    case Bool(b) => text == if b then "true" else "false"
    case Number(n) => IsInteger(n, text)
    case String(s) => IsQuoted(s, text)
    case Array(items) =>
      exists parts ::
        && |parts| == |items| && (forall k :: 0 <= k < |items| ==> IsPrinted(items[k], layout, level + 1, parts[k]))
        && text == Listed(layout, level, "[", parts, "]")
    case Object(members) =>
      exists keys, values ::
        && |keys| == |values| == |members|
        && (forall k :: 0 <= k < |members| ==> IsQuoted(members[k].key, keys[k]))
        && (forall k :: 0 <= k < |members| ==> IsPrinted(members[k].value, layout, level + 1, values[k]))
        && text == Listed(layout, level, "{", Pairs(layout, keys, values), "}")
  }

  function Pairs(layout: Layout, keys: seq<string>, values: seq<string>): (r: seq<string>)
    requires |keys| == |values|
    ensures |r| == |keys| && forall k :: 0 <= k < |keys| ==> r[k] == keys[k] + Colon(layout) + values[k]
  {
    seq(|keys|, k requires 0 <= k < |keys| => keys[k] + Colon(layout) + values[k])
  }

  // ----- the printer

  lemma IntegerIff(n: i64, text: string)
    ensures Decimal.IntText(n) == text <==> IsInteger(n, text)
  {
    hide Spells, Decimal.NatText;
    if n >= 0 {
      NatTextIff(n, text);
    } else {
      if text != "" {
        NatTextIff(-(n as int), text[1..]);
        assert text == [text[0]] + text[1..];
      }
    }
  }

  function Renders(items: seq<JsonValue>, layout: Layout, level: nat): (r: seq<string>)
    ensures |r| == |items| && forall k :: 0 <= k < |items| ==> r[k] == Render(items[k], layout, level)
  {
    seq(|items|, k requires 0 <= k < |items| => Render(items[k], layout, level))
  }

  function MemberRenders(members: seq<Member>, layout: Layout, level: nat): (r: seq<string>)
    ensures |r| == |members| && forall k :: 0 <= k < |members| ==> r[k] == RenderMember(members[k], layout, level)
  {
    seq(|members|, k requires 0 <= k < |members| => RenderMember(members[k], layout, level))
  }

  /** One more line behind a comma. */
  lemma LineAdded(layout: Layout, level: nat, parts: seq<string>, n: nat)
    requires 0 < n <= |parts|
    ensures Join(Lines(layout, level, parts[..n]), ",")
         == (if n == 1 then "" else Join(Lines(layout, level, parts[..n - 1]), ",")) + ((if n == 1 then "" else ",") + NewLine(layout, level) + parts[n - 1])
  {
    hide NewLine;
    var before, line := Lines(layout, level, parts[..n - 1]), NewLine(layout, level) + parts[n - 1];
    assert Lines(layout, level, parts[..n]) == before + [line];
    if n == 1 {
      assert before == [];
      assert [] + [line] == [line];
      assert "" + NewLine(layout, level) == NewLine(layout, level);
      assert "" + line == line;
    } else {
      JoinSnoc(before, line, ",");
      assert "," + line == "," + NewLine(layout, level) + parts[n - 1];
    }
  }

  lemma {:induction false} ItemsJoined(items: seq<JsonValue>, n: nat, layout: Layout, inner: nat)
    requires 0 < n <= |items|
    ensures RenderItems(items, n, layout, inner) == Join(Lines(layout, inner, Renders(items, layout, inner)[..n]), ",")
  {
    hide Render, Break, NewLine, Join, Lines;
    LineAdded(layout, inner, Renders(items, layout, inner), n);
    BreakIs(layout, inner);
    if n > 1 { ItemsJoined(items, n - 1, layout, inner); } else { assert RenderItems(items, 0, layout, inner) == ""; }
  }

  lemma {:induction false} MembersJoined(members: seq<Member>, n: nat, layout: Layout, inner: nat)
    requires 0 < n <= |members|
    ensures RenderMembers(members, n, layout, inner) == Join(Lines(layout, inner, MemberRenders(members, layout, inner)[..n]), ",")
  {
    hide RenderMember, Break, NewLine, Join, Lines;
    LineAdded(layout, inner, MemberRenders(members, layout, inner), n);
    BreakIs(layout, inner);
    if n > 1 { MembersJoined(members, n - 1, layout, inner); } else { assert RenderMembers(members, 0, layout, inner) == ""; }
  }

  lemma ArrayListed(items: seq<JsonValue>, layout: Layout, level: nat)
    ensures Render(Array(items), layout, level) == Listed(layout, level, "[", Renders(items, layout, level + 1), "]")
  {
    hide Break, NewLine, Join, Lines, RenderItems;
    if items == [] {
      assert "[" + "]" == "[]";
    } else {
      ItemsJoined(items, |items|, layout, level + 1);
      BreakIs(layout, level);
      var parts := Renders(items, layout, level + 1);
      assert parts[..|items|] == parts;
    }
  }

  lemma ObjectListed(members: seq<Member>, layout: Layout, level: nat)
    ensures Render(Object(members), layout, level) == Listed(layout, level, "{", MemberRenders(members, layout, level + 1), "}")
  {
    hide Break, NewLine, Join, Lines, RenderMembers, RenderMember;
    if members == [] {
      assert "{" + "}" == "{}";
    } else {
      MembersJoined(members, |members|, layout, level + 1);
      BreakIs(layout, level);
      var parts := MemberRenders(members, layout, level + 1);
      assert parts[..|members|] == parts;
    }
  }

  /** The printers' text is the one that the layout asks for, and there is no other. */
  lemma {:induction false} RenderIff(v: JsonValue, layout: Layout, level: nat, text: string)
    ensures Render(v, layout, level) == text <==> IsPrinted(v, layout, level, text)
    decreases v, 0
  {
    hide Listed, IsInteger, IsQuoted, Decimal.IntText;
    match v
    case Null =>
    case Bool(_) =>
    case Number(n) => IntegerIff(n, text);
    case String(s) => QuotedIff(s, text);
    case Array(items) => ArrayIff(items, layout, level, text);
    case Object(members) => ObjectIff(members, layout, level, text);
  }

  /** The text is the one of the value, and no other is. */
  ghost predicate PrintsAs(v: JsonValue, layout: Layout, level: nat, part: string) {
    forall t :: IsPrinted(v, layout, level, t) <==> t == part
  }

  ghost predicate QuotesAs(s: string, part: string) {
    forall t :: IsQuoted(s, t) <==> t == part
  }

  lemma ArrayIff(items: seq<JsonValue>, layout: Layout, level: nat, text: string)
    ensures Render(Array(items), layout, level) == text <==> IsPrinted(Array(items), layout, level, text)
    decreases items, 1
  {
    hide Listed, Render, IsPrinted;
    ArrayListed(items, layout, level);
    var inner := level + 1;
    var parts := Renders(items, layout, inner);
    forall k | 0 <= k < |items| ensures PrintsAs(items[k], layout, inner, parts[k]) {
      forall t ensures IsPrinted(items[k], layout, inner, t) <==> t == parts[k] {
        RenderIff(items[k], layout, inner, t);
      }
    }
    ArrayParts(items, layout, level, text, parts, inner);
  }

  lemma ArrayParts(items: seq<JsonValue>, layout: Layout, level: nat, text: string, parts: seq<string>, inner: nat)
    requires |parts| == |items| && inner == level + 1
    requires forall k :: 0 <= k < |items| ==> PrintsAs(items[k], layout, inner, parts[k])
    ensures IsPrinted(Array(items), layout, level, text) <==> text == Listed(layout, level, "[", parts, "]")
  {
    hide Listed, PrintsAs;
    ItemsPrinted(items, layout, inner, parts);
    if IsPrinted(Array(items), layout, level, text) {
      var others :|
        && |others| == |items| && (forall k :: 0 <= k < |items| ==> IsPrinted(items[k], layout, level + 1, others[k]))
        && text == Listed(layout, level, "[", others, "]");
      SameParts(items, layout, inner, parts, others);
    }
  }

  lemma ItemsPrinted(items: seq<JsonValue>, layout: Layout, inner: nat, parts: seq<string>)
    requires |parts| == |items| && forall k :: 0 <= k < |items| ==> PrintsAs(items[k], layout, inner, parts[k])
    ensures forall k :: 0 <= k < |items| ==> IsPrinted(items[k], layout, inner, parts[k])
  {
    hide IsPrinted;
    forall k | 0 <= k < |items| ensures IsPrinted(items[k], layout, inner, parts[k]) {
      assert PrintsAs(items[k], layout, inner, parts[k]);
    }
  }

  lemma SameParts(items: seq<JsonValue>, layout: Layout, inner: nat, parts: seq<string>, others: seq<string>)
    requires |parts| == |items| == |others|
    requires forall k :: 0 <= k < |items| ==> PrintsAs(items[k], layout, inner, parts[k])
    requires forall k :: 0 <= k < |items| ==> IsPrinted(items[k], layout, inner, others[k])
    ensures others == parts
  {
    hide IsPrinted;
    forall k | 0 <= k < |items| ensures others[k] == parts[k] {
      assert PrintsAs(items[k], layout, inner, parts[k]);
    }
  }

  lemma ObjectIff(members: seq<Member>, layout: Layout, level: nat, text: string)
    ensures Render(Object(members), layout, level) == text <==> IsPrinted(Object(members), layout, level, text)
    decreases members, 1
  {
    hide Listed, Render, IsQuoted, Quoted, IsPrinted, Pairs;
    ObjectListed(members, layout, level);
    var inner := level + 1;
    var keys := Keys(members);
    var values := Renders(Values(members), layout, inner);
    forall k | 0 <= k < |members|
      ensures PrintsAs(Values(members)[k], layout, inner, values[k]) && QuotesAs(members[k].key, keys[k])
    {
      forall t ensures IsPrinted(members[k].value, layout, inner, t) <==> t == values[k] {
        RenderIff(members[k].value, layout, inner, t);
      }
      forall t ensures IsQuoted(members[k].key, t) <==> t == keys[k] {
        QuotedIff(members[k].key, t);
      }
    }
    ObjectParts(members, layout, level, text, keys, values, inner);
    MembersArePairs(members, layout, inner);
  }

  function Keys(members: seq<Member>): (r: seq<string>)
    ensures |r| == |members| && forall k :: 0 <= k < |members| ==> r[k] == Quoted(members[k].key)
  {
    seq(|members|, k requires 0 <= k < |members| => Quoted(members[k].key))
  }

  function Values(members: seq<Member>): (r: seq<JsonValue>)
    ensures |r| == |members| && forall k :: 0 <= k < |members| ==> r[k] == members[k].value
  {
    seq(|members|, k requires 0 <= k < |members| => members[k].value)
  }

  lemma MembersArePairs(members: seq<Member>, layout: Layout, inner: nat)
    ensures MemberRenders(members, layout, inner) == Pairs(layout, Keys(members), Renders(Values(members), layout, inner))
  {
    hide Render, Quoted;
  }

  lemma ObjectParts(members: seq<Member>, layout: Layout, level: nat, text: string, keys: seq<string>, values: seq<string>, inner: nat)
    requires |keys| == |values| == |members| && inner == level + 1
    requires forall k :: 0 <= k < |members| ==> QuotesAs(members[k].key, keys[k])
    requires forall k :: 0 <= k < |members| ==> PrintsAs(Values(members)[k], layout, inner, values[k])
    ensures IsPrinted(Object(members), layout, level, text) <==> text == Listed(layout, level, "{", Pairs(layout, keys, values), "}")
  {
    hide Listed, Pairs, IsQuoted, PrintsAs, QuotesAs;
    PartsPrinted(members, layout, inner, keys, values);
    if IsPrinted(Object(members), layout, level, text) {
      var ks, vs :|
        && |ks| == |vs| == |members|
        && (forall k :: 0 <= k < |members| ==> IsQuoted(members[k].key, ks[k]))
        && (forall k :: 0 <= k < |members| ==> IsPrinted(members[k].value, layout, level + 1, vs[k]))
        && text == Listed(layout, level, "{", Pairs(layout, ks, vs), "}");
      SameKeys(members, keys, ks);
      assert forall k :: 0 <= k < |members| ==> IsPrinted(Values(members)[k], layout, inner, vs[k]);
      SameParts(Values(members), layout, inner, values, vs);
    }
  }

  lemma SameKeys(members: seq<Member>, keys: seq<string>, others: seq<string>)
    requires |keys| == |members| == |others|
    requires forall k :: 0 <= k < |members| ==> QuotesAs(members[k].key, keys[k])
    requires forall k :: 0 <= k < |members| ==> IsQuoted(members[k].key, others[k])
    ensures others == keys
  {
    hide IsQuoted;
    forall k | 0 <= k < |members| ensures others[k] == keys[k] {
      assert QuotesAs(members[k].key, keys[k]);
    }
  }

  lemma PartsPrinted(members: seq<Member>, layout: Layout, inner: nat, keys: seq<string>, values: seq<string>)
    requires |keys| == |values| == |members|
    requires forall k :: 0 <= k < |members| ==> QuotesAs(members[k].key, keys[k])
    requires forall k :: 0 <= k < |members| ==> PrintsAs(Values(members)[k], layout, inner, values[k])
    ensures forall k :: 0 <= k < |members| ==> IsQuoted(members[k].key, keys[k]) && IsPrinted(members[k].value, layout, inner, values[k])
  {
    hide IsQuoted, IsPrinted;
    forall k | 0 <= k < |members| ensures IsQuoted(members[k].key, keys[k]) && IsPrinted(members[k].value, layout, inner, values[k]) {
      assert QuotesAs(members[k].key, keys[k]) && PrintsAs(Values(members)[k], layout, inner, values[k]);
    }
  }
}
