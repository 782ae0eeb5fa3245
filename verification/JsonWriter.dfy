/** The two printers. `Render` is the text of a value in either layout; the writers
    append to a buffer and are proved to append exactly that text. */
module JsonWriter {
  import opened Prelude
  import opened JsonLex
  import opened Json
  import Decimal

  datatype Layout = Compact | Pretty

  /** True for the characters a printed string escapes. */
  predicate NeedsEscape(c: char) {
    c == '"' || c == '\\' || c as int < 0x20
  }

  function LowerHex(n: nat): (c: char)
    requires n < 16
    ensures c as int < 0x80 && !NeedsEscape(c)
    ensures HexDigit(c as int) == Some(n)
  {
    if n < 10 then (0x30 + n) as char else (0x61 + n - 10) as char
  }

  /** The four hex digits of a control character, most significant first. */
  function HexDigits(n: nat): (r: string)
    requires n < 0x20
    ensures |r| == 4
    ensures forall k :: 0 <= k < 4 ==> r[k] == LowerHex(n / HexLimit(3 - k) % 16)
  {
    [LowerHex(n / 0x1000 % 16), LowerHex(n / 0x100 % 16), LowerHex(n / 0x10 % 16), LowerHex(n % 16)]
  }

  function EscapeChar(c: char): (r: string)
    ensures r != []
    ensures !NeedsEscape(c) ==> r == [c]
    ensures NeedsEscape(c) ==> |r| >= 2 && r[0] == '\\'
    ensures forall k :: 0 <= k < |r| ==> r[k] as int >= 0x20
  {
    if c == '"' then "\\\""
    else if c == '\\' then "\\\\"
    else if c == '\n' then "\\n"
    else if c == '\r' then "\\r"
    else if c == '\t' then "\\t"
    else if c as int == 8 then "\\b"
    else if c as int == 12 then "\\f"
    else if c as int < 0x20 then "\\u" + HexDigits(c as int)
    else [c]
  }

  function Escaped(s: string): string {
    if s == [] then [] else EscapeChar(s[0]) + Escaped(s[1..])
  }

  function Quoted(s: string): string {
    "\"" + Escaped(s) + "\""
  }

  function Indent(level: nat): string {
    if level == 0 then "" else "  " + Indent(level - 1)
  }

  /** The line break before a container's part, which the compact layout omits. */
  function Break(layout: Layout, level: nat): string {
    if layout == Compact then "" else "\n" + Indent(level)
  }

  function ColonText(layout: Layout): string {
    if layout == Compact then ":" else ": "
  }

  function Render(v: JsonValue, layout: Layout, indent: nat): string
    decreases v, 0
  {
    match v
    case Null => "null"
    case Bool(b) => if b then "true" else "false"
    case Number(n) => Decimal.IntText(n)
    case String(s) => Quoted(s)
    case Array(items) =>
      if items == [] then "[]"
      else "[" + RenderItems(items, |items|, layout, indent + 1) + Break(layout, indent) + "]"
    case Object(members) =>
      if members == [] then "{}"
      else "{" + RenderMembers(members, |members|, layout, indent + 1) + Break(layout, indent) + "}"
  }

  function Comma(k: nat): string {
    if k == 0 then "" else ","
  }

  /** The first `n` items, comma separated, each on its own line in the pretty layout. */
  function RenderItems(items: seq<JsonValue>, n: nat, layout: Layout, inner: nat): string
    requires n <= |items|
    decreases items, n
  {
    if n == 0 then ""
    else
      RenderItems(items, n - 1, layout, inner)
      + (Comma(n - 1) + Break(layout, inner) + Render(items[n - 1], layout, inner))
  }

  function RenderMembers(members: seq<Member>, n: nat, layout: Layout, inner: nat): string
    requires n <= |members|
    decreases members, n
  {
    if n == 0 then ""
    else
      RenderMembers(members, n - 1, layout, inner)
      + (Comma(n - 1) + Break(layout, inner) + RenderMember(members[n - 1], layout, inner))
  }

  function RenderMember(m: Member, layout: Layout, inner: nat): string
    decreases m, 0
  {
    Quoted(m.key) + ColonText(layout) + Render(m.value, layout, inner)
  }

  // ----- the writers

  class TextBuffer {
    var text: string

    constructor ()
      ensures text == ""
    {
      text := "";
    }

    method Push(c: char)
      modifies this
      ensures text == old(text) + [c]
    {
      text := text + [c];
    }

    method PushStr(s: string)
      modifies this
      ensures text == old(text) + s
    {
      text := text + s;
    }
  }

  method WriteUnicodeEscape(out: TextBuffer, c: char)
    requires c as int < 0x20
    modifies out
    ensures out.text == old(out.text) + "\\u" + HexDigits(c as int)
  {
    hide HexDigits, LowerHex;
    var cp: nat := c as int;
    out.PushStr("\\u");
    for done := 0 to 4
      invariant out.text == old(out.text) + "\\u" + HexDigits(cp)[..done]
    {
      var nib := cp / HexLimit(3 - done) % 16;
      out.Push(LowerHex(nib));
      assert HexDigits(cp)[..done + 1] == HexDigits(cp)[..done] + [HexDigits(cp)[done]];
    }
    assert HexDigits(cp)[..4] == HexDigits(cp);
  }

  method WriteString(out: TextBuffer, s: string)
    modifies out
    ensures out.text == old(out.text) + Quoted(s)
  {
    out.Push('"');
    ghost var lead := out.text;
    for i := 0 to |s|
      invariant out.text == lead + Escaped(s[..i])
    {
      ghost var before := out.text;
      WriteChar(out, s[i]);
      EscapedSnoc(s[..i], s[i]);
      assert s[..i + 1] == s[..i] + [s[i]];
      Regroup(lead, Escaped(s[..i]), EscapeChar(s[i]), "", "", "");
    }
    assert s[..|s|] == s;
    out.Push('"');
    Regroup(old(out.text), "\"", Escaped(s), "\"", "", "");
  }

  /** One pass of the loop over the characters of a string. */
  method WriteChar(out: TextBuffer, ch: char)
    modifies out
    ensures out.text == old(out.text) + EscapeChar(ch)
  {
    if ch == '"' {
      out.PushStr("\\\"");
    } else if ch == '\\' {
      out.PushStr("\\\\");
    } else if ch == '\n' {
      out.PushStr("\\n");
    } else if ch == '\r' {
      out.PushStr("\\r");
    } else if ch == '\t' {
      out.PushStr("\\t");
    } else if ch as int == 8 {
      out.PushStr("\\b");
    } else if ch as int == 12 {
      out.PushStr("\\f");
    } else if ch as int < 0x20 {
      WriteUnicodeEscape(out, ch);
      Regroup(old(out.text), "\\u", HexDigits(ch as int), "", "", "");
    } else {
      out.Push(ch);
    }
  }

  lemma {:induction false} EscapedSnoc(s: string, c: char)
    ensures Escaped(s + [c]) == Escaped(s) + EscapeChar(c)
  {
    if s == [] {
      assert [c][1..] == [];
    } else {
      assert (s + [c])[1..] == s[1..] + [c];
      EscapedSnoc(s[1..], c);
    }
  }

  method PushIndent(out: TextBuffer, level: nat)
    modifies out
    ensures out.text == old(out.text) + Indent(level)
  {
    for i := 0 to level
      invariant out.text + Indent(level - i) == old(out.text) + Indent(level)
    {
      out.PushStr("  ");
    }
  }

  method WriteValueCompact(out: TextBuffer, value: JsonValue)
    modifies out
    ensures out.text == old(out.text) + Render(value, Compact, 0)
    decreases value
  {
    match value
    case Null => out.PushStr("null");
    case Bool(b) => if b { out.PushStr("true"); } else { out.PushStr("false"); }
    case Number(n) => out.PushStr(Decimal.IntText(n));
    case String(s) => WriteString(out, s);
    case Array(a) => WriteArrayCompact(out, a);
    case Object(o) => WriteObjectCompact(out, o);
  }

  method WriteArrayCompact(out: TextBuffer, a: seq<JsonValue>)
    modifies out
    ensures out.text == old(out.text) + Render(Array(a), Compact, 0)
    decreases a
  {
    hide RenderItems, Render;
    ArrayRendering(a, Compact, 0, out.text);
    out.Push('[');
    DropEmpty(out.text);
    for i := 0 to |a|
      invariant out.text == old(out.text) + "[" + RenderItems(a, i, Compact, 1)
    {
      ItemsGrow(a, i, Compact, 1, old(out.text) + "[");
      DropEmpty(out.text);
      if i > 0 { out.Push(','); }
      DropEmpty(out.text);
      WriteValueCompact(out, a[i]);
      RenderCompactIndent(a[i], 0, 1);
    }
    DropEmpty(out.text);
    if a == [] { EmptyBrackets(old(out.text)); }
    out.Push(']');
  }

  method WriteObjectCompact(out: TextBuffer, o: seq<Member>)
    modifies out
    ensures out.text == old(out.text) + Render(Object(o), Compact, 0)
    decreases o
  {
    hide RenderMembers, RenderMember, Render;
    ObjectRendering(o, Compact, 0, out.text);
    out.Push('{');
    DropEmpty(out.text);
    for i := 0 to |o|
      invariant out.text == old(out.text) + "{" + RenderMembers(o, i, Compact, 1)
    {
      MembersGrow(o, i, Compact, 1, old(out.text) + "{");
      DropEmpty(out.text);
      if i > 0 { out.Push(','); }
      DropEmpty(out.text);
      WriteMemberCompact(out, o[i]);
    }
    DropEmpty(out.text);
    if o == [] { EmptyBrackets(old(out.text)); }
    out.Push('}');
  }

  method WriteMemberCompact(out: TextBuffer, m: Member)
    modifies out
    ensures out.text == old(out.text) + RenderMember(m, Compact, 1)
    decreases m
  {
    WriteString(out, m.key);
    out.Push(':');
    WriteValueCompact(out, m.value);
    RenderCompactIndent(m.value, 0, 1);
    Regroup(old(out.text), Quoted(m.key), ":", Render(m.value, Compact, 1), "", "");
  }

  method WriteValue(out: TextBuffer, value: JsonValue, indent: nat)
    modifies out
    ensures out.text == old(out.text) + Render(value, Pretty, indent)
    decreases value
  {
    match value
    case Null => out.PushStr("null");
    case Bool(b) => if b { out.PushStr("true"); } else { out.PushStr("false"); }
    case Number(n) => out.PushStr(Decimal.IntText(n));
    case String(s) => WriteString(out, s);
    case Array(a) => WriteArray(out, a, indent);
    case Object(o) => WriteObject(out, o, indent);
  }

  method WriteArray(out: TextBuffer, a: seq<JsonValue>, indent: nat)
    modifies out
    ensures out.text == old(out.text) + Render(Array(a), Pretty, indent)
    decreases a
  {
    hide RenderItems, Render, Break;
    ArrayRendering(a, Pretty, indent, out.text);
    if a == [] {
      out.PushStr("[]");
      return;
    }
    out.Push('[');
    DropEmpty(out.text);
    var inner := indent + 1;
    for i := 0 to |a|
      invariant out.text == old(out.text) + "[" + RenderItems(a, i, Pretty, inner) + (if i < |a| then Comma(i) else "")
    {
      ItemsGrow(a, i, Pretty, inner, old(out.text) + "[");
      WriteBreak(out, inner);
      WriteValue(out, a[i], inner);
      DropEmpty(out.text);
      if i + 1 < |a| { out.Push(','); }
    }
    WriteBreak(out, indent);
    out.Push(']');
  }

  method WriteObject(out: TextBuffer, o: seq<Member>, indent: nat)
    modifies out
    ensures out.text == old(out.text) + Render(Object(o), Pretty, indent)
    decreases o
  {
    hide RenderMembers, RenderMember, Render, Break;
    ObjectRendering(o, Pretty, indent, out.text);
    if o == [] {
      out.PushStr("{}");
      return;
    }
    out.Push('{');
    DropEmpty(out.text);
    var inner := indent + 1;
    for i := 0 to |o|
      invariant out.text == old(out.text) + "{" + RenderMembers(o, i, Pretty, inner) + (if i < |o| then Comma(i) else "")
    {
      MembersGrow(o, i, Pretty, inner, old(out.text) + "{");
      WriteBreak(out, inner);
      WriteMember(out, o[i], inner);
      DropEmpty(out.text);
      if i + 1 < |o| { out.Push(','); }
    }
    WriteBreak(out, indent);
    out.Push('}');
  }

  method WriteMember(out: TextBuffer, m: Member, inner: nat)
    modifies out
    ensures out.text == old(out.text) + RenderMember(m, Pretty, inner)
    decreases m
  {
    WriteString(out, m.key);
    out.PushStr(": ");
    WriteValue(out, m.value, inner);
    Regroup(old(out.text), Quoted(m.key), ": ", Render(m.value, Pretty, inner), "", "");
  }

  /** A newline and its indentation. */
  method WriteBreak(out: TextBuffer, level: nat)
    modifies out
    ensures out.text == old(out.text) + Break(Pretty, level)
  {
    out.Push('\n');
    PushIndent(out, level);
  }

  method ToCompactString(value: JsonValue) returns (r: string)
    ensures r == Render(value, Compact, 0)
  {
    var out := new TextBuffer();
    WriteValueCompact(out, value);
    r := out.text;
  }

  method ToPrettyString(value: JsonValue) returns (r: string)
    ensures r == Render(value, Pretty, 0)
  {
    var out := new TextBuffer();
    WriteValue(out, value, 0);
    r := out.text;
  }

  // ----- facts about the layouts

  /** One pass of an array loop, written after the text `lead`. */
  lemma ItemsGrow(a: seq<JsonValue>, i: nat, layout: Layout, inner: nat, lead: string)
    requires i < |a|
    ensures lead + RenderItems(a, i + 1, layout, inner)
         == lead + RenderItems(a, i, layout, inner) + Comma(i) + Break(layout, inner) + Render(a[i], layout, inner)
  {
    hide Render;
    var done, c, br, part := RenderItems(a, i, layout, inner), Comma(i), Break(layout, inner), Render(a[i], layout, inner);
    Regroup(lead, done, c + br + part, "", "", "");
    Regroup(lead + done, c, br, part, "", "");
  }

  lemma MembersGrow(o: seq<Member>, i: nat, layout: Layout, inner: nat, lead: string)
    requires i < |o|
    ensures lead + RenderMembers(o, i + 1, layout, inner)
         == lead + RenderMembers(o, i, layout, inner) + Comma(i) + Break(layout, inner) + RenderMember(o[i], layout, inner)
  {
    hide RenderMember;
    var done, c, br, part := RenderMembers(o, i, layout, inner), Comma(i), Break(layout, inner), RenderMember(o[i], layout, inner);
    Regroup(lead, done, c + br + part, "", "", "");
    Regroup(lead + done, c, br, part, "", "");
  }

  lemma ArrayRendering(a: seq<JsonValue>, layout: Layout, indent: nat, lead: string)
    ensures RenderItems(a, 0, layout, indent + 1) == ""
    ensures a == [] ==> Render(Array(a), layout, indent) == "[]"
    ensures a != [] ==>
              lead + Render(Array(a), layout, indent)
              == lead + "[" + RenderItems(a, |a|, layout, indent + 1) + Break(layout, indent) + "]"
  {
    var body := RenderItems(a, |a|, layout, indent + 1);
    Regroup(lead, "[", body, Break(layout, indent), "]", "");
  }

  lemma ObjectRendering(o: seq<Member>, layout: Layout, indent: nat, lead: string)
    ensures RenderMembers(o, 0, layout, indent + 1) == ""
    ensures o == [] ==> Render(Object(o), layout, indent) == "{}"
    ensures o != [] ==>
              lead + Render(Object(o), layout, indent)
              == lead + "{" + RenderMembers(o, |o|, layout, indent + 1) + Break(layout, indent) + "}"
  {
    var body := RenderMembers(o, |o|, layout, indent + 1);
    Regroup(lead, "{", body, Break(layout, indent), "}", "");
  }

  lemma EmptyBrackets(t: string)
    ensures t + "[" + "]" == t + "[]"
    ensures t + "{" + "}" == t + "{}"
  {
  }

  lemma DropEmpty(t: string)
    ensures t + "" == t
  {
  }

  /** The compact layout does not depend on the indentation level. */
  lemma {:induction false} RenderCompactIndent(v: JsonValue, m: nat, n: nat)
    ensures Render(v, Compact, m) == Render(v, Compact, n)
    decreases v, 0
  {
    match v
    case Array(items) => ItemsCompactIndent(items, |items|, m + 1, n + 1);
    case Object(members) => MembersCompactIndent(members, |members|, m + 1, n + 1);
    case _ =>
  }

  lemma {:induction false} ItemsCompactIndent(items: seq<JsonValue>, k: nat, m: nat, n: nat)
    requires k <= |items|
    ensures RenderItems(items, k, Compact, m) == RenderItems(items, k, Compact, n)
    decreases items, k
  {
    if k > 0 {
      ItemsCompactIndent(items, k - 1, m, n);
      RenderCompactIndent(items[k - 1], m, n);
    }
  }

  lemma {:induction false} MembersCompactIndent(members: seq<Member>, k: nat, m: nat, n: nat)
    requires k <= |members|
    ensures RenderMembers(members, k, Compact, m) == RenderMembers(members, k, Compact, n)
    decreases members, k
  {
    if k > 0 {
      MembersCompactIndent(members, k - 1, m, n);
      RenderCompactIndent(members[k - 1].value, m, n);
    }
  }
}
