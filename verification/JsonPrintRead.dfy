/** Reading a printed value, part by part, and the round-trip theorems. */
module JsonPrintRead {
  import opened Prelude
  import opened JsonLex
  import opened Json
  import opened JsonWriter
  import opened JsonRoundTrip
  import Utf8
  import Decimal

  // ----- the pieces of a rendering

  lemma {:induction false} IndentSpaces(level: nat)
    ensures forall k :: 0 <= k < |Indent(level)| ==> Indent(level)[k] == ' '
  {
    if level > 0 { IndentSpaces(level - 1); }
  }

  lemma BreakIsWs(b: seq<byte>, i: nat, layout: Layout, level: nat)
    requires AtText(b, i, Break(layout, level))
    ensures i + Len(Break(layout, level)) <= |b|
    ensures forall k :: i <= k < i + Len(Break(layout, level)) ==> IsWs(b[k])
  {
    IndentSpaces(level);
    var t := Break(layout, level);
    assert forall k :: 0 <= k < |t| ==> t[k] == ' ' || t[k] == '\n';
    AtAscii(b, i, t);
    forall k | i <= k < i + Len(t) ensures IsWs(b[k]) {
      assert b[i + (k - i)] == t[k - i] as int;
    }
  }

  /** A rendered value starts with a byte that is neither whitespace nor a closer. */
  lemma RenderStart(v: JsonValue, layout: Layout, indent: nat, b: seq<byte>, i: nat)
    requires AtText(b, i, Render(v, layout, indent))
    ensures i < |b| && !IsWs(b[i]) && b[i] != RBRACKET && b[i] != RBRACE
  {
    hide RenderItems, RenderMembers, Escaped;
    var t := Render(v, layout, indent);
    assert t != [] && t[0] as int < 0x80 && t == [t[0]] + t[1..] by {
      if v.Number? { NumberStart(v.n); }
    }
    AtTextSplit(b, i, [t[0]], t[1..]);
    AtChar(b, i, t[0]);
    assert t[0] in {'n', 't', 'f', '"', '[', '{', '-'} || Decimal.IsDigit(t[0]) by {
      if v.Number? { NumberStart(v.n); }
    }
  }

  lemma NumberStart(n: i64)
    ensures Decimal.IntText(n) != []
    ensures Decimal.IntText(n)[0] == '-' || Decimal.IsDigit(Decimal.IntText(n)[0])
  {
    var m: nat := if n < 0 then -(n as int) else n;
    assert Decimal.IsDigit(Decimal.NatText(m)[0]);
  }

  lemma {:induction false} ItemsPrefix(items: seq<JsonValue>, m: nat, n: nat, layout: Layout, inner: nat, b: seq<byte>, base: nat)
    requires m <= n <= |items|
    requires AtText(b, base, RenderItems(items, n, layout, inner))
    ensures AtText(b, base, RenderItems(items, m, layout, inner))
    decreases n
  {
    if m < n {
      var last := Comma(n - 1) + Break(layout, inner) + Render(items[n - 1], layout, inner);
      AtTextSplit(b, base, RenderItems(items, n - 1, layout, inner), last);
      ItemsPrefix(items, m, n - 1, layout, inner, b, base);
    }
  }

  lemma {:induction false} MembersPrefix(members: seq<Member>, m: nat, n: nat, layout: Layout, inner: nat, b: seq<byte>, base: nat)
    requires m <= n <= |members|
    requires AtText(b, base, RenderMembers(members, n, layout, inner))
    ensures AtText(b, base, RenderMembers(members, m, layout, inner))
    decreases n
  {
    if m < n {
      var last := Comma(n - 1) + Break(layout, inner) + RenderMember(members[n - 1], layout, inner);
      AtTextSplit(b, base, RenderMembers(members, n - 1, layout, inner), last);
      MembersPrefix(members, m, n - 1, layout, inner, b, base);
    }
  }

  /** Where the `k`-th part of a container's body starts, its comma included. */
  function ItemPos(items: seq<JsonValue>, k: nat, layout: Layout, inner: nat, base: nat): nat
    requires k <= |items|
  {
    base + Len(RenderItems(items, k, layout, inner))
  }

  function MemberPos(members: seq<Member>, k: nat, layout: Layout, inner: nat, base: nat): nat
    requires k <= |members|
  {
    base + Len(RenderMembers(members, k, layout, inner))
  }

  function CommaLen(k: nat): nat {
    if k == 0 then 0 else 1
  }

  lemma CommaAt(b: seq<byte>, i: nat, k: nat)
    requires AtText(b, i, Comma(k))
    ensures Len(Comma(k)) == CommaLen(k)
    ensures k > 0 ==> i < |b| && b[i] == COMMA
  {
    if k > 0 { AtChar(b, i, ','); }
  }

  lemma ItemPieces(items: seq<JsonValue>, k: nat, layout: Layout, inner: nat, b: seq<byte>, base: nat)
    requires k < |items|
    requires AtText(b, base, RenderItems(items, |items|, layout, inner))
    ensures var p := ItemPos(items, k, layout, inner, base);
      var q := p + CommaLen(k) + Len(Break(layout, inner));
      && (k > 0 ==> p < |b| && b[p] == COMMA)
      && AtText(b, p + CommaLen(k), Break(layout, inner))
      && AtText(b, q, Render(items[k], layout, inner))
      && ItemPos(items, k + 1, layout, inner, base) == q + Len(Render(items[k], layout, inner))
  {
    hide AtText, Len, Break, Render, Comma;
    ItemsPrefix(items, k + 1, |items|, layout, inner, b, base);
    var c, br, r := Comma(k), Break(layout, inner), Render(items[k], layout, inner);
    var p := ItemPos(items, k, layout, inner, base);
    AtTextSplit(b, base, RenderItems(items, k, layout, inner), c + br + r);
    AtTextSplit(b, p, c + br, r);
    AtTextSplit(b, p, c, br);
    CommaAt(b, p, k);
  }

  lemma MemberPieces(members: seq<Member>, k: nat, layout: Layout, inner: nat, b: seq<byte>, base: nat)
    requires k < |members|
    requires AtText(b, base, RenderMembers(members, |members|, layout, inner))
    ensures var p := MemberPos(members, k, layout, inner, base);
      var q := p + CommaLen(k) + Len(Break(layout, inner));
      && (k > 0 ==> p < |b| && b[p] == COMMA)
      && AtText(b, p + CommaLen(k), Break(layout, inner))
      && AtText(b, q, RenderMember(members[k], layout, inner))
      && MemberPos(members, k + 1, layout, inner, base) == q + Len(RenderMember(members[k], layout, inner))
  {
    hide AtText, Len, Break, RenderMember, Comma;
    MembersPrefix(members, k + 1, |members|, layout, inner, b, base);
    var c, br, r := Comma(k), Break(layout, inner), RenderMember(members[k], layout, inner);
    var p := MemberPos(members, k, layout, inner, base);
    AtTextSplit(b, base, RenderMembers(members, k, layout, inner), c + br + r);
    AtTextSplit(b, p, c + br, r);
    AtTextSplit(b, p, c, br);
    CommaAt(b, p, k);
  }

  /** A line break and a closing bracket: the reader skips to the bracket. */
  lemma CloserAt(b: seq<byte>, i: nat, layout: Layout, level: nat, closer: char)
    requires closer == ']' || closer == '}'
    requires AtText(b, i, Break(layout, level) + [closer])
    ensures var p := i + Len(Break(layout, level));
      && Len(Break(layout, level) + [closer]) == Len(Break(layout, level)) + 1
      && p < |b| && b[p] == closer as int && SkipWs(b, i) == p && !IsDigitByte(b[i])
  {
    var br := Break(layout, level);
    AtTextSplit(b, i, br, [closer]);
    AtChar(b, i + Len(br), closer);
    BreakIsWs(b, i, layout, level);
    SkipWsTo(b, i, i + Len(br));
    assert Len(br) > 0 ==> IsWs(b[i]);
  }

  // ----- reading a rendered value

  /** Leading whitespace changes nothing but the position of a depth error. */
  lemma ReadValueSkips(b: seq<byte>, p: nat, q: nat, depth: nat)
    requires p <= q <= |b|
    requires forall k :: p <= k < q ==> IsWs(b[k])
    ensures ReadValue(b, p, depth).Ok? <==> ReadValue(b, q, depth).Ok?
    ensures ReadValue(b, q, depth).Ok? ==> ReadValue(b, p, depth) == ReadValue(b, q, depth)
  {
    SkipWsTo(b, p, q);
  }

  predicate ItemsReadable(items: seq<JsonValue>, n: nat, depth: nat)
    requires n <= |items|
  {
    forall k :: 0 <= k < n ==> Readable(items[k], depth)
  }

  predicate MembersReadable(members: seq<Member>, n: nat, depth: nat)
    requires n <= |members|
  {
    forall k :: 0 <= k < n ==> !KeyRepeats(members, k) && Readable(members[k].value, depth)
  }

  /** The key of member `k` stands before it already. */
  predicate KeyRepeats(members: seq<Member>, k: nat)
    requires k < |members|
  {
    exists j :: 0 <= j < k && members[j].key == members[k].key
  }

  lemma MembersReadableSteps(members: seq<Member>, k: nat, depth: nat)
    requires k < |members|
    ensures MembersReadable(members, k + 1, depth)
       <==> MembersReadable(members, k, depth) && !KeyRepeats(members, k) && Readable(members[k].value, depth)
    ensures MembersReadable(members, |members|, depth) ==> MembersReadable(members, k + 1, depth)
  {
  }

  lemma ReadableObject(members: seq<Member>, depth: nat)
    ensures Readable(Object(members), depth) <==> depth <= MAX_DEPTH && MembersReadable(members, |members|, depth + 1)
  {
    if KeysDistinct(members) {
      assert forall k :: 0 <= k < |members| ==> !KeyRepeats(members, k);
    }
    if MembersReadable(members, |members|, depth + 1) {
      forall i, j | 0 <= i < j < |members| ensures members[i].key != members[j].key {
        assert !KeyRepeats(members, j);
      }
    }
  }

  /** Reading the rendering of `v` at index `i` gives the mangled value and stops at
      its end if `v` is readable there, and fails if it is not. */
  ghost predicate ReadsBack(v: JsonValue, b: seq<byte>, i: nat, end: nat, depth: nat)
    requires i <= |b|
  {
    && (Readable(v, depth) ==> ReadValue(b, i, depth) == Ok((Mangled(v), end)))
    && (!Readable(v, depth) ==> ReadValue(b, i, depth).Err?)
  }

  lemma ScalarReadable(v: JsonValue, depth: nat)
    ensures Readable(v, depth) ==> depth <= MAX_DEPTH
    ensures !v.Array? && !v.Object? ==> (Readable(v, depth) <==> depth <= MAX_DEPTH)
  {
  }

  lemma {:induction false} ReadRendered(v: JsonValue, layout: Layout, indent: nat, b: seq<byte>, i: nat, depth: nat)
    requires AtText(b, i, Render(v, layout, indent))
    requires var end := i + Len(Render(v, layout, indent)); end == |b| || !IsDigitByte(b[end])
    ensures i <= |b| && ReadsBack(v, b, i, i + Len(Render(v, layout, indent)), depth)
    decreases v, 1
  {
    hide RenderItems, RenderMembers, ReadString, ReadNumber, ReadArray, ReadObject, AtText, Len, Quoted, Readable;
    RenderStart(v, layout, indent, b, i);
    ScalarReadable(v, depth);
    assert SkipWs(b, i) == i;
    hide SkipWs;
    if depth <= MAX_DEPTH {
      match v
      case Null => ReadRenderedWord(v, layout, indent, b, i);
      case Bool(x) => ReadRenderedWord(v, layout, indent, b, i);
      case Number(n) => ReadPrintedNumber(b, i, n);
      case String(s) => ReadPrintedString(b, i, s);
      case Array(items) => ReadRenderedArray(items, layout, indent, b, i, depth);
      case Object(members) => ReadRenderedObject(members, layout, indent, b, i, depth);
    }
  }

  lemma ReadRenderedWord(v: JsonValue, layout: Layout, indent: nat, b: seq<byte>, i: nat)
    requires v.Null? || v.Bool?
    requires AtText(b, i, Render(v, layout, indent))
    ensures i < |b|
    ensures v.Null? ==> b[i] == 0x6E && ReadNull(b, i) == Ok((v, i + Len(Render(v, layout, indent))))
    ensures v.Bool? ==> (b[i] == 0x74 || b[i] == 0x66) && ReadBool(b, i) == Ok((v, i + Len(Render(v, layout, indent))))
  {
    var t := Render(v, layout, indent);
    AtAscii(b, i, t);
    assert b[i + 0] == t[0] as int;
    var w := if v.Null? then NULL_WORD else if v.b then TRUE_WORD else FALSE_WORD;
    assert Utf8.Codes(t) == w;
    assert At(b, i, w);
  }

  lemma ReadRenderedArray(items: seq<JsonValue>, layout: Layout, indent: nat, b: seq<byte>, i: nat, depth: nat)
    requires depth <= MAX_DEPTH
    requires AtText(b, i, Render(Array(items), layout, indent))
    ensures i < |b| && b[i] == LBRACKET
    ensures Readable(Array(items), depth)
        ==> ReadArray(b, i, depth) == Ok((Mangled(Array(items)), i + Len(Render(Array(items), layout, indent))))
    ensures !Readable(Array(items), depth) ==> ReadArray(b, i, depth).Err?
    decreases items, |items| + 1
  {
    hide RenderItems, ReadItems, ReadValue, AtText, Len, Break, SkipWs, MangledItems, At;
    if items == [] {
      assert "[]" == "[" + "]";
      AtTextSplit(b, i, "[", "]");
      AtChar(b, i, '[');
      AtChar(b, i + 1, ']');
    } else {
      var body, close := RenderItems(items, |items|, layout, indent + 1), Break(layout, indent) + "]";
      Regroup("[" + body, Break(layout, indent), "]", "", "", "");
      AtTextSplit(b, i, "[" + body, close);
      AtTextSplit(b, i, "[", body);
      AtChar(b, i, '[');
      CloserAt(b, i + 1 + Len(body), layout, indent, ']');
      ItemPieces(items, 0, layout, indent + 1, b, i + 1);
      RenderItemsZero(items, layout, indent + 1);
      var q := i + 1 + Len(Break(layout, indent + 1));
      BreakIsWs(b, i + 1, layout, indent + 1);
      RenderStart(items[0], layout, indent + 1, b, q);
      SkipWsTo(b, i + 1, q);
      ReadRenderedItems(items, 0, layout, indent, b, i + 1, q, depth);
    }
  }

  lemma RenderItemsZero(items: seq<JsonValue>, layout: Layout, inner: nat)
    ensures RenderItems(items, 0, layout, inner) == "" && Len("") == 0
  {
  }

  lemma RenderMembersZero(members: seq<Member>, layout: Layout, inner: nat)
    ensures RenderMembers(members, 0, layout, inner) == "" && Len("") == 0
  {
  }

  lemma ReadItemsStep(b: seq<byte>, p: nat, depth: nat, out: seq<JsonValue>)
    requires p <= |b|
    ensures ReadValue(b, p, depth + 1).Err? ==> ReadItems(b, p, depth, out).Err?
    ensures ReadValue(b, p, depth + 1).Ok? ==>
              var (v, end) := ReadValue(b, p, depth + 1).value;
              var k := SkipWs(b, end);
              && (k < |b| && b[k] == COMMA ==> ReadItems(b, p, depth, out) == ReadItems(b, k + 1, depth, out + [v]))
              && (k < |b| && b[k] == RBRACKET ==> ReadItems(b, p, depth, out) == Ok((Array(out + [v]), k + 1)))
  {
    hide ReadValue;
  }

  lemma MangledItemsStep(items: seq<JsonValue>, k: nat)
    requires k < |items|
    ensures MangledItems(items, k + 1) == MangledItems(items, k) + [Mangled(items[k])]
  {
  }

  lemma {:induction false} ReadRenderedItems(items: seq<JsonValue>, k: nat, layout: Layout, indent: nat,
                                             b: seq<byte>, base: nat, p: nat, depth: nat)
    requires k < |items| && depth <= MAX_DEPTH
    requires AtText(b, base, RenderItems(items, |items|, layout, indent + 1))
    requires AtText(b, ItemPos(items, |items|, layout, indent + 1, base), Break(layout, indent) + "]")
    requires var from := ItemPos(items, k, layout, indent + 1, base) + CommaLen(k);
      from <= p <= from + Len(Break(layout, indent + 1)) && p <= |b|
    requires ItemsReadable(items, k, depth + 1)
    ensures ItemsReadable(items, |items|, depth + 1) ==>
              ReadItems(b, p, depth, MangledItems(items, k))
              == Ok((Array(MangledItems(items, |items|)),
                     ItemPos(items, |items|, layout, indent + 1, base) + Len(Break(layout, indent)) + 1))
    ensures !ItemsReadable(items, |items|, depth + 1) ==> ReadItems(b, p, depth, MangledItems(items, k)).Err?
    decreases items, |items| - k
  {
    hide RenderItems, ReadValue, ReadItems, MangledItems, AtText, Len, Render, Readable, Break, ItemPos, SkipWs;
    var inner := indent + 1;
    ItemPieces(items, k, layout, inner, b, base);
    var from := ItemPos(items, k, layout, inner, base) + CommaLen(k);
    var q := from + Len(Break(layout, inner));
    BreakIsWs(b, from, layout, inner);
    var next := ItemPos(items, k + 1, layout, inner, base);
    if k + 1 < |items| {
      ItemPieces(items, k + 1, layout, inner, b, base);
    } else {
      CloserAt(b, next, layout, indent, ']');
    }
    ReadRendered(items[k], layout, inner, b, q, depth + 1);
    ReadValueSkips(b, p, q, depth + 1);
    ReadItemsStep(b, p, depth, MangledItems(items, k));
    MangledItemsStep(items, k);
    if Readable(items[k], depth + 1) {
      if k + 1 < |items| {
        assert SkipWs(b, next) == next;
        ReadRenderedItems(items, k + 1, layout, indent, b, base, next + 1, depth);
      }
    }
  }

  lemma ReadRenderedObject(members: seq<Member>, layout: Layout, indent: nat, b: seq<byte>, i: nat, depth: nat)
    requires depth <= MAX_DEPTH
    requires AtText(b, i, Render(Object(members), layout, indent))
    ensures i < |b| && b[i] == LBRACE
    ensures Readable(Object(members), depth)
        ==> ReadObject(b, i, depth) == Ok((Mangled(Object(members)), i + Len(Render(Object(members), layout, indent))))
    ensures !Readable(Object(members), depth) ==> ReadObject(b, i, depth).Err?
    decreases members, |members| + 1
  {
    hide RenderMembers, ReadMembers, AtText, Len, Break, SkipWs, MangledMembers, At;
    if members == [] {
      assert "{}" == "{" + "}";
      AtTextSplit(b, i, "{", "}");
      AtChar(b, i, '{');
      AtChar(b, i + 1, '}');
    } else {
      var body, close := RenderMembers(members, |members|, layout, indent + 1), Break(layout, indent) + "}";
      Regroup("{" + body, Break(layout, indent), "}", "", "", "");
      AtTextSplit(b, i, "{" + body, close);
      AtTextSplit(b, i, "{", body);
      AtChar(b, i, '{');
      CloserAt(b, i + 1 + Len(body), layout, indent, '}');
      MemberPieces(members, 0, layout, indent + 1, b, i + 1);
      RenderMembersZero(members, layout, indent + 1);
      var q := i + 1 + Len(Break(layout, indent + 1));
      BreakIsWs(b, i + 1, layout, indent + 1);
      MemberStart(members[0], layout, indent + 1, b, q);
      ReadableObject(members, depth);
      SkipWsTo(b, i + 1, q);
      ReadRenderedMembers(members, 0, layout, indent, b, i + 1, q, depth);
    }
  }

  lemma MemberStart(m: Member, layout: Layout, inner: nat, b: seq<byte>, q: nat)
    requires AtText(b, q, RenderMember(m, layout, inner))
    ensures q < |b| && b[q] == QUOTE
    ensures AtText(b, q, Quoted(m.key))
    ensures var c := q + Len(Quoted(m.key));
      c < |b| && b[c] == COLON
      && AtText(b, c + Len(ColonText(layout)), Render(m.value, layout, inner))
      && Len(RenderMember(m, layout, inner)) == Len(Quoted(m.key)) + Len(ColonText(layout)) + Len(Render(m.value, layout, inner))
      && 1 <= Len(ColonText(layout)) <= 2
      && (forall k :: c + 1 <= k < c + Len(ColonText(layout)) ==> k < |b| && IsWs(b[k]))
  {
    hide Quoted, Render, Utf8.Encode, Utf8.Codes, AtText, ReadString, MangledText;
    var key, colon := Quoted(m.key), ColonText(layout);
    AtTextSplit(b, q, key + colon, Render(m.value, layout, inner));
    AtTextSplit(b, q, key, colon);
    var c := q + Len(key);
    AtAscii(b, c, colon);
    assert b[c + 0] == colon[0] as int;
    if layout == Pretty { assert b[c + 1] == colon[1] as int; }
    ReadPrintedString(b, q, m.key);
  }

  /** Mangling keeps a new key new and a repeated key repeated. */
  lemma MangledHasKey(members: seq<Member>, k: nat)
    requires k < |members|
    ensures HasKey(MangledMembers(members, k), MangledText(members[k].key))
       <==> KeyRepeats(members, k)
  {
    var out := MangledMembers(members, k);
    if HasKey(out, MangledText(members[k].key)) {
      var m :| m in out && m.key == MangledText(members[k].key);
      var j :| 0 <= j < k && out[j] == m;
      MangledTextInjective(members[j].key, members[k].key);
    }
    if j :| 0 <= j < k && members[j].key == members[k].key {
      assert out[j] in out && out[j].key == MangledText(members[k].key);
    }
  }

  lemma ReadRenderedMember(members: seq<Member>, k: nat, layout: Layout, inner: nat, b: seq<byte>, p: nat, q: nat, depth: nat)
    requires k < |members|
    requires p <= q <= |b| && forall n :: p <= n < q ==> IsWs(b[n])
    requires AtText(b, q, RenderMember(members[k], layout, inner))
    requires var end := q + Len(RenderMember(members[k], layout, inner)); end == |b| || !IsDigitByte(b[end])
    ensures KeyRepeats(members, k) || !Readable(members[k].value, depth + 1)
        ==> ReadMember(b, p, depth, MangledMembers(members, k)).Err?
    ensures !KeyRepeats(members, k) && Readable(members[k].value, depth + 1) ==>
              ReadMember(b, p, depth, MangledMembers(members, k))
              == Ok((Member(MangledText(members[k].key), Mangled(members[k].value)), q + Len(RenderMember(members[k], layout, inner))))
    decreases members, 0
  {
    hide ReadValue, AtText, Len, Readable, ReadString, HasKey, RenderMember, Quoted, MangledMembers, Break;
    var m := members[k];
    MemberStart(m, layout, inner, b, q);
    SkipWsTo(b, p, q);
    ReadPrintedString(b, q, m.key);
    MangledHasKey(members, k);
    var c := q + Len(Quoted(m.key));
    assert SkipWs(b, c) == c;
    var v := c + Len(ColonText(layout));
    ReadRendered(m.value, layout, inner, b, v, depth + 1);
    ReadValueSkips(b, c + 1, v, depth + 1);
  }

  lemma ReadMembersStep(b: seq<byte>, p: nat, depth: nat, out: seq<Member>)
    requires p <= |b|
    ensures ReadMember(b, p, depth, out).Err? ==> ReadMembers(b, p, depth, out).Err?
    ensures ReadMember(b, p, depth, out).Ok? ==>
              var (m, end) := ReadMember(b, p, depth, out).value;
              var k := SkipWs(b, end);
              && (k < |b| && b[k] == COMMA ==>
                    ReadMembers(b, p, depth, out) == ReadMembers(b, k + 1, depth, out + [m]))
              && (k < |b| && b[k] == RBRACE ==> ReadMembers(b, p, depth, out) == Ok((Object(out + [m]), k + 1)))
  {
    hide ReadMember;
  }

  lemma MangledMembersStep(members: seq<Member>, k: nat)
    requires k < |members|
    ensures MangledMembers(members, k + 1)
         == MangledMembers(members, k) + [Member(MangledText(members[k].key), Mangled(members[k].value))]
  {
  }

  lemma {:induction false} ReadRenderedMembers(members: seq<Member>, k: nat, layout: Layout, indent: nat,
                                               b: seq<byte>, base: nat, p: nat, depth: nat)
    requires k < |members| && depth <= MAX_DEPTH
    requires AtText(b, base, RenderMembers(members, |members|, layout, indent + 1))
    requires AtText(b, MemberPos(members, |members|, layout, indent + 1, base), Break(layout, indent) + "}")
    requires var from := MemberPos(members, k, layout, indent + 1, base) + CommaLen(k);
      from <= p <= from + Len(Break(layout, indent + 1)) && p <= |b|
    requires MembersReadable(members, k, depth + 1)
    ensures MembersReadable(members, |members|, depth + 1) ==>
              ReadMembers(b, p, depth, MangledMembers(members, k))
              == Ok((Object(MangledMembers(members, |members|)),
                     MemberPos(members, |members|, layout, indent + 1, base) + Len(Break(layout, indent)) + 1))
    ensures !MembersReadable(members, |members|, depth + 1) ==> ReadMembers(b, p, depth, MangledMembers(members, k)).Err?
    decreases members, |members| - k
  {
    hide RenderMembers, ReadMember, ReadMembers, MangledMembers, MembersReadable, KeyRepeats, AtText, Len, RenderMember, Readable, Break, MemberPos, SkipWs;
    var inner := indent + 1;
    MemberPieces(members, k, layout, inner, b, base);
    var from := MemberPos(members, k, layout, inner, base) + CommaLen(k);
    var q := from + Len(Break(layout, inner));
    BreakIsWs(b, from, layout, inner);
    var next := MemberPos(members, k + 1, layout, inner, base);
    if k + 1 < |members| {
      MemberPieces(members, k + 1, layout, inner, b, base);
    } else {
      CloserAt(b, next, layout, indent, '}');
    }
    MembersReadableSteps(members, k, depth + 1);
    ReadRenderedMember(members, k, layout, inner, b, p, q, depth);
    ReadMembersStep(b, p, depth, MangledMembers(members, k));
    MangledMembersStep(members, k);
    if !KeyRepeats(members, k) && Readable(members[k].value, depth + 1) {
      if k + 1 < |members| {
        assert SkipWs(b, next) == next;
        ReadRenderedMembers(members, k + 1, layout, indent, b, base, next + 1, depth);
      }
    }
  }
}
