/** The integer-only reader against the whole grammar: a document is accepted, as a
    value, exactly when some derivation of it that nests at most 64 deep denotes that
    value, on every text. */
module IntGrammar {
  import opened Prelude
  import opened JsonLex
  import opened Json
  import opened JsonGrammar
  import opened JsonStrings
  import S = LiteStrings
  import T = LiteTokens
  import Utf8
  import Decimal

  // ----- what a tree denotes

  /** The token is the decimal text of `n`, or the other spelling of zero. */
  predicate IsIntToken(token: seq<byte>, n: i64) {
    Utf8.Latin1(token) == Decimal.IntText(n) || (Utf8.Latin1(token) == "-0" && n == 0)
  }

  /** The tree stands for the value: integers in the i64 range, no surrogate pairs, and
      distinct keys in every object, as the reader hears them. */
  ghost predicate Denotes(t: Tree, v: JsonValue) {
    match t
    case NullWord => v == Null
    case TrueWord => v == Bool(true)
    case FalseWord => v == Bool(false)
    case Num(token) => v.Number? && IsIntToken(token, v.n)
    case Str(pieces) => NoPairs(pieces) && v == String(Heard(pieces, false))
    case Arr(_, es) => v.Array? && |v.items| == |es| && forall k :: 0 <= k < |es| ==> Denotes(es[k].value, v.items[k])
    case Obj(_, ms) =>
      && v.Object? && |v.members| == |ms| && KeysDistinct(v.members)
      && forall k :: 0 <= k < |ms| ==>
           NoPairs(ms[k].key) && v.members[k].key == Heard(ms[k].key, false) && Denotes(ms[k].elem.value, v.members[k].value)
  }

  ghost predicate DenotesMem(m: Mem, v: Member) {
    NoPairs(m.key) && v.key == Heard(m.key, false) && Denotes(m.elem.value, v.value)
  }

  // ----- the loops, one pass at a time

  lemma ValueBehindSpace(s: seq<byte>, i: nat, t: seq<byte>, depth: nat)
    requires depth <= MAX_DEPTH && IsSpace(t) && At(s, i, t)
    ensures i + |t| <= |s| && ReadValue(s, i, depth) == ReadValue(s, i + |t|, depth)
  {
    hide ReadObject, ReadArray, ReadString, ReadBool, ReadNull, ReadNumber, IsSpace, At;
    SpaceSkipped(s, i, t);
  }

  lemma ItemsStep(s: seq<byte>, i: nat, depth: nat, out: seq<JsonValue>)
    requires i <= |s|
    ensures var l, r := ReadValue(s, i, depth + 1), ReadItems(s, i, depth, out);
      && (l.Err? ==> r == Err(l.error))
      && (l.Ok? ==> var k := SkipWs(s, l.value.1);
           r == if k == |s| then Err(UnexpectedEof)
                else if s[k] == 0x2C then ReadItems(s, k + 1, depth, out + [l.value.0])
                else if s[k] == 0x5D then Ok((Array(out + [l.value.0]), k + 1))
                else Err(UnexpectedByte(k, s[k])))
  {
    hide ReadValue;
  }

  lemma MembersStep(s: seq<byte>, i: nat, depth: nat, out: seq<Member>)
    requires i <= |s|
    ensures var l, r := ReadMember(s, i, depth, out), ReadMembers(s, i, depth, out);
      && (l.Err? ==> r == Err(l.error))
      && (l.Ok? ==> var k := SkipWs(s, l.value.1);
           r == if k == |s| then Err(UnexpectedEof)
                else if s[k] == 0x2C then ReadMembers(s, k + 1, depth, out + [l.value.0])
                else if s[k] == 0x7D then Ok((Object(out + [l.value.0]), k + 1))
                else Err(UnexpectedByte(k, s[k])))
  {
    hide ReadMember;
  }

  lemma ItemsBehindSpace(s: seq<byte>, i: nat, depth: nat)
    requires i <= |s| && depth < MAX_DEPTH
    ensures ReadItems(s, i, depth, []) == ReadItems(s, SkipWs(s, i), depth, [])
  {
    hide ReadValue, ReadItems, SkipWs;
    var t := SkippedSpace(s, i);
    ValueBehindSpace(s, i, t, depth + 1);
    ItemsStep(s, i, depth, []);
    ItemsStep(s, SkipWs(s, i), depth, []);
  }

  lemma MemberBehindSpace(s: seq<byte>, i: nat, depth: nat, out: seq<Member>)
    requires i <= |s|
    ensures ReadMember(s, i, depth, out) == ReadMember(s, SkipWs(s, i), depth, out)
  {
    hide ReadValue, ReadString, HasKey;
    var t := SkippedSpace(s, i);
    SpaceSkipped(s, i, t);
  }

  lemma MembersBehindSpace(s: seq<byte>, i: nat, depth: nat, out: seq<Member>)
    requires i <= |s|
    ensures ReadMembers(s, i, depth, out) == ReadMembers(s, SkipWs(s, i), depth, out)
  {
    hide ReadMember, ReadMembers, SkipWs;
    MemberBehindSpace(s, i, depth, out);
    MembersStep(s, i, depth, out);
    MembersStep(s, SkipWs(s, i), depth, out);
  }

  lemma ArrayStart(s: seq<byte>, i: nat, depth: nat)
    requires depth <= MAX_DEPTH && i < |s| && s[i] == 0x5B
    ensures var k := SkipWs(s, i + 1);
      ReadValue(s, i, depth) == ReadArray(s, i, depth) ==
        if k < |s| && s[k] == 0x5D then Ok((Array([]), k + 1)) else ReadItems(s, k, depth, [])
  {
    hide ReadItems, ReadObject, ReadBool, ReadNull, ReadString, ReadNumber;
    NoSpaceHere(s, i);
  }

  lemma ObjectStart(s: seq<byte>, i: nat, depth: nat)
    requires depth <= MAX_DEPTH && i < |s| && s[i] == 0x7B
    ensures var k := SkipWs(s, i + 1);
      ReadValue(s, i, depth) == ReadObject(s, i, depth) ==
        if k < |s| && s[k] == 0x7D then Ok((Object([]), k + 1)) else ReadMembers(s, k, depth, [])
  {
    hide ReadMembers, ReadArray, ReadBool, ReadNull, ReadString, ReadNumber;
    NoSpaceHere(s, i);
  }

  lemma LastElem(e: Elem)
    ensures ElemsText([e]) == ElemText(e)
  {
  }

  lemma OneMoreElem(e: Elem, rest: seq<Elem>)
    requires rest != []
    ensures ElemsText([e] + rest) == ElemText(e) + ([0x2C] + ElemsText(rest))
  {
    hide ElemText;
    assert ([e] + rest)[1..] == rest;
  }

  lemma LastMember(m: Mem)
    ensures MemsText([m]) == MemText(m)
  {
  }

  lemma OneMoreMember(m: Mem, rest: seq<Mem>)
    requires rest != []
    ensures MemsText([m] + rest) == MemText(m) + ([0x2C] + MemsText(rest))
  {
    hide MemText;
    assert ([m] + rest)[1..] == rest;
  }

  // ----- numbers

  lemma {:induction false} TextDigits(n: nat)
    ensures Decimal.AllDigits(Decimal.NatText(n)) && Decimal.NatText(n) != []
    ensures |Decimal.NatText(n)| > 1 ==> Decimal.NatText(n)[0] != '0'
  {
  }

  /** Digits without a redundant zero in front. */
  predicate IsPlainInt(d: seq<byte>) {
    d != [] && (forall k :: 0 <= k < |d| ==> IsDigitByte(d[k])) && (|d| > 1 ==> d[0] != 0x30)
  }

  function Unsigned(token: seq<byte>): seq<byte> {
    if token != [] && token[0] == 0x2D then token[1..] else token
  }

  /** An integer token's bytes: an optional sign and such digits. */
  predicate IntShape(token: seq<byte>) {
    IsPlainInt(Unsigned(token))
  }

  /** A token is its sign and its digits, byte for byte. */
  lemma TokenByte(token: seq<byte>, k: nat)
    requires IntShape(token) && k < |token|
    ensures |token| - |Unsigned(token)| <= 1 && (|Unsigned(token)| < |token| ==> token[0] == 0x2D)
    ensures var m := |token| - |Unsigned(token)|; if k < m then token[k] == 0x2D else token[k] == Unsigned(token)[k - m]
    ensures token[k] < 0x80
  {
  }

  lemma CodesPlain(d: seq<byte>, n: nat)
    requires Utf8.Latin1(d) == Decimal.NatText(n)
    ensures IsPlainInt(d)
  {
    hide Decimal.NatText;
    TextDigits(n);
    var t := Decimal.NatText(n);
    forall k | 0 <= k < |d| ensures IsDigitByte(d[k]) {
      assert Utf8.Latin1(d)[k] as int == d[k] && Decimal.IsDigit(t[k]);
    }
  }

  lemma IntTokenShape(token: seq<byte>, n: i64)
    requires IsIntToken(token, n)
    ensures IntShape(token) && Decimal.ParseI64(Utf8.Latin1(token)) == Some(n)
  {
    hide Decimal.ParseI64, Decimal.NatText, IsPlainInt;
    var text := Utf8.Latin1(token);
    assert forall k :: 0 <= k < |token| ==> token[k] == text[k] as int;
    if text == Decimal.IntText(n) {
      Decimal.ParseI64IntText(n);
      var m: nat := if n < 0 then -(n as int) else n as int;
      TextDigits(m);
      if n < 0 {
        assert Utf8.Latin1(token[1..]) == text[1..] == Decimal.NatText(m);
        CodesPlain(token[1..], m);
      } else {
        CodesPlain(token, m);
        assert Decimal.IsDigit(text[0]);
      }
    } else {
      assert |token| == 2 && token[0] == 0x2D && token[1..] == [0x30];
      ZeroPlain();
      MinusZero();
    }
  }

  lemma ZeroPlain()
    ensures IsPlainInt([0x30])
  {
  }

  lemma MinusZero()
    ensures Decimal.ParseI64("-0") == Some(0)
  {
    assert "-0"[1..] == "0" && "0"[..0] == "";
  }

  /** The digit run of an integer token ends with the token. */
  lemma IntTokenEnd(s: seq<byte>, i: nat, token: seq<byte>)
    requires IntShape(token) && At(s, i, token) && Stops(s, i + |token|)
    ensures i < |s| && (IsDigitByte(s[i]) || s[i] == MINUS) && i + |token| <= |s|
    ensures var first := if s[i] == MINUS then i + 1 else i;
      && DigitsEnd(s, first) == i + |token| && first < i + |token|
      && (i + |token| - first > 1 ==> s[first] != ZERO)
  {
    hide At, Unsigned;
    var d := Unsigned(token);
    TokenParts(token);
    AtEnd(s, i, token);
    var first := i + |token| - |d|;
    assert i < |s| && s[i] == token[0] by { AtIndex(s, i, token, 0); }
    forall k | first <= k < i + |token| ensures s[k] == d[k - first] {
      AtIndex(s, i, token, k - i);
      TokenByte(token, k - i);
    }
    DigitsEndIs(s, first, i + |token|);
    assert s[first] == d[0];
  }

  lemma TokenParts(token: seq<byte>)
    requires IntShape(token)
    ensures token != [] && |token| - 1 <= |Unsigned(token)| <= |token|
    ensures |Unsigned(token)| < |token| <==> token[0] == 0x2D
    ensures token[0] == 0x2D || IsDigitByte(token[0])
  {
  }

  lemma NumRead(s: seq<byte>, i: nat, token: seq<byte>, n: i64, depth: nat)
    requires depth <= MAX_DEPTH && At(s, i, token) && IsIntToken(token, n) && Stops(s, i + |token|)
    ensures i <= |s| && ReadValue(s, i, depth) == Ok((Number(n), i + |token|))
  {
    hide ReadObject, ReadArray, ReadString, Decimal.ParseI64, IsIntToken, IntShape, Utf8.Decode, DigitsEnd;
    IntTokenShape(token, n);
    IntTokenEnd(s, i, token);
    assert s[i..i + |token|] == token;
    ShapeIsText(token);
    NoSpaceHere(s, i);
  }

  lemma ShapeIsText(token: seq<byte>)
    requires IntShape(token)
    ensures Utf8.Decode(token) == Some(Utf8.Latin1(token))
    ensures forall k :: 0 <= k < |token| ==> token[k] < 0x80
  {
    hide IntShape, Utf8.Decode, Utf8.Encode;
    var t := Utf8.Latin1(token);
    forall k | 0 <= k < |token| ensures token[k] < 0x80 && t[k] as int < 0x80 {
      TokenByte(token, k);
    }
    Utf8.EncodeAscii(t);
    assert Utf8.Codes(t) == token;
    Utf8.DecodeEncode(t);
  }

  /** A number that was read, as an integer token. */
  lemma NumDerived(s: seq<byte>, i: nat) returns (t: Tree)
    requires i < |s| && (IsDigitByte(s[i]) || s[i] == MINUS) && ReadNumber(s, i).Ok?
    ensures t.Num? && Valid(t) && At(s, i, Text(t)) && ReadNumber(s, i).value.1 == i + |Text(t)|
    ensures Denotes(t, ReadNumber(s, i).value.0)
    ensures forall k :: 0 <= k < |Text(t)| ==> Text(t)[k] < 0x80
  {
    hide Decimal.ParseI64, IsIntToken, IntShape, Utf8.Decode;
    var first := if s[i] == MINUS then i + 1 else i;
    var end := DigitsEnd(s, first);
    var token := s[i..end];
    var n := ReadNumber(s, i).value.0.n;
    ShapeOfRun(s, i, first, end);
    ShapeIsText(token);
    ShapeIsToken(token, n);
    ShapeIsNumeral(token);
    t := Num(token);
  }

  lemma ShapeOfRun(s: seq<byte>, i: nat, first: nat, end: nat)
    requires i <= first < end <= |s| && first == (if s[i] == MINUS then i + 1 else i)
    requires (forall k :: first <= k < end ==> IsDigitByte(s[k])) && (end - first > 1 ==> s[first] != ZERO)
    ensures IntShape(s[i..end])
  {
    var t := s[i..end];
    if s[i] == MINUS { assert t[1..] == s[i + 1..end]; }
  }

  lemma ShapeIsNumeral(token: seq<byte>)
    requires IntShape(token)
    ensures T.IsNumberToken(token)
  {
    var sign := if token[0] == 0x2D then token[..1] else [];
    var digits := if token[0] == 0x2D then token[1..] else token;
    var n := T.Numeral(sign, digits, [], []);
    assert n.Text() == sign + digits;
    assert digits == [ZERO] || digits[0] != ZERO;
    assert n.Valid() && n.Text() == token;
  }

  lemma ShapeIsToken(token: seq<byte>, n: i64)
    requires IntShape(token) && Decimal.ParseI64(Utf8.Latin1(token)) == Some(n)
    ensures IsIntToken(token, n)
  {
    hide IntShape, Decimal.ParseI64, Decimal.IntText, Unsigned;
    TokenParts(token);
    var text, d := Utf8.Latin1(token), Utf8.Latin1(Unsigned(token));
    DigitsPlain(token);
    if token[0] == 0x2D {
      SignSplit(token);
      MinusIsToken(d, n);
    } else {
      SignSplit(token);
      PlainIsToken(d, n);
    }
  }

  lemma SignSplit(token: seq<byte>)
    requires IntShape(token)
    ensures Utf8.Latin1(token) == if token[0] == 0x2D then "-" + Utf8.Latin1(Unsigned(token)) else Utf8.Latin1(Unsigned(token))
  {
  }

  lemma PlainIsToken(d: string, n: i64)
    requires d != [] && (forall k :: 0 <= k < |d| ==> 0x30 <= d[k] as int <= 0x39) && (|d| > 1 ==> d[0] != '0')
    requires Decimal.ParseI64(d) == Some(n)
    ensures d == Decimal.IntText(n)
  {
    hide Decimal.NatText;
    SameDigits(d);
  }

  lemma MinusIsToken(d: string, n: i64)
    requires d != [] && (forall k :: 0 <= k < |d| ==> 0x30 <= d[k] as int <= 0x39) && (|d| > 1 ==> d[0] != '0')
    requires Decimal.ParseI64("-" + d) == Some(n)
    ensures "-" + d == Decimal.IntText(n) || (d == "0" && n == 0)
  {
    hide Decimal.NatText;
    SameDigits(d);
    assert ("-" + d)[1..] == d;
    if n == 0 { ZeroDigits(d); }
  }

  lemma DigitsPlain(token: seq<byte>)
    requires IntShape(token)
    ensures var d := Utf8.Latin1(Unsigned(token));
      d != [] && (forall k :: 0 <= k < |d| ==> 0x30 <= d[k] as int <= 0x39) && (|d| > 1 ==> d[0] != '0')
  {
  }

  lemma ZeroDigits(d: string)
    requires Decimal.AllDigits(d) && Decimal.NatText(Decimal.NatValue(d)) == d && Decimal.NatValue(d) == 0
    ensures d == "0"
  {
  }

  lemma SameDigits(d: string)
    requires d != [] && (forall k :: 0 <= k < |d| ==> 0x30 <= d[k] as int <= 0x39) && (|d| > 1 ==> d[0] != '0')
    ensures Decimal.AllDigits(d) && Decimal.NatText(Decimal.NatValue(d)) == d
  {
    hide Decimal.NatText;
    assert d[0] == '0' ==> d == "0";
    Decimal.NatTextOfValue(d);
  }

  // ----- every derivation is read

  lemma WordRead(s: seq<byte>, i: nat, t: Tree, v: JsonValue, depth: nat)
    requires depth <= MAX_DEPTH && At(s, i, Text(t)) && (t.NullWord? || t.TrueWord? || t.FalseWord?) && Denotes(t, v)
    ensures i <= |s| && ReadValue(s, i, depth) == Ok((v, i + |Text(t)|))
  {
    hide ReadObject, ReadArray, ReadString, ReadNumber;
    AtIndex(s, i, Text(t), 0);
    if t.FalseWord? {
      assert !At(s, i, TRUE_WORD) by {
        if At(s, i, TRUE_WORD) { AtIndex(s, i, TRUE_WORD, 0); }
      }
    }
    NoSpaceHere(s, i);
  }

  lemma StrRead(s: seq<byte>, i: nat, ps: seq<S.Piece>, depth: nat)
    requires depth <= MAX_DEPTH && At(s, i, S.Literal(ps)) && S.AllValid(ps) && NoPairs(ps)
    ensures i <= |s| && ReadString(s, i) == Ok((Heard(ps, false), i + |S.Literal(ps)|))
    ensures ReadValue(s, i, depth) == Ok((String(Heard(ps, false)), i + |S.Literal(ps)|))
  {
    hide ReadObject, ReadArray, ReadBool, ReadNull, ReadNumber, ReadString, S.AllValid, S.Spelled, NoPairs;
    ReadLiteral(s, i, ps);
    AtIndex(s, i, S.Literal(ps), 0);
    NoSpaceHere(s, i);
  }

  lemma {:induction false} TreeRead(s: seq<byte>, i: nat, t: Tree, v: JsonValue, depth: nat)
    requires Valid(t) && Denotes(t, v) && Allowed(t, depth) && At(s, i, Text(t)) && Stops(s, i + |Text(t)|)
    ensures i < |s| && ReadValue(s, i, depth) == Ok((v, i + |Text(t)|))
    decreases |s| - i, 2
  {
    hide ReadValue, S.Literal, S.AllValid, ElemsText, MemsText, At, Heard, NoPairs, ValidElem, ValidMem, IsSpace, T.IsNumberToken, IsIntToken, KeysDistinct;
    TextNonempty(t);
    AtEnd(s, i, Text(t));
    match t
    case NullWord => WordRead(s, i, t, v, depth);
    case TrueWord => WordRead(s, i, t, v, depth);
    case FalseWord => WordRead(s, i, t, v, depth);
    case Num(token) => NumRead(s, i, token, v.n, depth);
    case Str(ps) => StrRead(s, i, ps, depth);
    case Arr(gap, es) =>
      ArrOpens(s, i, gap, es, depth);
      if es != [] { ElemsRead(s, i + 1, es, v.items, depth, []); assert [] + v.items == v.items; }
    case Obj(gap, ms) =>
      ObjOpens(s, i, gap, ms, depth);
      assert [] + v.members == v.members;
      if ms != [] { MemsRead(s, i + 1, ms, v.members, depth, []); }
  }

  lemma ArrOpens(s: seq<byte>, i: nat, gap: seq<byte>, es: seq<Elem>, depth: nat)
    requires depth <= MAX_DEPTH && IsSpace(gap) && At(s, i, Text(Arr(gap, es)))
    requires es != [] ==> depth < MAX_DEPTH && ValidElem(es[0])
    ensures i < |s|
    ensures es == [] ==> ReadValue(s, i, depth) == Ok((Array([]), i + |Text(Arr(gap, es))|))
    ensures es != [] ==> At(s, i + 1, ElemsText(es) + [0x5D]) && ReadValue(s, i, depth) == ReadItems(s, i + 1, depth, [])
  {
    hide ReadItems, ReadArray, ReadValue, IsSpace, ElemsText, At, SkipWs, ValidElem;
    Enclosed(s, i, 0x5B, if es == [] then gap else ElemsText(es), 0x5D);
    ArrayStart(s, i, depth);
    if es == [] {
      SpaceSkipped(s, i + 1, gap);
      NoSpaceHere(s, i + 1 + |gap|);
    } else {
      ElemsStart(s, i + 1, es);
      ItemsBehindSpace(s, i + 1, depth);
    }
  }

  lemma ObjOpens(s: seq<byte>, i: nat, gap: seq<byte>, ms: seq<Mem>, depth: nat)
    requires depth <= MAX_DEPTH && IsSpace(gap) && At(s, i, Text(Obj(gap, ms)))
    requires ms != [] ==> ValidMem(ms[0])
    ensures i < |s|
    ensures ms == [] ==> ReadValue(s, i, depth) == Ok((Object([]), i + |Text(Obj(gap, ms))|))
    ensures ms != [] ==> At(s, i + 1, MemsText(ms) + [0x7D]) && ReadValue(s, i, depth) == ReadMembers(s, i + 1, depth, [])
  {
    hide ReadMembers, ReadObject, ReadValue, IsSpace, MemsText, At, SkipWs, ValidMem;
    Enclosed(s, i, 0x7B, if ms == [] then gap else MemsText(ms), 0x7D);
    ObjectStart(s, i, depth);
    if ms == [] {
      SpaceSkipped(s, i + 1, gap);
      NoSpaceHere(s, i + 1 + |gap|);
    } else {
      MemsStart(s, i + 1, ms);
      MembersBehindSpace(s, i + 1, depth, []);
    }
  }

  lemma {:induction false} ElemRead(s: seq<byte>, i: nat, e: Elem, v: JsonValue, depth: nat)
    requires ValidElem(e) && Denotes(e.value, v) && Allowed(e.value, depth) && At(s, i, ElemText(e))
    requires Stops(s, i + |ElemText(e)|)
    ensures var end := i + |e.before| + |Text(e.value)|;
      && i <= |s| && end <= i + |ElemText(e)| <= |s|
      && ReadValue(s, i, depth) == Ok((v, end))
      && SkipWs(s, end) == SkipWs(s, i + |ElemText(e)|)
    decreases |s| - i, 3
  {
    hide ReadValue, Text, Valid, NestsWithin, Denotes, IsSpace, At;
    AtSplit(s, i, e.before, Text(e.value) + e.after);
    var p := i + |e.before|;
    AtSplit(s, p, Text(e.value), e.after);
    ValueBehindSpace(s, i, e.before, depth);
    StopsBehind(s, p + |Text(e.value)|, e.after);
    TreeRead(s, p, e.value, v, depth);
    SpaceSkipped(s, p + |Text(e.value)|, e.after);
  }

  lemma {:induction false} ElemsRead(s: seq<byte>, i: nat, es: seq<Elem>, vs: seq<JsonValue>, depth: nat, out: seq<JsonValue>)
    requires es != [] && |vs| == |es| && depth < MAX_DEPTH && At(s, i, ElemsText(es) + [0x5D])
    requires forall k :: 0 <= k < |es| ==> ValidElem(es[k]) && Allowed(es[k].value, depth + 1) && Denotes(es[k].value, vs[k])
    ensures i <= |s| && ReadItems(s, i, depth, out) == Ok((Array(out + vs), i + |ElemsText(es)| + 1))
    decreases |s| - i, 4
  {
    hide ReadValue, ReadItems, ElemText, ElemsText, ValidElem, Allowed, Denotes, At, SkipWs;
    var e, n := es[0], |ElemText(es[0])|;
    AtSplit(s, i, ElemsText(es), [0x5D]);
    if |es| == 1 {
      assert es == [e] && vs == [vs[0]];
      LastElem(e);
      ByteAt(s, i + n, 0x5D);
      ElemRead(s, i, e, vs[0], depth + 1);
    } else {
      var rest := es[1..];
      assert es == [e] + rest && vs == [vs[0]] + vs[1..];
      OneMoreElem(e, rest);
      CommaSplit(s, i, ElemText(e), ElemsText(rest), 0x5D);
      ElemRead(s, i, e, vs[0], depth + 1);
      ElemsRead(s, i + n + 1, rest, vs[1..], depth, out + [vs[0]]);
      assert out + [vs[0]] + vs[1..] == out + ([vs[0]] + vs[1..]);
    }
    NoSpaceHere(s, i + n);
    ItemsStep(s, i, depth, out);
  }

  lemma {:induction false} MemRead(s: seq<byte>, i: nat, m: Mem, v: Member, depth: nat, out: seq<Member>)
    requires ValidMem(m) && DenotesMem(m, v) && Allowed(m.elem.value, depth + 1) && At(s, i, MemText(m))
    requires Stops(s, i + |MemText(m)|) && !HasKey(out, v.key)
    ensures i <= |s| && ReadMember(s, i, depth, out).Ok?
    ensures var (w, end) := ReadMember(s, i, depth, out).value;
      w == v && end <= i + |MemText(m)| <= |s| && SkipWs(s, end) == SkipWs(s, i + |MemText(m)|)
    decreases |s| - i, 4
  {
    hide ReadValue, ReadString, MemText, ElemText, S.Literal, ValidElem, IsSpace, Allowed, Denotes, At, Heard, NoPairs, S.AllValid, SkipWs, HasKey;
    MemSplit(s, i, m);
    MemStart(s, i, m);
    var k := i + |m.before|;
    var a := k + |S.Literal(m.key)|;
    var c := a + |m.afterKey|;
    StrRead(s, k, m.key, 0);
    SpaceSkipped(s, a, m.afterKey);
    NoSpaceHere(s, c);
    ElemRead(s, c + 1, m.elem, v.value, depth + 1);
  }

  lemma FreshKey(out: seq<Member>, v: Member, rest: seq<Member>)
    requires KeysDistinct(out + ([v] + rest))
    ensures !HasKey(out, v.key)
  {
    var all := out + ([v] + rest);
    assert all[|out|] == v;
    assert forall k :: 0 <= k < |out| ==> all[k] == out[k];
  }

  lemma {:induction false} MemsRead(s: seq<byte>, i: nat, ms: seq<Mem>, vs: seq<Member>, depth: nat, out: seq<Member>)
    requires ms != [] && |vs| == |ms| && depth < MAX_DEPTH && At(s, i, MemsText(ms) + [0x7D]) && KeysDistinct(out + vs)
    requires forall k :: 0 <= k < |ms| ==> ValidMem(ms[k]) && Allowed(ms[k].elem.value, depth + 1) && DenotesMem(ms[k], vs[k])
    ensures i <= |s| && ReadMembers(s, i, depth, out) == Ok((Object(out + vs), i + |MemsText(ms)| + 1))
    decreases |s| - i, 5
  {
    hide ReadMember, ReadMembers, MemText, MemsText, ValidMem, Allowed, DenotesMem, At, SkipWs, KeysDistinct, HasKey;
    var m, n := ms[0], |MemText(ms[0])|;
    AtSplit(s, i, MemsText(ms), [0x7D]);
    assert vs == [vs[0]] + vs[1..];
    FreshKey(out, vs[0], vs[1..]);
    if |ms| == 1 {
      assert ms == [m] && vs == [vs[0]];
      LastMember(m);
      ByteAt(s, i + n, 0x7D);
      MemRead(s, i, m, vs[0], depth, out);
    } else {
      var rest := ms[1..];
      assert ms == [m] + rest;
      OneMoreMember(m, rest);
      CommaSplit(s, i, MemText(m), MemsText(rest), 0x7D);
      MemRead(s, i, m, vs[0], depth, out);
      assert out + [vs[0]] + vs[1..] == out + ([vs[0]] + vs[1..]);
      MemsRead(s, i + n + 1, rest, vs[1..], depth, out + [vs[0]]);
    }
    NoSpaceHere(s, i + n);
    MembersStep(s, i, depth, out);
  }

  // ----- whatever is read has a derivation

  lemma SpacePassed(s: seq<byte>, i: nat) returns (t: seq<byte>)
    requires TextFrom(s, i)
    ensures IsSpace(t) && At(s, i, t) && i + |t| == SkipWs(s, i) && TextFrom(s, SkipWs(s, i))
  {
    hide TextFrom;
    t := SkippedSpaceHere(s, i);
    PastAscii(s, i, |t|);
  }

  lemma SkippedSpaceHere(s: seq<byte>, i: nat) returns (t: seq<byte>)
    requires TextFrom(s, i)
    ensures IsSpace(t) && At(s, i, t) && i + |t| == SkipWs(s, i)
    ensures i <= |s| && i + |t| <= |s| && forall k :: i <= k < i + |t| ==> s[k] < 0x80
  {
    t := SkippedSpace(s, i);
  }

  /** A value that was read, as the space in front of it and a tree that denotes it. */
  ghost predicate IsDerived(s: seq<byte>, i: nat, depth: nat, before: seq<byte>, t: Tree)
    requires i <= |s|
  {
    && IsSpace(before) && Valid(t) && Allowed(t, depth) && At(s, i, before + Text(t))
    && ReadValue(s, i, depth).Ok? && Denotes(t, ReadValue(s, i, depth).value.0)
    && ReadValue(s, i, depth).value.1 == i + |before| + |Text(t)|
    && TextFrom(s, i + |before| + |Text(t)|)
  }

  lemma {:induction false} ValueDerived(s: seq<byte>, i: nat, depth: nat) returns (before: seq<byte>, t: Tree)
    requires TextFrom(s, i) && ReadValue(s, i, depth).Ok?
    ensures IsDerived(s, i, depth, before, t)
    decreases |s| - i, 2
  {
    hide ReadString, ReadNumber, ReadItems, ReadMembers, ReadBool, ReadNull, S.Literal, S.AllValid, At, IsSpace, T.IsNumberToken,
      ElemsText, MemsText, TextFrom, Heard, NoPairs, IsIntToken;
    before := SpacePassed(s, i);
    var j := SkipWs(s, i);
    if s[j] == LBRACE {
      t := ObjectDerived(s, j, depth);
    } else if s[j] == LBRACKET {
      t := ArrayDerived(s, j, depth);
    } else if s[j] == QUOTE {
      t := StrDerived(s, j);
    } else if IsDigitByte(s[j]) || s[j] == MINUS {
      t := NumDerived(s, j);
      AsciiPassed(s, j, Text(t));
    } else {
      t := WordDerived(s, j);
      AsciiPassed(s, j, Text(t));
    }
    AtSplit(s, i, before, Text(t));
  }

  lemma AsciiPassed(s: seq<byte>, i: nat, t: seq<byte>)
    requires TextFrom(s, i) && At(s, i, t) && forall k :: 0 <= k < |t| ==> t[k] < 0x80
    ensures TextFrom(s, i + |t|)
  {
    hide TextFrom;
    forall k | i <= k < i + |t| ensures s[k] < 0x80 {
      AtIndex(s, i, t, k - i);
    }
    PastAscii(s, i, |t|);
  }

  lemma WordDerived(s: seq<byte>, i: nat) returns (t: Tree)
    requires i < |s|
    requires if s[i] == 0x74 || s[i] == 0x66 then ReadBool(s, i).Ok? else ReadNull(s, i).Ok?
    ensures t.NullWord? || t.TrueWord? || t.FalseWord?
    ensures At(s, i, Text(t)) && forall k :: 0 <= k < |Text(t)| ==> Text(t)[k] < 0x80
    ensures var r := if s[i] == 0x74 || s[i] == 0x66 then ReadBool(s, i) else ReadNull(s, i);
      r.value.1 == i + |Text(t)| && Denotes(t, r.value.0)
  {
    t := if At(s, i, [0x74, 0x72, 0x75, 0x65]) then TrueWord else if At(s, i, [0x66, 0x61, 0x6C, 0x73, 0x65]) then FalseWord else NullWord;
    if At(s, i, NULL_WORD) { AtIndex(s, i, NULL_WORD, 0); }
    if At(s, i, TRUE_WORD) { AtIndex(s, i, TRUE_WORD, 0); }
    if At(s, i, FALSE_WORD) { AtIndex(s, i, FALSE_WORD, 0); }
  }

  lemma StrDerived(s: seq<byte>, i: nat) returns (t: Tree)
    requires TextFrom(s, i) && ReadString(s, i).Ok?
    ensures t.Str? && S.AllValid(t.pieces) && NoPairs(t.pieces) && At(s, i, Text(t))
    ensures ReadString(s, i) == Ok((Heard(t.pieces, false), i + |Text(t)|))
    ensures TextFrom(s, i + |Text(t)|)
  {
    hide ReadString, S.AllValid, Heard, NoPairs, S.Literal, At, TextFrom;
    var (u, j) := ReadString(s, i).value;
    ReadStringHeard(s, i, u, j);
    var ps :| S.AllValid(ps) && NoPairs(ps) && Heard(ps, false) == u && At(s, i, S.Literal(ps)) && j == i + |S.Literal(ps)|;
    t := Str(ps);
  }

  lemma ArrayDerived(s: seq<byte>, i: nat, depth: nat) returns (t: Tree)
    requires TextFrom(s, i) && i < |s| && s[i] == 0x5B && depth <= MAX_DEPTH && ReadArray(s, i, depth).Ok?
    ensures Valid(t) && Allowed(t, depth) && At(s, i, Text(t)) && TextFrom(s, i + |Text(t)|)
    ensures Denotes(t, ReadArray(s, i, depth).value.0) && ReadArray(s, i, depth).value.1 == i + |Text(t)|
    decreases |s| - i, 1
  {
    hide ReadItems, ReadArray, ReadValue, IsSpace, At, ElemsText, ValidElem, NestsWithin, Valid, Denotes, SkipWs, Text, TextFrom;
    PastAscii(s, i, 1);
    var gap := SpacePassed(s, i + 1);
    var k := i + 1 + |gap|;
    ArrayStart(s, i, depth);
    ByteAt(s, i, 0x5B);
    if k < |s| && s[k] == 0x5D {
      ByteAt(s, k, 0x5D);
      PastAscii(s, k, 1);
      AtSplit(s, i + 1, gap, [0x5D]);
      AtSplit(s, i, [0x5B], gap + [0x5D]);
      t := Arr(gap, []);
      EmptyArray(gap, depth);
    } else {
      var es, vs := ItemsDerived(s, k, depth, []);
      assert [] + vs == vs;
      AtSplit(s, i + 1, gap, ElemsText(es) + [0x5D]);
      AtSplit(s, i, [0x5B], gap + (ElemsText(es) + [0x5D]));
      t := FullArray(gap, es, vs, depth);
    }
  }

  lemma EmptyArray(gap: seq<byte>, depth: nat)
    requires IsSpace(gap) && depth <= MAX_DEPTH
    ensures var t := Arr(gap, []);
      Valid(t) && Allowed(t, depth) && Text(t) == [0x5B] + (gap + [0x5D]) && Denotes(t, Array([]))
  {
  }

  /** The array of these elements, with the space before the first one. */
  lemma FullArray(gap: seq<byte>, es: seq<Elem>, vs: seq<JsonValue>, depth: nat) returns (t: Tree)
    requires IsSpace(gap) && es != [] && |vs| == |es| && depth < MAX_DEPTH
    requires forall k :: 0 <= k < |es| ==> ValidElem(es[k]) && Allowed(es[k].value, depth + 1) && Denotes(es[k].value, vs[k])
    ensures Valid(t) && Allowed(t, depth) && Denotes(t, Array(vs))
    ensures Text(t) == [0x5B] + (gap + (ElemsText(es) + [0x5D]))
  {
    hide ValidElem, ElemsText, IsSpace;
    var first := es[0].(before := gap + es[0].before);
    var all := [first] + es[1..];
    t := Arr([], all);
    EmptySpace();
    SpaceConcat(gap, es[0]);
    Widened(gap, es);
    Regroup(gap, ElemsText(es), [0x5D], [], [], []);
    forall n | 0 <= n < |all|
      ensures ValidElem(all[n]) && NestsWithin(all[n].value, MAX_DEPTH - depth - 1) && Denotes(all[n].value, vs[n])
    {
      assert Allowed(es[n].value, depth + 1);
      assert n > 0 ==> all[n] == es[n];
    }
  }

  lemma Widened(gap: seq<byte>, es: seq<Elem>)
    requires es != []
    ensures ElemsText([es[0].(before := gap + es[0].before)] + es[1..]) == gap + ElemsText(es)
  {
    hide Text;
    var e := es[0];
    var first := e.(before := gap + e.before);
    var all := [first] + es[1..];
    assert all[1..] == es[1..];
    Regroup(gap, e.before, Text(e.value) + e.after, [], [], []);
    assert ElemText(first) == gap + ElemText(e);
    if |es| > 1 { Regroup(gap, ElemText(e), [0x2C] + ElemsText(es[1..]), [], [], []); }
  }

  /** The elements and values of a loop that was left with success. */
  lemma {:induction false} ItemsDerived(s: seq<byte>, i: nat, depth: nat, out: seq<JsonValue>)
    returns (es: seq<Elem>, vs: seq<JsonValue>)
    requires TextFrom(s, i) && ReadItems(s, i, depth, out).Ok?
    ensures es != [] && |vs| == |es| && depth < MAX_DEPTH && At(s, i, ElemsText(es) + [0x5D])
    ensures forall k :: 0 <= k < |es| ==> ValidElem(es[k]) && Allowed(es[k].value, depth + 1) && Denotes(es[k].value, vs[k])
    ensures ReadItems(s, i, depth, out) == Ok((Array(out + vs), i + |ElemsText(es)| + 1))
    ensures TextFrom(s, i + |ElemsText(es)| + 1)
    decreases |s| - i, 3
  {
    hide ReadValue, ReadItems, IsSpace, Text, Valid, Denotes, At, ElemText, ElemsText, NestsWithin, SkipWs, TextFrom;
    ItemsStep(s, i, depth, out);
    var v := ReadValue(s, i, depth + 1).value.0;
    var before, t := ValueDerived(s, i, depth + 1);
    var end := i + |before| + |Text(t)|;
    var after := SpacePassed(s, end);
    var k := end + |after|;
    var e := Elem(before, t, after);
    ElemAt(s, i, e);
    PastAscii(s, k, 1);
    if s[k] == 0x5D {
      es, vs := [e], [v];
      LastElem(e);
      ByteAt(s, k, 0x5D);
      AtSplit(s, i, ElemText(e), [0x5D]);
    } else {
      var rest, ws := ItemsDerived(s, k + 1, depth, out + [v]);
      es, vs := [e] + rest, [v] + ws;
      OneMoreElem(e, rest);
      CommaSplit(s, i, ElemText(e), ElemsText(rest), 0x5D);
      assert out + [v] + ws == out + vs;
    }
  }

  lemma ObjectDerived(s: seq<byte>, i: nat, depth: nat) returns (t: Tree)
    requires TextFrom(s, i) && i < |s| && s[i] == 0x7B && depth <= MAX_DEPTH && ReadObject(s, i, depth).Ok?
    ensures Valid(t) && Allowed(t, depth) && At(s, i, Text(t)) && TextFrom(s, i + |Text(t)|)
    ensures Denotes(t, ReadObject(s, i, depth).value.0) && ReadObject(s, i, depth).value.1 == i + |Text(t)|
    decreases |s| - i, 1
  {
    hide ReadMembers, ReadObject, ReadValue, IsSpace, At, MemsText, ValidMem, NestsWithin, Valid, Denotes, SkipWs, Text, TextFrom;
    PastAscii(s, i, 1);
    var gap := SpacePassed(s, i + 1);
    var k := i + 1 + |gap|;
    ObjectStart(s, i, depth);
    ByteAt(s, i, 0x7B);
    if k < |s| && s[k] == 0x7D {
      ByteAt(s, k, 0x7D);
      PastAscii(s, k, 1);
      AtSplit(s, i + 1, gap, [0x7D]);
      AtSplit(s, i, [0x7B], gap + [0x7D]);
      t := Obj(gap, []);
      EmptyObject(gap, depth);
    } else {
      var ms, vs := MembersDerived(s, k, depth, []);
      assert [] + vs == vs;
      AtSplit(s, i + 1, gap, MemsText(ms) + [0x7D]);
      AtSplit(s, i, [0x7B], gap + (MemsText(ms) + [0x7D]));
      t := FullObject(gap, ms, vs, depth);
    }
  }

  lemma EmptyObject(gap: seq<byte>, depth: nat)
    requires IsSpace(gap) && depth <= MAX_DEPTH
    ensures var t := Obj(gap, []);
      Valid(t) && Allowed(t, depth) && Text(t) == [0x7B] + (gap + [0x7D]) && Denotes(t, Object([]))
  {
  }

  lemma FullObject(gap: seq<byte>, ms: seq<Mem>, vs: seq<Member>, depth: nat) returns (t: Tree)
    requires IsSpace(gap) && ms != [] && |vs| == |ms| && depth < MAX_DEPTH && KeysDistinct(vs)
    requires forall k :: 0 <= k < |ms| ==> ValidMem(ms[k]) && Allowed(ms[k].elem.value, depth + 1) && DenotesMem(ms[k], vs[k])
    ensures Valid(t) && Allowed(t, depth) && Denotes(t, Object(vs))
    ensures Text(t) == [0x7B] + (gap + (MemsText(ms) + [0x7D]))
  {
    hide ValidMem, MemsText, IsSpace, KeysDistinct, NoPairs, Heard;
    var first := ms[0].(before := gap + ms[0].before);
    var all := [first] + ms[1..];
    t := Obj([], all);
    EmptySpace();
    SpaceConcatMem(gap, ms[0]);
    WidenedMems(gap, ms);
    Regroup(gap, MemsText(ms), [0x7D], [], [], []);
    forall n | 0 <= n < |all|
      ensures ValidMem(all[n]) && NestsWithin(all[n].elem.value, MAX_DEPTH - depth - 1) && DenotesMem(all[n], vs[n])
    {
      assert Allowed(ms[n].elem.value, depth + 1) && DenotesMem(ms[n], vs[n]);
      assert n > 0 ==> all[n] == ms[n];
    }
  }

  lemma WidenedMems(gap: seq<byte>, ms: seq<Mem>)
    requires ms != []
    ensures MemsText([ms[0].(before := gap + ms[0].before)] + ms[1..]) == gap + MemsText(ms)
  {
    hide S.Literal, ElemText;
    var m := ms[0];
    var first := m.(before := gap + m.before);
    var all := [first] + ms[1..];
    assert all[1..] == ms[1..];
    var tail := S.Literal(m.key) + (m.afterKey + ([0x3A] + ElemText(m.elem)));
    Regroup(gap, m.before, tail, [], [], []);
    assert MemText(first) == gap + MemText(m);
    if |ms| > 1 { Regroup(gap, MemText(m), [0x2C] + MemsText(ms[1..]), [], [], []); }
  }

  lemma {:induction false} MemberDerived(s: seq<byte>, i: nat, depth: nat, out: seq<Member>) returns (m: Mem)
    requires TextFrom(s, i) && ReadMember(s, i, depth, out).Ok?
    ensures m.elem.after == [] && ValidMem(m) && Allowed(m.elem.value, depth + 1) && At(s, i, MemText(m))
    ensures var (v, end) := ReadMember(s, i, depth, out).value;
      DenotesMem(m, v) && !HasKey(out, v.key) && end == i + |MemText(m)| && TextFrom(s, end)
    decreases |s| - i, 3
  {
    hide ReadValue, ReadString, IsSpace, Text, Valid, Denotes, At, S.Literal, S.AllValid, NestsWithin, Heard, NoPairs, TextFrom, HasKey;
    var before := SpacePassed(s, i);
    var k := i + |before|;
    var key := StrDerived(s, k);
    KeyText(key);
    var a := k + |S.Literal(key.pieces)|;
    var afterKey := SpacePassed(s, a);
    var c := a + |afterKey|;
    ByteAt(s, c, 0x3A);
    PastAscii(s, c, 1);
    var gap, t := ValueDerived(s, c + 1, depth + 1);
    var e := Elem(gap, t, []);
    EmptySpace();
    AtNothing(s, c + 1 + |gap| + |Text(t)|);
    ElemAt(s, c + 1, e);
    m := Mem(before, key.pieces, afterKey, e);
    hide ElemText;
    MemJoins(s, i, m);
  }

  lemma DistinctGrows(out: seq<Member>, v: Member)
    requires KeysDistinct(out) && !HasKey(out, v.key)
    ensures KeysDistinct(out + [v])
  {
    var all := out + [v];
    forall a, b | 0 <= a < b < |all| ensures all[a].key != all[b].key {
      if b == |out| { assert all[a] == out[a] && out[a] in out; }
    }
  }

  lemma {:induction false} MembersDerived(s: seq<byte>, i: nat, depth: nat, out: seq<Member>)
    returns (ms: seq<Mem>, vs: seq<Member>)
    requires TextFrom(s, i) && ReadMembers(s, i, depth, out).Ok? && KeysDistinct(out)
    ensures ms != [] && |vs| == |ms| && depth < MAX_DEPTH && At(s, i, MemsText(ms) + [0x7D]) && KeysDistinct(out + vs)
    ensures forall k :: 0 <= k < |ms| ==> ValidMem(ms[k]) && Allowed(ms[k].elem.value, depth + 1) && DenotesMem(ms[k], vs[k])
    ensures ReadMembers(s, i, depth, out) == Ok((Object(out + vs), i + |MemsText(ms)| + 1))
    ensures TextFrom(s, i + |MemsText(ms)| + 1)
    decreases |s| - i, 4
  {
    hide ReadMember, ReadMembers, IsSpace, At, MemText, MemsText, NestsWithin, ValidMem, Denotes, Heard, NoPairs, SkipWs, TextFrom, KeysDistinct, HasKey;
    MembersStep(s, i, depth, out);
    var v := ReadMember(s, i, depth, out).value.0;
    var bare := MemberDerived(s, i, depth, out);
    var end := i + |MemText(bare)|;
    var after := SpacePassed(s, end);
    var k := end + |after|;
    var m := bare.(elem := bare.elem.(after := after));
    SpaceBehind(s, i, bare, after);
    DistinctGrows(out, v);
    PastAscii(s, k, 1);
    if s[k] == 0x7D {
      ms, vs := [m], [v];
      LastMember(m);
      ByteAt(s, k, 0x7D);
      AtSplit(s, i, MemText(m), [0x7D]);
    } else {
      var rest, ws := MembersDerived(s, k + 1, depth, out + [v]);
      ms, vs := [m] + rest, [v] + ws;
      OneMoreMember(m, rest);
      CommaSplit(s, i, MemText(m), MemsText(rest), 0x7D);
      assert out + [v] + ws == out + vs;
    }
  }

  // ----- documents

  /** The document has a derivation within the depth bound that denotes `v`. */
  ghost predicate Derives(s: seq<byte>, v: JsonValue) {
    exists e :: ValidElem(e) && NestsWithin(e.value, 64) && ElemText(e) == s && Denotes(e.value, v)
  }

  /** The integer-only reader is the grammar with its three restrictions: a text is read
      as a value exactly when it has a derivation, nesting at most 64 deep, that denotes
      the value. */
  lemma ParseIff(text: string, v: JsonValue)
    ensures Parse(text) == Ok(v) <==> Derives(Utf8.Encode(text), v)
  {
    hide ReadValue, ValidElem, ElemText, Denotes, NestsWithin, Utf8.Encode, Utf8.Decode;
    var s := Utf8.Encode(text);
    Utf8.DecodeEncode(text);
    assert s[0..] == s;
    if Parse(text) == Ok(v) { DocumentDerived(s, v); }
    if Derives(s, v) {
      var e :| ValidElem(e) && NestsWithin(e.value, 64) && ElemText(e) == s && Denotes(e.value, v);
      DocumentRead(s, e, v);
    }
  }

  lemma DocumentRead(s: seq<byte>, e: Elem, v: JsonValue)
    requires ValidElem(e) && NestsWithin(e.value, 64) && ElemText(e) == s && Denotes(e.value, v)
    ensures ReadDocument(s) == Ok(v)
  {
    hide ReadValue, ElemText, Denotes, NestsWithin, ValidElem;
    assert s[0..|s|] == s;
    ElemStart(s, 0, e);
    ElemRead(s, 0, e, v, 0);
    var gap := SkippedSpace(s, 0);
    ValueBehindSpace(s, 0, gap, 0);
    EndSkipped(s);
  }

  /** A derived value, with the space behind it, derives the document. */
  lemma DerivedBy(s: seq<byte>, gap: seq<byte>, before: seq<byte>, t: Tree, after: seq<byte>, v: JsonValue)
    requires IsSpace(gap) && IsSpace(before) && Valid(t) && IsSpace(after) && NestsWithin(t, 64) && Denotes(t, v)
    requires At(s, 0, gap) && At(s, |gap|, before + Text(t)) && At(s, |gap| + |before| + |Text(t)|, after)
    requires |gap| + |before| + |Text(t)| + |after| == |s|
    ensures Derives(s, v)
  {
    hide Text, Denotes, NestsWithin, Valid, IsSpace, At;
    var e := Elem(gap + before, t, after);
    AtSplit(s, 0, gap, before + Text(t));
    Regroup(gap, before, Text(t), [], [], []);
    ElemAt(s, 0, e);
    WholeText(s, ElemText(e));
    SpaceConcatElem(gap, before, t, after);
  }

  lemma WholeText(s: seq<byte>, t: seq<byte>)
    requires At(s, 0, t) && |t| == |s|
    ensures t == s
  {
    assert s[0..|s|] == s;
  }

  lemma DocumentDerived(s: seq<byte>, v: JsonValue)
    requires ReadDocument(s) == Ok(v) && TextFrom(s, 0)
    ensures Derives(s, v)
  {
    hide ReadValue, Text, Denotes, NestsWithin, Valid, IsSpace, TextFrom, At, Derives;
    var gap := SpacePassed(s, 0);
    var before, t := ValueDerived(s, SkipWs(s, 0), 0);
    var after := SpacePassed(s, |gap| + |before| + |Text(t)|);
    DerivedBy(s, gap, before, t, after, v);
  }
}
