/** The lossless reader against the whole grammar: a document is accepted, as a value,
    exactly when some derivation of it that nests at most 64 deep denotes that value. */
module LiteGrammar {
  import opened Prelude
  import opened JsonLex
  import opened JsonLite
  import opened LiteStrings
  import opened LiteTokens
  import opened JsonGrammar
  import Utf8

  // ----- what a tree denotes

  function LiteOf(t: Tree): LiteValue {
    match t
    case NullWord => Null
    case TrueWord => Bool(true)
    case FalseWord => Bool(false)
    case Num(token) => Number(Utf8.Latin1(token))
    case Str(pieces) => String(Scalars(pieces))
    case Arr(_, elems) => Array(LiteItems(elems))
    case Obj(_, members) => Object(LiteMembers(members))
  }

  function LiteItems(es: seq<Elem>): seq<LiteValue> {
    if es == [] then [] else [LiteOf(es[0].value)] + LiteItems(es[1..])
  }

  function LiteMembers(ms: seq<Mem>): seq<LiteMember> {
    if ms == [] then [] else [LiteMember(Scalars(ms[0].key), LiteOf(ms[0].elem.value))] + LiteMembers(ms[1..])
  }

  // ----- bytes at a place

  /** Space in front of a value changes nothing. */
  lemma ValueBehindSpace(s: seq<byte>, i: nat, t: seq<byte>, depth: nat)
    requires depth <= MAX_DEPTH && IsSpace(t) && At(s, i, t)
    ensures i + |t| <= |s| && ReadValue(s, i, depth) == ReadValue(s, i + |t|, depth)
  {
    hide ReadObject, ReadArray, ReadString, ReadBool, ReadNull, ReadNumber, IsSpace, At;
    SpaceSkipped(s, i, t);
  }

  // ----- the loops, one pass at a time

  /** What the array loop does once its value is read. */
  lemma ItemsStep(s: seq<byte>, i: nat, depth: nat, out: seq<LiteValue>)
    requires i <= |s|
    ensures var l, r := ReadValue(s, i, depth + 1), ReadItems(s, i, depth, out);
      && (l.Err? ==> r == Err(l.error))
      && (l.Ok? ==> var k := SkipWs(s, l.value.1);
           r == if k == |s| then Err(UnexpectedEof)
                else if s[k] == 0x2C then ReadItems(s, k + 1, depth, out + [l.value.0])
                else if s[k] == 0x5D then Ok((Array(out + [l.value.0]), k + 1))
                else Err(UnexpectedByte(k, s[k])))
  {
    hide ReadValue;
  }

  lemma MembersStep(s: seq<byte>, i: nat, depth: nat, out: seq<LiteMember>)
    requires i <= |s|
    ensures var l, r := ReadMember(s, i, depth), ReadMembers(s, i, depth, out);
      && (l.Err? ==> r == Err(l.error))
      && (l.Ok? ==> var k := SkipWs(s, l.value.1);
           r == if k == |s| then Err(UnexpectedEof)
                else if s[k] == 0x2C then ReadMembers(s, k + 1, depth, out + [l.value.0])
                else if s[k] == 0x7D then Ok((Object(out + [l.value.0]), k + 1))
                else Err(UnexpectedByte(k, s[k])))
  {
    hide ReadMember;
  }

  lemma LastElem(e: Elem)
    ensures ElemsText([e]) == ElemText(e) && LiteItems([e]) == [LiteOf(e.value)]
  {
    hide ElemText, LiteOf;
    assert [e][1..] == [];
  }

  lemma OneMoreElem(e: Elem, rest: seq<Elem>)
    requires rest != []
    ensures ElemsText([e] + rest) == ElemText(e) + ([0x2C] + ElemsText(rest))
    ensures LiteItems([e] + rest) == [LiteOf(e.value)] + LiteItems(rest)
  {
    hide ElemText, LiteOf;
    assert ([e] + rest)[1..] == rest;
  }

  function MemberOf(m: Mem): LiteMember {
    LiteMember(Scalars(m.key), LiteOf(m.elem.value))
  }

  lemma LastMember(m: Mem)
    ensures MemsText([m]) == MemText(m) && LiteMembers([m]) == [MemberOf(m)]
  {
    hide MemText, LiteOf, Scalars;
    assert [m][1..] == [];
  }

  lemma OneMoreMember(m: Mem, rest: seq<Mem>)
    requires rest != []
    ensures MemsText([m] + rest) == MemText(m) + ([0x2C] + MemsText(rest))
    ensures LiteMembers([m] + rest) == [MemberOf(m)] + LiteMembers(rest)
  {
    hide MemText, LiteOf, Scalars;
    assert ([m] + rest)[1..] == rest;
  }

  // ----- every derivation is read

  lemma WordRead(s: seq<byte>, i: nat, t: Tree, depth: nat)
    requires depth <= MAX_DEPTH && At(s, i, Text(t)) && (t.NullWord? || t.TrueWord? || t.FalseWord?)
    ensures i <= |s| && ReadValue(s, i, depth) == Ok((LiteOf(t), i + |Text(t)|))
  {
    hide ReadObject, ReadArray, ReadString, ReadNumber;
    AtIndex(s, i, Text(t), 0);
    if t.FalseWord? {
      AtIndex(s, i, Text(t), 1);
      assert !At(s, i, TRUE_WORD) by {
        if At(s, i, TRUE_WORD) { AtIndex(s, i, TRUE_WORD, 0); }
      }
    }
    NoSpaceHere(s, i);
  }

  lemma NumRead(s: seq<byte>, i: nat, token: seq<byte>, depth: nat)
    requires depth <= MAX_DEPTH && At(s, i, token) && IsNumberToken(token) && Stops(s, i + |token|)
    ensures i <= |s| && ReadValue(s, i, depth) == Ok((Number(Utf8.Latin1(token)), i + |token|))
  {
    hide ReadObject, ReadArray, ReadString, ReadNumber, NumberEnd, IsNumberToken, Maximal;
    var n := NumeralOf(token);
    var j := i + |token|;
    ScanToken(s, i, n);
    assert s[i..j] == token;
    NumberEndIff(s, i, j);
    TokenIsRead(s, i, j);
    TokenHead(n);
    AtIndex(s, i, token, 0);
    NoSpaceHere(s, i);
  }

  lemma StrRead(s: seq<byte>, i: nat, ps: seq<Piece>, depth: nat)
    requires depth <= MAX_DEPTH && At(s, i, Literal(ps)) && AllValid(ps)
    ensures i <= |s| && ReadString(s, i) == Ok((Scalars(ps), i + |Literal(ps)|))
    ensures ReadValue(s, i, depth) == Ok((String(Scalars(ps)), i + |Literal(ps)|))
  {
    hide ReadObject, ReadArray, ReadBool, ReadNull, ReadNumber, ReadString, AllValid, Spelled;
    assert IsLiteral(s, i, i + |Literal(ps)|, Scalars(ps));
    ReadStringIff(s, i, Scalars(ps), i + |Literal(ps)|);
    AtIndex(s, i, Literal(ps), 0);
    NoSpaceHere(s, i);
  }

  lemma {:induction false} TreeRead(s: seq<byte>, i: nat, t: Tree, depth: nat)
    requires Valid(t) && Allowed(t, depth) && At(s, i, Text(t)) && Stops(s, i + |Text(t)|)
    ensures i < |s| && ReadValue(s, i, depth) == Ok((LiteOf(t), i + |Text(t)|))
    decreases |s| - i, 2
  {
    hide ReadValue, Literal, AllValid, ElemsText, MemsText, At, Scalars, ValidElem, ValidMem, IsSpace, IsNumberToken;
    TextNonempty(t);
    AtEnd(s, i, Text(t));
    match t
    case NullWord => WordRead(s, i, t, depth);
    case TrueWord => WordRead(s, i, t, depth);
    case FalseWord => WordRead(s, i, t, depth);
    case Num(token) => NumRead(s, i, token, depth);
    case Str(ps) => StrRead(s, i, ps, depth);
    case Arr(gap, es) =>
      ArrOpens(s, i, gap, es, depth);
      if es != [] { ElemsRead(s, i + 1, es, depth, []); assert [] + LiteItems(es) == LiteItems(es); }
    case Obj(gap, ms) =>
      ObjOpens(s, i, gap, ms, depth);
      if ms != [] { MemsRead(s, i + 1, ms, depth, []); assert [] + LiteMembers(ms) == LiteMembers(ms); }
  }

  /** The items loop may start anywhere in the space before the first value. */
  lemma ItemsBehindSpace(s: seq<byte>, i: nat, depth: nat)
    requires i <= |s| && depth < MAX_DEPTH
    ensures ReadItems(s, i, depth, []) == ReadItems(s, SkipWs(s, i), depth, [])
  {
    hide ReadValue, ReadItems, SkipWs;
    var t := SkippedSpace(s, i);
    ValueBehindSpace(s, i, t, depth + 1);
    ItemsStep(s, i, depth, []);
    ItemsStep(s, SkipWs(s, i), depth, []);
  }

  /** The bracket and what the reader does behind it. */
  lemma ArrayStart(s: seq<byte>, i: nat, depth: nat)
    requires depth <= MAX_DEPTH && i < |s| && s[i] == 0x5B
    ensures var k := SkipWs(s, i + 1);
      ReadValue(s, i, depth) == ReadArray(s, i, depth) ==
        if k < |s| && s[k] == 0x5D then Ok((Array([]), k + 1)) else ReadItems(s, k, depth, [])
  {
    hide ReadItems, ReadObject, ReadBool, ReadNull, ReadString, ReadNumber;
    NoSpaceHere(s, i);
  }

  lemma ObjectStart(s: seq<byte>, i: nat, depth: nat)
    requires depth <= MAX_DEPTH && i < |s| && s[i] == 0x7B
    ensures var k := SkipWs(s, i + 1);
      ReadValue(s, i, depth) == ReadObject(s, i, depth) ==
        if k < |s| && s[k] == 0x7D then Ok((Object([]), k + 1)) else ReadMembers(s, k, depth, [])
  {
    hide ReadMembers, ReadArray, ReadBool, ReadNull, ReadString, ReadNumber;
    NoSpaceHere(s, i);
  }

  lemma ArrOpens(s: seq<byte>, i: nat, gap: seq<byte>, es: seq<Elem>, depth: nat)
    requires depth <= MAX_DEPTH && IsSpace(gap) && At(s, i, Text(Arr(gap, es)))
    requires es != [] ==> depth < MAX_DEPTH && ValidElem(es[0])
    ensures i < |s|
    ensures es == [] ==> ReadValue(s, i, depth) == Ok((Array([]), i + |Text(Arr(gap, es))|))
    ensures es != [] ==> At(s, i + 1, ElemsText(es) + [0x5D]) && ReadValue(s, i, depth) == ReadItems(s, i + 1, depth, [])
  {
    hide ReadItems, ReadArray, ReadValue, IsSpace, ElemsText, At, SkipWs, ValidElem;
    Enclosed(s, i, 0x5B, if es == [] then gap else ElemsText(es), 0x5D);
    ArrayStart(s, i, depth);
    if es == [] {
      SpaceSkipped(s, i + 1, gap);
      NoSpaceHere(s, i + 1 + |gap|);
    } else {
      ElemsStart(s, i + 1, es);
      ItemsBehindSpace(s, i + 1, depth);
    }
  }

  /** One element and what the loop does behind it. */
  lemma {:induction false} ElemRead(s: seq<byte>, i: nat, e: Elem, depth: nat)
    requires ValidElem(e) && Allowed(e.value, depth) && At(s, i, ElemText(e))
    requires Stops(s, i + |ElemText(e)|)
    ensures var end := i + |e.before| + |Text(e.value)|;
      && i <= |s| && end <= i + |ElemText(e)| <= |s|
      && ReadValue(s, i, depth) == Ok((LiteOf(e.value), end))
      && SkipWs(s, end) == SkipWs(s, i + |ElemText(e)|)
    decreases |s| - i, 3
  {
    hide ReadValue, Text, Valid, NestsWithin, LiteOf, IsSpace, At;
    AtSplit(s, i, e.before, Text(e.value) + e.after);
    var p := i + |e.before|;
    AtSplit(s, p, Text(e.value), e.after);
    ValueBehindSpace(s, i, e.before, depth);
    StopsBehind(s, p + |Text(e.value)|, e.after);
    TreeRead(s, p, e.value, depth);
    SpaceSkipped(s, p + |Text(e.value)|, e.after);
  }

  lemma {:induction false} ElemsRead(s: seq<byte>, i: nat, es: seq<Elem>, depth: nat, out: seq<LiteValue>)
    requires es != [] && depth < MAX_DEPTH && At(s, i, ElemsText(es) + [0x5D])
    requires forall k :: 0 <= k < |es| ==> ValidElem(es[k]) && Allowed(es[k].value, depth + 1)
    ensures i <= |s| && ReadItems(s, i, depth, out) == Ok((Array(out + LiteItems(es)), i + |ElemsText(es)| + 1))
    decreases |s| - i, 4
  {
    hide ReadValue, ReadItems, ElemText, ElemsText, ValidElem, Allowed, LiteOf, LiteItems, At, SkipWs;
    var e, n := es[0], |ElemText(es[0])|;
    AtSplit(s, i, ElemsText(es), [0x5D]);
    if |es| == 1 {
      assert es == [e];
      LastElem(e);
      ByteAt(s, i + n, 0x5D);
      ElemRead(s, i, e, depth + 1);
    } else {
      var rest := es[1..];
      assert es == [e] + rest;
      OneMoreElem(e, rest);
      CommaSplit(s, i, ElemText(e), ElemsText(rest), 0x5D);
      ElemRead(s, i, e, depth + 1);
      ElemsRead(s, i + n + 1, rest, depth, out + [LiteOf(e.value)]);
      assert out + [LiteOf(e.value)] + LiteItems(rest) == out + ([LiteOf(e.value)] + LiteItems(rest));
    }
    NoSpaceHere(s, i + n);
    ItemsStep(s, i, depth, out);
  }

  // ----- objects

  lemma {:induction false} MemRead(s: seq<byte>, i: nat, m: Mem, depth: nat)
    requires ValidMem(m) && Allowed(m.elem.value, depth + 1) && At(s, i, MemText(m))
    requires Stops(s, i + |MemText(m)|)
    ensures i <= |s| && ReadMember(s, i, depth).Ok?
    ensures var (v, end) := ReadMember(s, i, depth).value;
      && v == MemberOf(m)
      && end <= i + |MemText(m)| <= |s| && SkipWs(s, end) == SkipWs(s, i + |MemText(m)|)
    decreases |s| - i, 4
  {
    hide ReadValue, ReadString, MemText, ElemText, Literal, ValidElem, IsSpace, Allowed, LiteOf, At, Scalars, AllValid, SkipWs;
    MemSplit(s, i, m);
    MemStart(s, i, m);
    var k := i + |m.before|;
    var a := k + |Literal(m.key)|;
    var c := a + |m.afterKey|;
    StrRead(s, k, m.key, 0);
    SpaceSkipped(s, a, m.afterKey);
    NoSpaceHere(s, c);
    ElemRead(s, c + 1, m.elem, depth + 1);
  }

  lemma MemberBehindSpace(s: seq<byte>, i: nat, depth: nat)
    requires i <= |s|
    ensures ReadMember(s, i, depth) == ReadMember(s, SkipWs(s, i), depth)
  {
    hide ReadValue, ReadString;
    var t := SkippedSpace(s, i);
    SpaceSkipped(s, i, t);
  }

  lemma MembersBehindSpace(s: seq<byte>, i: nat, depth: nat, out: seq<LiteMember>)
    requires i <= |s|
    ensures ReadMembers(s, i, depth, out) == ReadMembers(s, SkipWs(s, i), depth, out)
  {
    hide ReadMember, ReadMembers, SkipWs;
    MemberBehindSpace(s, i, depth);
    MembersStep(s, i, depth, out);
    MembersStep(s, SkipWs(s, i), depth, out);
  }

  lemma ObjOpens(s: seq<byte>, i: nat, gap: seq<byte>, ms: seq<Mem>, depth: nat)
    requires depth <= MAX_DEPTH && IsSpace(gap) && At(s, i, Text(Obj(gap, ms)))
    requires ms != [] ==> ValidMem(ms[0])
    ensures i < |s|
    ensures ms == [] ==> ReadValue(s, i, depth) == Ok((Object([]), i + |Text(Obj(gap, ms))|))
    ensures ms != [] ==> At(s, i + 1, MemsText(ms) + [0x7D]) && ReadValue(s, i, depth) == ReadMembers(s, i + 1, depth, [])
  {
    hide ReadMembers, ReadObject, ReadValue, IsSpace, MemsText, At, SkipWs, ValidMem;
    Enclosed(s, i, 0x7B, if ms == [] then gap else MemsText(ms), 0x7D);
    ObjectStart(s, i, depth);
    if ms == [] {
      SpaceSkipped(s, i + 1, gap);
      NoSpaceHere(s, i + 1 + |gap|);
    } else {
      MemsStart(s, i + 1, ms);
      MembersBehindSpace(s, i + 1, depth, []);
    }
  }

  lemma {:induction false} MemsRead(s: seq<byte>, i: nat, ms: seq<Mem>, depth: nat, out: seq<LiteMember>)
    requires ms != [] && depth < MAX_DEPTH && At(s, i, MemsText(ms) + [0x7D])
    requires forall k :: 0 <= k < |ms| ==> ValidMem(ms[k]) && Allowed(ms[k].elem.value, depth + 1)
    ensures i <= |s| && ReadMembers(s, i, depth, out) == Ok((Object(out + LiteMembers(ms)), i + |MemsText(ms)| + 1))
    decreases |s| - i, 5
  {
    hide ReadMember, ReadMembers, MemText, MemsText, ValidMem, Allowed, LiteMembers, MemberOf, At, SkipWs;
    var m, n := ms[0], |MemText(ms[0])|;
    AtSplit(s, i, MemsText(ms), [0x7D]);
    if |ms| == 1 {
      assert ms == [m];
      LastMember(m);
      ByteAt(s, i + n, 0x7D);
      MemRead(s, i, m, depth);
    } else {
      var rest := ms[1..];
      assert ms == [m] + rest;
      OneMoreMember(m, rest);
      CommaSplit(s, i, MemText(m), MemsText(rest), 0x7D);
      MemRead(s, i, m, depth);
      MemsRead(s, i + n + 1, rest, depth, out + [MemberOf(m)]);
      assert out + [MemberOf(m)] + LiteMembers(rest) == out + ([MemberOf(m)] + LiteMembers(rest));
    }
    NoSpaceHere(s, i + n);
    MembersStep(s, i, depth, out);
  }

  // ----- whatever is read has a derivation

  /** A value that was read, as the space in front of it and a tree. */
  ghost predicate IsDerived(s: seq<byte>, i: nat, depth: nat, before: seq<byte>, t: Tree)
    requires i <= |s|
  {
    && IsSpace(before) && Valid(t) && Allowed(t, depth) && At(s, i, before + Text(t))
    && ReadValue(s, i, depth) == Ok((LiteOf(t), i + |before| + |Text(t)|))
  }

  lemma {:induction false} ValueDerived(s: seq<byte>, i: nat, depth: nat) returns (before: seq<byte>, t: Tree)
    requires i <= |s| && ReadValue(s, i, depth).Ok?
    ensures IsDerived(s, i, depth, before, t)
    decreases |s| - i, 2
  {
    hide ReadString, ReadNumber, ReadItems, ReadMembers, ReadBool, ReadNull, Literal, AllValid, At, IsSpace, IsNumberToken, ElemsText, MemsText;
    before := SkippedSpace(s, i);
    var j := SkipWs(s, i);
    if s[j] == LBRACE {
      t := ObjectDerived(s, j, depth);
    } else if s[j] == LBRACKET {
      t := ArrayDerived(s, j, depth);
    } else if s[j] == QUOTE {
      t := StrDerived(s, j);
    } else if s[j] == MINUS || IsDigitByte(s[j]) {
      t := NumDerived(s, j);
    } else {
      t := WordDerived(s, j);
    }
    AtSplit(s, i, before, Text(t));
  }

  lemma WordDerived(s: seq<byte>, i: nat) returns (t: Tree)
    requires i < |s|
    requires if s[i] == 0x74 || s[i] == 0x66 then ReadBool(s, i).Ok? else ReadNull(s, i).Ok?
    ensures t.NullWord? || t.TrueWord? || t.FalseWord?
    ensures At(s, i, Text(t)) && (if s[i] == 0x74 || s[i] == 0x66 then ReadBool(s, i) else ReadNull(s, i)) == Ok((LiteOf(t), i + |Text(t)|))
  {
    t := if At(s, i, [0x74, 0x72, 0x75, 0x65]) then TrueWord else if At(s, i, [0x66, 0x61, 0x6C, 0x73, 0x65]) then FalseWord else NullWord;
    if At(s, i, NULL_WORD) { AtIndex(s, i, NULL_WORD, 0); }
    if At(s, i, TRUE_WORD) { AtIndex(s, i, TRUE_WORD, 0); }
    if At(s, i, FALSE_WORD) { AtIndex(s, i, FALSE_WORD, 0); }
  }

  lemma StrDerived(s: seq<byte>, i: nat) returns (t: Tree)
    requires i <= |s| && ReadString(s, i).Ok?
    ensures t.Str? && AllValid(t.pieces) && At(s, i, Text(t))
    ensures ReadString(s, i) == Ok((Scalars(t.pieces), i + |Text(t)|))
  {
    hide ReadString, AllValid, Scalars, Literal, At;
    var (u, j) := ReadString(s, i).value;
    ReadStringIff(s, i, u, j);
    var ps :| AllValid(ps) && Scalars(ps) == u && At(s, i, Literal(ps)) && j == i + |Literal(ps)|;
    t := Str(ps);
  }

  lemma NumDerived(s: seq<byte>, i: nat) returns (t: Tree)
    requires ReadNumber(s, i).Ok?
    ensures t.Num? && IsNumberToken(t.token) && At(s, i, Text(t))
    ensures ReadNumber(s, i) == Ok((LiteOf(t), i + |Text(t)|))
  {
    hide ReadNumber, IsNumberToken, Maximal;
    NumberIsSlice(s, i);
    var (v, j) := ReadNumber(s, i).value;
    t := Num(s[i..j]);
    TokenIsRead(s, i, j);
  }

  lemma ArrayDerived(s: seq<byte>, i: nat, depth: nat) returns (t: Tree)
    requires i < |s| && s[i] == 0x5B && depth <= MAX_DEPTH && ReadArray(s, i, depth).Ok?
    ensures Valid(t) && Allowed(t, depth) && At(s, i, Text(t))
    ensures ReadArray(s, i, depth) == Ok((LiteOf(t), i + |Text(t)|))
    decreases |s| - i, 1
  {
    hide ReadItems, ReadArray, ReadValue, IsSpace, At, ElemsText, ValidElem, NestsWithin, Valid, LiteOf, LiteItems, SkipWs, Text;
    var gap := SkippedSpace(s, i + 1);
    var k := i + 1 + |gap|;
    ArrayStart(s, i, depth);
    ByteAt(s, i, 0x5B);
    if k < |s| && s[k] == 0x5D {
      ByteAt(s, k, 0x5D);
      AtSplit(s, i + 1, gap, [0x5D]);
      AtSplit(s, i, [0x5B], gap + [0x5D]);
      t := Arr(gap, []);
      EmptyArray(gap, depth);
    } else {
      var es := ItemsDerived(s, k, depth, []);
      assert [] + LiteItems(es) == LiteItems(es);
      AtSplit(s, i + 1, gap, ElemsText(es) + [0x5D]);
      AtSplit(s, i, [0x5B], gap + (ElemsText(es) + [0x5D]));
      t := FullArray(gap, es, depth);
    }
  }

  lemma EmptyArray(gap: seq<byte>, depth: nat)
    requires IsSpace(gap) && depth <= MAX_DEPTH
    ensures var t := Arr(gap, []);
      Valid(t) && Allowed(t, depth) && Text(t) == [0x5B] + (gap + [0x5D]) && LiteOf(t) == Array([])
  {
  }

  /** The array of these elements, with the space before the first one. */
  lemma FullArray(gap: seq<byte>, es: seq<Elem>, depth: nat) returns (t: Tree)
    requires IsSpace(gap) && es != [] && depth < MAX_DEPTH
    requires forall k :: 0 <= k < |es| ==> ValidElem(es[k]) && Allowed(es[k].value, depth + 1)
    ensures Valid(t) && Allowed(t, depth) && LiteOf(t) == Array(LiteItems(es))
    ensures Text(t) == [0x5B] + (gap + (ElemsText(es) + [0x5D]))
  {
    hide ValidElem, ElemsText, IsSpace, LiteItems;
    var first := es[0].(before := gap + es[0].before);
    var all := [first] + es[1..];
    assert es == [es[0]] + es[1..];
    t := Arr([], all);
    EmptySpace();
    SpaceConcat(gap, es[0]);
    Widened(gap, es);
    Regroup(gap, ElemsText(es), [0x5D], [], [], []);
    forall n | 0 <= n < |all| ensures ValidElem(all[n]) && NestsWithin(all[n].value, MAX_DEPTH - depth - 1) {
      assert Allowed(es[n].value, depth + 1);
      assert n > 0 ==> all[n] == es[n];
    }
  }

  /** Space in front of the first element becomes its own. */
  lemma Widened(gap: seq<byte>, es: seq<Elem>)
    requires es != []
    ensures var all := [es[0].(before := gap + es[0].before)] + es[1..];
      ElemsText(all) == gap + ElemsText(es) && LiteItems(all) == LiteItems(es)
  {
    hide Text, LiteOf;
    var e := es[0];
    var first := e.(before := gap + e.before);
    var all := [first] + es[1..];
    assert all[1..] == es[1..];
    Regroup(gap, e.before, Text(e.value) + e.after, [], [], []);
    assert ElemText(first) == gap + ElemText(e);
    if |es| > 1 { Regroup(gap, ElemText(e), [0x2C] + ElemsText(es[1..]), [], [], []); }
  }

  lemma {:induction false} ItemsDerived(s: seq<byte>, i: nat, depth: nat, out: seq<LiteValue>) returns (es: seq<Elem>)
    requires i <= |s| && ReadItems(s, i, depth, out).Ok?
    ensures es != [] && depth < MAX_DEPTH && At(s, i, ElemsText(es) + [0x5D])
    ensures forall k :: 0 <= k < |es| ==> ValidElem(es[k]) && Allowed(es[k].value, depth + 1)
    ensures ReadItems(s, i, depth, out) == Ok((Array(out + LiteItems(es)), i + |ElemsText(es)| + 1))
    decreases |s| - i, 3
  {
    hide ReadValue, ReadItems, IsSpace, Text, Valid, LiteOf, LiteItems, At, ElemText, ElemsText, NestsWithin, SkipWs;
    ItemsStep(s, i, depth, out);
    var before, t := ValueDerived(s, i, depth + 1);
    var end := i + |before| + |Text(t)|;
    var after := SkippedSpace(s, end);
    var k := end + |after|;
    var e := Elem(before, t, after);
    ElemAt(s, i, e);
    if s[k] == 0x5D {
      es := [e];
      LastElem(e);
      ByteAt(s, k, 0x5D);
      AtSplit(s, i, ElemText(e), [0x5D]);
    } else {
      var rest := ItemsDerived(s, k + 1, depth, out + [LiteOf(t)]);
      es := [e] + rest;
      OneMoreElem(e, rest);
      CommaSplit(s, i, ElemText(e), ElemsText(rest), 0x5D);
      assert out + [LiteOf(t)] + LiteItems(rest) == out + ([LiteOf(t)] + LiteItems(rest));
    }
  }

  lemma ObjectDerived(s: seq<byte>, i: nat, depth: nat) returns (t: Tree)
    requires i < |s| && s[i] == 0x7B && depth <= MAX_DEPTH && ReadObject(s, i, depth).Ok?
    ensures Valid(t) && Allowed(t, depth) && At(s, i, Text(t))
    ensures ReadObject(s, i, depth) == Ok((LiteOf(t), i + |Text(t)|))
    decreases |s| - i, 1
  {
    hide ReadMembers, ReadObject, ReadValue, IsSpace, At, MemsText, ValidMem, NestsWithin, Valid, LiteOf, LiteMembers, SkipWs, Text;
    var gap := SkippedSpace(s, i + 1);
    var k := i + 1 + |gap|;
    ObjectStart(s, i, depth);
    ByteAt(s, i, 0x7B);
    if k < |s| && s[k] == 0x7D {
      ByteAt(s, k, 0x7D);
      AtSplit(s, i + 1, gap, [0x7D]);
      AtSplit(s, i, [0x7B], gap + [0x7D]);
      t := Obj(gap, []);
      EmptyObject(gap, depth);
    } else {
      var ms := MembersDerived(s, k, depth, []);
      assert [] + LiteMembers(ms) == LiteMembers(ms);
      AtSplit(s, i + 1, gap, MemsText(ms) + [0x7D]);
      AtSplit(s, i, [0x7B], gap + (MemsText(ms) + [0x7D]));
      t := FullObject(gap, ms, depth);
    }
  }

  lemma EmptyObject(gap: seq<byte>, depth: nat)
    requires IsSpace(gap) && depth <= MAX_DEPTH
    ensures var t := Obj(gap, []);
      Valid(t) && Allowed(t, depth) && Text(t) == [0x7B] + (gap + [0x7D]) && LiteOf(t) == Object([])
  {
  }

  lemma FullObject(gap: seq<byte>, ms: seq<Mem>, depth: nat) returns (t: Tree)
    requires IsSpace(gap) && ms != [] && depth < MAX_DEPTH
    requires forall k :: 0 <= k < |ms| ==> ValidMem(ms[k]) && Allowed(ms[k].elem.value, depth + 1)
    ensures Valid(t) && Allowed(t, depth) && LiteOf(t) == Object(LiteMembers(ms))
    ensures Text(t) == [0x7B] + (gap + (MemsText(ms) + [0x7D]))
  {
    hide ValidMem, MemsText, IsSpace, LiteMembers;
    var first := ms[0].(before := gap + ms[0].before);
    var all := [first] + ms[1..];
    assert ms == [ms[0]] + ms[1..];
    t := Obj([], all);
    EmptySpace();
    SpaceConcatMem(gap, ms[0]);
    WidenedMems(gap, ms);
    Regroup(gap, MemsText(ms), [0x7D], [], [], []);
    forall n | 0 <= n < |all| ensures ValidMem(all[n]) && NestsWithin(all[n].elem.value, MAX_DEPTH - depth - 1) {
      assert Allowed(ms[n].elem.value, depth + 1);
      assert n > 0 ==> all[n] == ms[n];
    }
  }

  lemma WidenedMems(gap: seq<byte>, ms: seq<Mem>)
    requires ms != []
    ensures var all := [ms[0].(before := gap + ms[0].before)] + ms[1..];
      MemsText(all) == gap + MemsText(ms) && LiteMembers(all) == LiteMembers(ms)
  {
    hide Literal, ElemText, LiteOf, Scalars;
    var m := ms[0];
    var first := m.(before := gap + m.before);
    var all := [first] + ms[1..];
    assert all[1..] == ms[1..];
    var tail := Literal(m.key) + (m.afterKey + ([0x3A] + ElemText(m.elem)));
    Regroup(gap, m.before, tail, [], [], []);
    assert MemText(first) == gap + MemText(m);
    if |ms| > 1 { Regroup(gap, MemText(m), [0x2C] + MemsText(ms[1..]), [], [], []); }
  }

  lemma {:induction false} MemberDerived(s: seq<byte>, i: nat, depth: nat) returns (m: Mem)
    requires i <= |s| && ReadMember(s, i, depth).Ok?
    ensures m.elem.after == [] && ValidMem(m) && Allowed(m.elem.value, depth + 1) && At(s, i, MemText(m))
    ensures ReadMember(s, i, depth) == Ok((MemberOf(m), i + |MemText(m)|))
    decreases |s| - i, 3
  {
    hide ReadValue, ReadString, IsSpace, Text, Valid, LiteOf, At, Literal, AllValid, NestsWithin, Scalars;
    var before := SkippedSpace(s, i);
    var k := i + |before|;
    var key := StrDerived(s, k);
    KeyText(key);
    var a := k + |Literal(key.pieces)|;
    var afterKey := SkippedSpace(s, a);
    var c := a + |afterKey|;
    ByteAt(s, c, 0x3A);
    var gap, t := ValueDerived(s, c + 1, depth + 1);
    var e := Elem(gap, t, []);
    EmptySpace();
    AtNothing(s, c + 1 + |gap| + |Text(t)|);
    ElemAt(s, c + 1, e);
    m := Mem(before, key.pieces, afterKey, e);
    hide ElemText;
    MemJoins(s, i, m);
  }

  lemma {:induction false} MembersDerived(s: seq<byte>, i: nat, depth: nat, out: seq<LiteMember>) returns (ms: seq<Mem>)
    requires i <= |s| && ReadMembers(s, i, depth, out).Ok?
    ensures ms != [] && depth < MAX_DEPTH && At(s, i, MemsText(ms) + [0x7D])
    ensures forall k :: 0 <= k < |ms| ==> ValidMem(ms[k]) && Allowed(ms[k].elem.value, depth + 1)
    ensures ReadMembers(s, i, depth, out) == Ok((Object(out + LiteMembers(ms)), i + |MemsText(ms)| + 1))
    decreases |s| - i, 4
  {
    hide ReadMember, ReadMembers, IsSpace, LiteMembers, At, MemText, MemsText, NestsWithin, ValidMem, Scalars, LiteOf, SkipWs;
    MembersStep(s, i, depth, out);
    var bare := MemberDerived(s, i, depth);
    var end := i + |MemText(bare)|;
    var after := SkippedSpace(s, end);
    var k := end + |after|;
    var m := bare.(elem := bare.elem.(after := after));
    SpaceBehind(s, i, bare, after);
    if s[k] == 0x7D {
      ms := [m];
      LastMember(m);
      ByteAt(s, k, 0x7D);
      AtSplit(s, i, MemText(m), [0x7D]);
    } else {
      var rest := MembersDerived(s, k + 1, depth, out + [MemberOf(m)]);
      ms := [m] + rest;
      OneMoreMember(m, rest);
      CommaSplit(s, i, MemText(m), MemsText(rest), 0x7D);
      assert out + [MemberOf(m)] + LiteMembers(rest) == out + ([MemberOf(m)] + LiteMembers(rest));
    }
  }

  // ----- documents

  /** The document has a derivation within the depth bound that denotes `v`. */
  ghost predicate Derives(s: seq<byte>, v: LiteValue) {
    exists e :: ValidElem(e) && NestsWithin(e.value, 64) && ElemText(e) == s && LiteOf(e.value) == v
  }

  /** The lossless reader is the grammar: a text is read as a value exactly when it has a
      derivation, nesting at most 64 deep, that denotes the value. */
  lemma ParseIff(text: string, v: LiteValue)
    ensures Parse(text) == Ok(v) <==> Derives(Utf8.Encode(text), v)
  {
    hide ReadValue, ValidElem, ElemText, LiteOf, NestsWithin, Utf8.Encode;
    var s := Utf8.Encode(text);
    if Parse(text) == Ok(v) { DocumentDerived(s, v); }
    if Derives(s, v) {
      var e :| ValidElem(e) && NestsWithin(e.value, 64) && ElemText(e) == s && LiteOf(e.value) == v;
      DocumentRead(s, e);
    }
  }

  lemma DocumentRead(s: seq<byte>, e: Elem)
    requires ValidElem(e) && NestsWithin(e.value, 64) && ElemText(e) == s
    ensures ReadDocument(s) == Ok(LiteOf(e.value))
  {
    hide ReadValue, ElemText, LiteOf, NestsWithin, ValidElem;
    assert s[0..|s|] == s;
    ElemStart(s, 0, e);
    ElemRead(s, 0, e, 0);
    var gap := SkippedSpace(s, 0);
    ValueBehindSpace(s, 0, gap, 0);
    EndSkipped(s);
  }

  lemma DocumentDerived(s: seq<byte>, v: LiteValue)
    requires ReadDocument(s) == Ok(v)
    ensures Derives(s, v)
  {
    hide ReadValue, Text, LiteOf, NestsWithin, Valid, IsSpace;
    var gap := SkippedSpace(s, 0);
    var before, t := ValueDerived(s, SkipWs(s, 0), 0);
    var end := |gap| + |before| + |Text(t)|;
    var after := SkippedSpace(s, end);
    var e := Elem(gap + before, t, after);
    AtSplit(s, 0, gap, before + Text(t));
    Regroup(gap, before, Text(t), [], [], []);
    ElemAt(s, 0, e);
    assert s[0..|s|] == s;
    SpaceConcatElem(gap, before, t, after);
  }

}
