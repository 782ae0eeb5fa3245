/** The two readers agree. On an ASCII document the integer-only reader accepts
    exactly when the lossless reader does and the tree it builds has only integer
    tokens in the i64 range, no repeated key in an object, and no scalar beyond the
    basic plane (on an ASCII document these come from surrogate escapes alone); the
    trees are then the same, each token denoting its integer. */
module JsonAgreement {
  import opened Prelude
  import opened JsonLex
  import J = Json
  import L = JsonLite
  import Utf8
  import Decimal

  predicate AsciiBytes(s: seq<byte>) {
    forall k :: 0 <= k < |s| ==> s[k] < 0x80
  }

  /** Every scalar is in the basic multilingual plane. */
  predicate Basic(t: string) {
    forall k :: 0 <= k < |t| ==> t[k] as int < 0x1_0000
  }

  predicate KeysDistinct(members: seq<L.LiteMember>) {
    forall i, j :: 0 <= i < j < |members| ==> members[i].key != members[j].key
  }

  /** The trees the integer-only reader can represent. */
  predicate Convertible(w: L.LiteValue) {
    match w
    case Number(raw) => Decimal.ParseI64(raw).Some?
    case String(t) => Basic(t)
    case Array(items) => forall k :: 0 <= k < |items| ==> Convertible(items[k])
    case Object(members) =>
      KeysDistinct(members)
      && forall k :: 0 <= k < |members| ==> Basic(members[k].key) && Convertible(members[k].value)
    case _ => true
  }

  function Convert(w: L.LiteValue): J.JsonValue
    requires Convertible(w)
    decreases w, 0
  {
    match w
    case Null => J.Null
    case Bool(b) => J.Bool(b)
    case Number(raw) => J.Number(Decimal.ParseI64(raw).value)
    case String(t) => J.String(t)
    case Array(items) => J.Array(ConvertItems(items, |items|))
    case Object(members) => J.Object(ConvertMembers(members, |members|))
  }

  function ConvertItems(items: seq<L.LiteValue>, n: nat): (r: seq<J.JsonValue>)
    requires n <= |items| && forall k :: 0 <= k < n ==> Convertible(items[k])
    ensures |r| == n && forall k :: 0 <= k < n ==> r[k] == Convert(items[k])
    decreases items, n
  {
    if n == 0 then [] else ConvertItems(items, n - 1) + [Convert(items[n - 1])]
  }

  function ConvertMembers(members: seq<L.LiteMember>, n: nat): (r: seq<J.Member>)
    requires n <= |members| && forall k :: 0 <= k < n ==> Convertible(members[k].value)
    ensures |r| == n && forall k :: 0 <= k < n ==> r[k] == J.Member(members[k].key, Convert(members[k].value))
    decreases members, n
  {
    if n == 0 then []
    else ConvertMembers(members, n - 1) + [J.Member(members[n - 1].key, Convert(members[n - 1].value))]
  }

  // ----- strings

  lemma AsciiDecode(b: seq<byte>)
    requires AsciiBytes(b)
    ensures Utf8.Decode(b) == Some(Utf8.Latin1(b))
  {
    var t := Utf8.Latin1(b);
    Utf8.EncodeAscii(t);
    assert Utf8.Codes(t) == b;
    Utf8.DecodeEncode(t);
  }

  lemma EscapesAgree(s: seq<byte>, i: nat, stringStart: nat)
    requires i <= |s|
    ensures var l, j := L.ReadEscape(s, i, stringStart), J.ReadEscape(s, i);
      && (l.Err? ==> j.Err?)
      && (l.Ok? && l.value.0 as int < 0x1_0000 ==> j == Ok(l.value))
      && (l.Ok? && l.value.0 as int >= 0x1_0000 ==> j.Err?)
  {
    hide Hex4;
  }

  /** What the integer-only reader holds when the lossless one holds `out`. */
  ghost predicate SameText(s: seq<byte>, start: nat, pos: nat, escaped: bool, mine: string, out: string)
    requires start <= pos <= |s|
  {
    if escaped then mine == out else mine == "" && out == Utf8.Latin1(s[start..pos])
  }

  lemma {:induction false} BodyExtends(s: seq<byte>, stringStart: nat, pos: nat, out: string)
    requires pos <= |s|
    ensures var l := L.ReadBody(s, stringStart, pos, out);
      l.Ok? ==> |out| <= |l.value.0| && out == l.value.0[..|out|]
    decreases |s| - pos
  {
    hide L.ReadEscape, L.ReadRaw;
    if pos < |s| && s[pos] != QUOTE {
      if s[pos] == BACKSLASH {
        var e := L.ReadEscape(s, pos + 1, stringStart);
        if e.Ok? { BodyExtends(s, stringStart, e.value.1, out + [e.value.0]); }
      } else if s[pos] >= 0x20 {
        var e := L.ReadRaw(s, pos, stringStart);
        if e.Ok? { BodyExtends(s, stringStart, e.value.1, out + e.value.0); }
      }
    }
  }

  lemma FlushAscii(s: seq<byte>, start: nat, pos: nat, escaped: bool, mine: string, out: string)
    requires AsciiBytes(s) && start <= pos <= |s|
    requires SameText(s, start, pos, escaped, mine, out)
    ensures J.Flushed(s, start, pos, escaped, mine) == Ok(out)
  {
    hide Utf8.Decode;
    AsciiDecode(s[start..pos]);
    assert "" + out == out;
  }

  lemma RawAscii(s: seq<byte>, pos: nat, stringStart: nat)
    requires AsciiBytes(s) && pos < |s|
    ensures L.ReadRaw(s, pos, stringStart) == Ok(([s[pos] as char], pos + 1))
  {
    hide Utf8.Decode;
    AsciiDecode(s[pos..pos + 1]);
    assert s[pos..pos + 1] == [s[pos]];
    assert Utf8.Latin1([s[pos]]) == [s[pos] as char];
  }

  lemma SameTextRaw(s: seq<byte>, start: nat, pos: nat, escaped: bool, mine: string, out: string)
    requires AsciiBytes(s) && start <= pos < |s|
    requires SameText(s, start, pos, escaped, mine, out)
    ensures SameText(s, start, pos + 1, escaped, if escaped then mine + [s[pos] as char] else mine, out + [s[pos] as char])
  {
    assert s[start..pos + 1] == s[start..pos] + [s[pos]];
  }

  ghost predicate TextsAgree(l: Reading<string>, j: Reading<string>) {
    && (l.Err? ==> j.Err?)
    && (l.Ok? && Basic(l.value.0) ==> j == Ok(l.value))
    && (l.Ok? && !Basic(l.value.0) ==> j.Err?)
  }

  lemma {:induction false} BodiesAgree(s: seq<byte>, stringStart: nat, start: nat, pos: nat, escaped: bool,
                                       mine: string, out: string)
    requires AsciiBytes(s) && start <= pos <= |s| && Basic(out)
    requires SameText(s, start, pos, escaped, mine, out)
    ensures TextsAgree(L.ReadBody(s, stringStart, pos, out), J.ReadBody(s, start, pos, escaped, mine))
    decreases |s| - pos
  {
    hide L.ReadEscape, J.ReadEscape, L.ReadRaw, J.Flushed, AsciiBytes;
    if pos < |s| {
      FlushAscii(s, start, pos, escaped, mine, out);
      if s[pos] == BACKSLASH {
        EscapesAgree(s, pos + 1, stringStart);
        var e := L.ReadEscape(s, pos + 1, stringStart);
        if e.Ok? {
          if e.value.0 as int < 0x1_0000 {
            BodiesAgree(s, stringStart, start, e.value.1, true, out + [e.value.0], out + [e.value.0]);
          } else {
            BodyExtends(s, stringStart, e.value.1, out + [e.value.0]);
            NotBasic(s, stringStart, e.value.1, out, e.value.0);
          }
        }
      } else if s[pos] >= 0x20 && s[pos] != QUOTE {
        RawAscii(s, pos, stringStart);
        SameTextRaw(s, start, pos, escaped, mine, out);
        var c := s[pos] as char;
        BodiesAgree(s, stringStart, start, pos + 1, escaped, if escaped then mine + [c] else mine, out + [c]);
      }
    }
  }

  lemma NotBasic(s: seq<byte>, stringStart: nat, pos: nat, out: string, c: char)
    requires pos <= |s| && c as int >= 0x1_0000
    ensures L.ReadBody(s, stringStart, pos, out + [c]).Ok? ==> !Basic(L.ReadBody(s, stringStart, pos, out + [c]).value.0)
  {
    hide L.ReadBody;
    BodyExtends(s, stringStart, pos, out + [c]);
    var l := L.ReadBody(s, stringStart, pos, out + [c]);
    if l.Ok? { assert l.value.0[|out|] == (out + [c])[|out|]; }
  }

  lemma StringsAgree(s: seq<byte>, i: nat)
    requires AsciiBytes(s) && i <= |s|
    ensures TextsAgree(L.ReadString(s, i), J.ReadString(s, i))
  {
    hide L.ReadBody, J.ReadBody;
    if i < |s| && s[i] == QUOTE {
      assert s[i + 1..i + 1] == [];
      BodiesAgree(s, i, i + 1, i + 1, false, "", "");
    }
  }

  // ----- numbers

  /** A value read up to `j` cannot be followed by what stands there. */
  predicate Stuck(s: seq<byte>, j: nat) {
    j < |s| && !IsWs(s[j]) && s[j] != COMMA && s[j] != RBRACKET && s[j] != RBRACE
  }

  /** The reading failed, or its value cannot be continued. */
  predicate Stopped<T>(s: seq<byte>, r: Result<(T, nat), ParseError>) {
    r.Err? || Stuck(s, r.value.1)
  }

  /** Either both readers return the same value, up to the token's denotation, and
      stop at the same place; or mine comes to nothing, and the other comes to nothing
      as well or to a value mine cannot represent. */
  predicate Agree(s: seq<byte>, l: Reading<L.LiteValue>, j: Reading<J.JsonValue>) {
    || (l.Ok? && Convertible(l.value.0) && j == Ok((Convert(l.value.0), l.value.1)))
    || (Stopped(s, j) && (Stopped(s, l) || !Convertible(l.value.0)))
  }

  /** A token with a point or an exponent is no integer text. */
  lemma NotInteger(raw: string, k: nat)
    requires 0 < k < |raw| && !Decimal.IsDigit(raw[k])
    ensures Decimal.ParseI64(raw).None?
  {
    if raw[0] == '-' || raw[0] == '+' {
      assert raw[1..][k - 1] == raw[k];
    }
  }

  lemma TokenText(s: seq<byte>, i: nat, end: nat)
    requires AsciiBytes(s) && i <= end <= |s|
    ensures Utf8.Decode(s[i..end]) == Some(Utf8.Latin1(s[i..end]))
    ensures forall k :: i <= k < end ==> Utf8.Latin1(s[i..end])[k - i] as int == s[k]
  {
    AsciiDecode(s[i..end]);
  }

  lemma DigitsEndFrom(s: seq<byte>, first: nat)
    requires first < |s| && IsDigitByte(s[first])
    ensures DigitsEnd(s, first) == DigitsEnd(s, first + 1)
  {
  }

  /** A lossless token whose end passes the integer part is not an integer text. */
  lemma LongToken(s: seq<byte>, i: nat, a: nat, end: nat)
    requires AsciiBytes(s) && i < a < end <= |s|
    requires s[a] == DOT || s[a] == 0x65 || s[a] == 0x45
    ensures Decimal.ParseI64(Utf8.Latin1(s[i..end])).None?
  {
    hide Decimal.ParseI64;
    TokenText(s, i, end);
    NotInteger(Utf8.Latin1(s[i..end]), a - i);
  }

  /** `0` followed by digits: mine refuses it, the other stops at the next digit. */
  lemma LeadingZero(s: seq<byte>, i: nat, first: nat)
    requires AsciiBytes(s) && i <= first <= i + 1 && L.DigitAt(s, first) && (IsDigitByte(s[i]) || s[i] == MINUS)
    requires first == if s[i] == MINUS then i + 1 else i
    requires s[first] == ZERO && L.DigitAt(s, first + 1)
    ensures Stopped(s, L.ReadNumber(s, i)) && J.ReadNumber(s, i).Err?
  {
    hide Utf8.Decode, Utf8.Latin1, AsciiBytes;
    assert DigitsEnd(s, first) == DigitsEnd(s, first + 1) == DigitsEnd(s, first + 2);
    assert L.NumberEnd(s, i) == Some(first + 1);
    TokenText(s, i, first + 1);
  }

  /** No redundant zero: both readers find the same integer part. */
  lemma SameIntegerPart(s: seq<byte>, i: nat, first: nat)
    requires i <= first <= i + 1 && L.DigitAt(s, first) && (IsDigitByte(s[i]) || s[i] == MINUS)
    requires first == if s[i] == MINUS then i + 1 else i
    requires !(s[first] == ZERO && L.DigitAt(s, first + 1))
    requires AsciiBytes(s)
    ensures var a := DigitsEnd(s, first);
      && i < a <= |s| && L.IntEnd(s, first) == Some(a)
      && (J.ReadNumber(s, i).Ok? ==> J.ReadNumber(s, i).value.1 == a)
      && (J.ReadNumber(s, i) == match Decimal.ParseI64(Utf8.Latin1(s[i..a]))
            case None => Err(NumberOutOfRange(i))
            case Some(n) => Ok((J.Number(n), a)))
  {
    hide Utf8.Decode, Utf8.Latin1, Decimal.ParseI64, AsciiBytes;
    DigitsEndFrom(s, first);
    if s[first] == ZERO { assert DigitsEnd(s, first + 1) == first + 1; }
    TokenText(s, i, DigitsEnd(s, first));
  }

  lemma NumbersAgree(s: seq<byte>, i: nat)
    requires AsciiBytes(s) && i < |s| && (IsDigitByte(s[i]) || s[i] == MINUS)
    ensures Agree(s, L.ReadNumber(s, i), J.ReadNumber(s, i))
  {
    hide Utf8.Decode, Utf8.Latin1, Decimal.ParseI64, AsciiBytes, DigitsEnd, J.ReadNumber;
    var first := if s[i] == MINUS then i + 1 else i;
    if !L.DigitAt(s, first) {
      NoDigits(s, i, first);
    } else if s[first] == ZERO && L.DigitAt(s, first + 1) {
      LeadingZero(s, i, first);
    } else {
      SameIntegerPart(s, i, first);
      var a := L.IntEnd(s, first).value;
      var end := L.NumberEnd(s, i);
      if end.Some? {
        TokenText(s, i, end.value);
        if a < end.value { LongToken(s, i, a, end.value); }
      }
    }
  }

  lemma NoDigits(s: seq<byte>, i: nat, first: nat)
    requires i < |s| && (IsDigitByte(s[i]) || s[i] == MINUS)
    requires first == (if s[i] == MINUS then i + 1 else i) && !L.DigitAt(s, first)
    ensures L.ReadNumber(s, i).Err? && J.ReadNumber(s, i).Err?
  {
  }

  // ----- values

  lemma {:induction false} ItemsExtend(s: seq<byte>, i: nat, depth: nat, out: seq<L.LiteValue>)
    requires i <= |s|
    ensures var l := L.ReadItems(s, i, depth, out);
      l.Ok? ==> l.value.0.Array? && |out| <= |l.value.0.items| && l.value.0.items[..|out|] == out
    decreases |s| - i
  {
    hide L.ReadValue;
    var r := L.ReadValue(s, i, depth + 1);
    if r.Ok? {
      var k := SkipWs(s, r.value.1);
      if k < |s| && s[k] == COMMA { ItemsExtend(s, k + 1, depth, out + [r.value.0]); }
    }
  }

  lemma {:induction false} MembersExtend(s: seq<byte>, i: nat, depth: nat, out: seq<L.LiteMember>)
    requires i <= |s|
    ensures var l := L.ReadMembers(s, i, depth, out);
      l.Ok? ==> l.value.0.Object? && |out| <= |l.value.0.members| && l.value.0.members[..|out|] == out
    decreases |s| - i
  {
    hide L.ReadMember;
    var r := L.ReadMember(s, i, depth);
    if r.Ok? {
      var k := SkipWs(s, r.value.1);
      if k < |s| && s[k] == COMMA { MembersExtend(s, k + 1, depth, out + [r.value.0]); }
    }
  }

  /** One item that cannot be represented makes the array unrepresentable. */
  lemma BadItem(s: seq<byte>, i: nat, depth: nat, out: seq<L.LiteValue>, v: L.LiteValue)
    requires i <= |s| && !Convertible(v)
    ensures var l := L.ReadItems(s, i, depth, out + [v]); l.Ok? ==> !Convertible(l.value.0)
    ensures !Convertible(L.Array(out + [v]))
  {
    hide L.ReadItems;
    assert (out + [v])[|out|] == v;
    ItemsExtend(s, i, depth, out + [v]);
    var l := L.ReadItems(s, i, depth, out + [v]);
    if l.Ok? {
      assert l.value.0.items[..|out| + 1][|out|] == v;
      assert l.value.0.items[|out|] == v;
    }
  }

  predicate Fits(m: L.LiteMember, out: seq<L.LiteMember>) {
    && Basic(m.key) && Convertible(m.value)
    && forall k :: 0 <= k < |out| ==> out[k].key != m.key
  }

  lemma BadMember(s: seq<byte>, i: nat, depth: nat, out: seq<L.LiteMember>, m: L.LiteMember)
    requires i <= |s| && !Fits(m, out)
    ensures var l := L.ReadMembers(s, i, depth, out + [m]); l.Ok? ==> !Convertible(l.value.0)
    ensures !Convertible(L.Object(out + [m]))
  {
    hide L.ReadMembers;
    MembersExtend(s, i, depth, out + [m]);
    UnfitMember(out + [m], |out|);
    var l := L.ReadMembers(s, i, depth, out + [m]);
    if l.Ok? {
      var all := l.value.0.members;
      assert all[..|out| + 1] == out + [m];
      assert all[|out|] == (out + [m])[|out|] && all[..|out|] == out;
      UnfitMember(all, |out|);
    }
  }

  lemma UnfitMember(all: seq<L.LiteMember>, n: nat)
    requires n < |all| && !Fits(all[n], all[..n])
    ensures !Convertible(L.Object(all))
  {
    if Basic(all[n].key) && Convertible(all[n].value) {
      var k :| 0 <= k < n && all[..n][k].key == all[n].key;
      assert all[k].key == all[n].key;
    }
  }

  lemma {:induction false} ValuesAgree(s: seq<byte>, i: nat, depth: nat)
    requires AsciiBytes(s) && i <= |s|
    ensures Agree(s, L.ReadValue(s, i, depth), J.ReadValue(s, i, depth))
    decreases |s| - i, 2
  {
    hide AsciiBytes, L.ReadString, J.ReadString, L.ReadNumber, J.ReadNumber, L.ReadItems, J.ReadItems,
      L.ReadMembers, J.ReadMembers;
    var j := SkipWs(s, i);
    if depth <= MAX_DEPTH && j < |s| {
      if s[j] == LBRACE {
        MembersAgree(s, SkipWs(s, j + 1), depth, []);
      } else if s[j] == LBRACKET {
        ItemsAgree(s, SkipWs(s, j + 1), depth, []);
      } else if s[j] == QUOTE {
        StringsAgree(s, j);
      } else if s[j] == 0x74 || s[j] == 0x66 || s[j] == 0x6E {
      } else if IsDigitByte(s[j]) || s[j] == MINUS {
        NumbersAgree(s, j);
      }
    }
  }

  /** One pass of the lossless array loop. */
  lemma TheirItemStep(s: seq<byte>, i: nat, depth: nat, out: seq<L.LiteValue>)
    requires i <= |s|
    ensures var l, r := L.ReadValue(s, i, depth + 1), L.ReadItems(s, i, depth, out);
      && (Stopped(s, l) ==> r.Err?)
      && (l.Ok? ==> var k := SkipWs(s, l.value.1); var all := out + [l.value.0];
           && (k == |s| ==> r.Err?)
           && (k < |s| && s[k] == COMMA ==> r == L.ReadItems(s, k + 1, depth, all))
           && (k < |s| && s[k] == RBRACKET ==> r == Ok((L.Array(all), k + 1)))
           && (k < |s| && s[k] != COMMA && s[k] != RBRACKET ==> r.Err?))
  {
    hide L.ReadValue;
    var l := L.ReadValue(s, i, depth + 1);
    if l.Ok? { StuckStays(s, l.value.1); }
  }

  lemma MyItemStep(s: seq<byte>, i: nat, depth: nat, out: seq<J.JsonValue>)
    requires i <= |s|
    ensures var l, r := J.ReadValue(s, i, depth + 1), J.ReadItems(s, i, depth, out);
      && (Stopped(s, l) ==> r.Err?)
      && (l.Ok? ==> var k := SkipWs(s, l.value.1); var all := out + [l.value.0];
           && (k == |s| ==> r.Err?)
           && (k < |s| && s[k] == COMMA ==> r == J.ReadItems(s, k + 1, depth, all))
           && (k < |s| && s[k] == RBRACKET ==> r == Ok((J.Array(all), k + 1)))
           && (k < |s| && s[k] != COMMA && s[k] != RBRACKET ==> r.Err?))
  {
    hide J.ReadValue;
    var l := J.ReadValue(s, i, depth + 1);
    if l.Ok? { StuckStays(s, l.value.1); }
  }

  /** One pass of the lossless object loop. */
  lemma TheirMemberStep(s: seq<byte>, i: nat, depth: nat, out: seq<L.LiteMember>)
    requires i <= |s|
    ensures var l, r := L.ReadMember(s, i, depth), L.ReadMembers(s, i, depth, out);
      && (Stopped(s, l) ==> r.Err?)
      && (l.Ok? ==> var k := SkipWs(s, l.value.1); var all := out + [l.value.0];
           && (k == |s| ==> r.Err?)
           && (k < |s| && s[k] == COMMA ==> r == L.ReadMembers(s, k + 1, depth, all))
           && (k < |s| && s[k] == RBRACE ==> r == Ok((L.Object(all), k + 1)))
           && (k < |s| && s[k] != COMMA && s[k] != RBRACE ==> r.Err?))
  {
    hide L.ReadMember;
    var l := L.ReadMember(s, i, depth);
    if l.Ok? { StuckStays(s, l.value.1); }
  }

  lemma MyMemberStep(s: seq<byte>, i: nat, depth: nat, out: seq<J.Member>)
    requires i <= |s|
    ensures var l, r := J.ReadMember(s, i, depth, out), J.ReadMembers(s, i, depth, out);
      && (Stopped(s, l) ==> r.Err?)
      && (l.Ok? ==> var k := SkipWs(s, l.value.1); var all := out + [l.value.0];
           && (k == |s| ==> r.Err?)
           && (k < |s| && s[k] == COMMA ==> r == J.ReadMembers(s, k + 1, depth, all))
           && (k < |s| && s[k] == RBRACE ==> r == Ok((J.Object(all), k + 1)))
           && (k < |s| && s[k] != COMMA && s[k] != RBRACE ==> r.Err?))
  {
    hide J.ReadMember;
    var l := J.ReadMember(s, i, depth, out);
    if l.Ok? { StuckStays(s, l.value.1); }
  }

  lemma {:induction false} ItemsAgree(s: seq<byte>, i: nat, depth: nat, out: seq<L.LiteValue>)
    requires AsciiBytes(s) && i <= |s|
    requires forall k :: 0 <= k < |out| ==> Convertible(out[k])
    ensures Agree(s, L.ReadItems(s, i, depth, out), J.ReadItems(s, i, depth, ConvertItems(out, |out|)))
    decreases |s| - i, 3
  {
    hide AsciiBytes, L.ReadValue, J.ReadValue, L.ReadItems, J.ReadItems, SkipWs, Convert, Convertible, ConvertItems, Stuck;
    ValuesAgree(s, i, depth + 1);
    TheirItemStep(s, i, depth, out);
    MyItemStep(s, i, depth, ConvertItems(out, |out|));
    var l := L.ReadValue(s, i, depth + 1);
    if l.Ok? {
      var v, k := l.value.0, SkipWs(s, l.value.1);
      if Convertible(v) {
        ConvertSnoc(out, v);
        if k < |s| && s[k] == COMMA { ItemsAgree(s, k + 1, depth, out + [v]); }
      } else if k < |s| {
        BadItem(s, k + 1, depth, out, v);
      }
    }
  }

  lemma StuckStays(s: seq<byte>, j: nat)
    requires j <= |s|
    ensures Stuck(s, j) ==> SkipWs(s, j) == j
  {
  }

  lemma ConvertSnoc(out: seq<L.LiteValue>, v: L.LiteValue)
    requires Convertible(v) && forall k :: 0 <= k < |out| ==> Convertible(out[k])
    ensures forall k :: 0 <= k < |out + [v]| ==> Convertible((out + [v])[k])
    ensures ConvertItems(out + [v], |out + [v]|) == ConvertItems(out, |out|) + [Convert(v)]
    ensures Convertible(L.Array(out + [v])) && Convert(L.Array(out + [v])) == J.Array(ConvertItems(out + [v], |out + [v]|))
  {
  }

  predicate AllFit(out: seq<L.LiteMember>) {
    KeysDistinct(out) && forall k :: 0 <= k < |out| ==> Basic(out[k].key) && Convertible(out[k].value)
  }

  lemma ConvertMemberSnoc(out: seq<L.LiteMember>, m: L.LiteMember)
    requires AllFit(out) && Fits(m, out)
    ensures AllFit(out + [m])
    ensures ConvertMembers(out + [m], |out + [m]|) == ConvertMembers(out, |out|) + [J.Member(m.key, Convert(m.value))]
    ensures Convertible(L.Object(out + [m]))
    ensures Convert(L.Object(out + [m])) == J.Object(ConvertMembers(out + [m], |out + [m]|))
  {
  }

  lemma HasKeyAgrees(out: seq<L.LiteMember>, key: string)
    requires AllFit(out)
    ensures J.HasKey(ConvertMembers(out, |out|), key) <==> exists k :: 0 <= k < |out| && out[k].key == key
  {
    var r := ConvertMembers(out, |out|);
    if J.HasKey(r, key) {
      var m :| m in r && m.key == key;
      var k :| 0 <= k < |r| && r[k] == m;
      assert out[k].key == key;
    }
    if k :| 0 <= k < |out| && out[k].key == key {
      assert r[k] in r && r[k].key == key;
    }
  }

  lemma {:induction false} MemberAgree(s: seq<byte>, i: nat, depth: nat, out: seq<L.LiteMember>)
    requires AsciiBytes(s) && i <= |s| && AllFit(out)
    ensures var l, j := L.ReadMember(s, i, depth), J.ReadMember(s, i, depth, ConvertMembers(out, |out|));
      || (l.Ok? && Fits(l.value.0, out) && j == Ok((J.Member(l.value.0.key, Convert(l.value.0.value)), l.value.1)))
      || (Stopped(s, j) && (Stopped(s, l) || !Fits(l.value.0, out)))
    decreases |s| - i, 3
  {
    hide AsciiBytes, L.ReadString, J.ReadString, L.ReadValue, J.ReadValue, SkipWs, AllFit, J.HasKey, ConvertMembers;
    var p := SkipWs(s, i);
    StringsAgree(s, p);
    var key := L.ReadString(s, p);
    if key.Ok? {
      HasKeyAgrees(out, key.value.0);
      var c := Expect(s, SkipWs(s, key.value.1), COLON);
      if c.Ok? { ValuesAgree(s, c.value, depth + 1); }
    }
  }

  lemma {:induction false} MembersAgree(s: seq<byte>, i: nat, depth: nat, out: seq<L.LiteMember>)
    requires AsciiBytes(s) && i <= |s| && AllFit(out)
    ensures Agree(s, L.ReadMembers(s, i, depth, out), J.ReadMembers(s, i, depth, ConvertMembers(out, |out|)))
    decreases |s| - i, 4
  {
    hide AsciiBytes, L.ReadMember, J.ReadMember, L.ReadMembers, J.ReadMembers, SkipWs, Convert, Convertible,
      ConvertMembers, Stuck, KeysDistinct, Basic;
    MemberAgree(s, i, depth, out);
    TheirMemberStep(s, i, depth, out);
    MyMemberStep(s, i, depth, ConvertMembers(out, |out|));
    var l := L.ReadMember(s, i, depth);
    if l.Ok? {
      var m, k := l.value.0, SkipWs(s, l.value.1);
      if Fits(m, out) {
        ConvertMemberSnoc(out, m);
        if k < |s| && s[k] == COMMA { MembersAgree(s, k + 1, depth, out + [m]); }
      } else if k < |s| {
        BadMember(s, k + 1, depth, out, m);
      }
    }
  }

  // ----- documents

  lemma EncodeOfAscii(text: string)
    requires Utf8.IsAscii(text)
    ensures AsciiBytes(Utf8.Encode(text))
  {
    Utf8.EncodeAscii(text);
  }

  /** On every ASCII document, the integer-only reader returns `v` exactly when the
      lossless reader returns a convertible tree denoting `v`. */
  lemma ReadersAgree(text: string, v: J.JsonValue)
    requires Utf8.IsAscii(text)
    ensures J.Parse(text) == Ok(v)
       <==> L.Parse(text).Ok? && Convertible(L.Parse(text).value) && Convert(L.Parse(text).value) == v
  {
    hide L.ReadValue, J.ReadValue, SkipWs, Convert, Convertible, AsciiBytes;
    var s := Utf8.Encode(text);
    EncodeOfAscii(text);
    var i := SkipWs(s, 0);
    ValuesAgree(s, i, 0);
    var l, j := L.ReadValue(s, i, 0), J.ReadValue(s, i, 0);
    if l.Ok? { StuckStays(s, l.value.1); }
    if j.Ok? { StuckStays(s, j.value.1); }
  }

  /** Hence the integer-only reader accepts an ASCII document exactly when the lossless
      reader accepts it with a convertible tree. */
  lemma AcceptanceAgrees(text: string)
    requires Utf8.IsAscii(text)
    ensures J.Parse(text).Ok? <==> L.Parse(text).Ok? && Convertible(L.Parse(text).value)
  {
    hide J.Parse, L.Parse;
    if J.Parse(text).Ok? { ReadersAgree(text, J.Parse(text).value); }
    if L.Parse(text).Ok? && Convertible(L.Parse(text).value) {
      ReadersAgree(text, Convert(L.Parse(text).value));
    }
  }
}
