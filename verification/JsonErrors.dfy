/** Where a refused document is refused, for both readers: the position in the error is one
    in the document, and the byte, number or key that it blames stands there. */
module JsonErrors {
  import opened Prelude
  import opened JsonLex
  import J = Json
  import L = JsonLite
  import S = LiteStrings
  import Utf8

  /** The error of the integer-only reader blames what stands at its position. */
  ghost predicate Blames(s: seq<byte>, e: ParseError) {
    match e
    case UnexpectedEof => true
    case UnexpectedByte(p, b) => p < |s| && s[p] == b
    case InvalidEscape(p) => exists q: nat :: IsBadEscape(s, q, p)
    case InvalidNumber(p) => StartsNumber(s, p)
    case InvalidUtf8(p) => 1 <= p <= |s| && s[p - 1] == 0x22
    case NumberOutOfRange(p) => StartsNumber(s, p)
    case DepthExceeded(p) => 0 < p <= |s|
    case TrailingData(p) => p < |s| && s[p] != 0x20 && s[p] != 0x09 && s[p] != 0x0A && s[p] != 0x0D
    case DuplicateKey(p, key) => p < |s| && s[p] == 0x22 && J.ReadString(s, p).Ok? && J.ReadString(s, p).value.0 == key
  }

  /** An escape at `q` that is read no further than to `p`: four hex digits are not there,
      or spell a surrogate, or the letter is none of the table. */
  ghost predicate IsBadEscape(s: seq<byte>, q: nat, p: nat) {
    && q + 2 <= p <= |s| && s[q] == 0x5C
    && if s[q + 1] == 0x75 then p <= q + 6 else p == q + 2 && IsNoShort(s[q + 1])
  }

  ghost predicate IsNoShort(letter: byte) {
    forall code: int :: !S.IsShort(letter, code)
  }

  predicate StartsNumber(s: seq<byte>, p: nat) {
    p < |s| && (s[p] == 0x2D || 0x30 <= s[p] <= 0x39)
  }

  ghost predicate Fine<T>(s: seq<byte>, r: Result<T, ParseError>) {
    r.Err? ==> Blames(s, r.error)
  }

  // ----- the integer-only reader

  lemma {:induction false} HexFine(s: seq<byte>, q: nat, i: nat, k: nat, v: nat)
    requires q + 1 < |s| && s[q] == 0x5C && s[q + 1] == 0x75 && i <= |s| && k <= 4 && q + 6 == i + k && v < HexLimit(4 - k)
    ensures Fine(s, HexGroup(s, i, k, v))
    decreases k
  {
    if k > 0 && i < |s| {
      if HexDigit(s[i]).Some? {
        HexFine(s, q, i + 1, k - 1, v * 16 + HexDigit(s[i]).value);
      } else {
        assert IsBadEscape(s, q, i + 1);
      }
    }
  }

  lemma ShortIff(b: byte)
    ensures ShortEscape(b) == None ==> IsNoShort(b)
  {
  }

  lemma EscapeFine(s: seq<byte>, i: nat)
    requires 1 <= i <= |s| && s[i - 1] == 0x5C
    ensures Fine(s, J.ReadEscape(s, i))
  {
    hide HexGroup, ShortEscape;
    if i < |s| {
      if s[i] == 0x75 {
        HexFine(s, i - 1, i + 1, 4, 0);
        if Hex4(s, i + 1).Ok? { assert IsBadEscape(s, i - 1, Hex4(s, i + 1).value.1); }
      } else if ShortEscape(s[i]) == None {
        ShortIff(s[i]);
        assert IsBadEscape(s, i - 1, i + 1);
      }
    }
  }

  lemma {:induction false} BodyFine(s: seq<byte>, start: nat, pos: nat, escaped: bool, out: string)
    requires 1 <= start <= pos <= |s| && s[start - 1] == 0x22
    ensures Fine(s, J.ReadBody(s, start, pos, escaped, out))
    decreases |s| - pos
  {
    hide J.ReadEscape, Utf8.Decode;
    if pos == |s| || s[pos] == QUOTE {
    } else if s[pos] == BACKSLASH {
      EscapeFine(s, pos + 1);
      var text := J.Flushed(s, start, pos, escaped, out);
      if text.Ok? && J.ReadEscape(s, pos + 1).Ok? {
        var (c, next) := J.ReadEscape(s, pos + 1).value;
        BodyFine(s, start, next, true, text.value + [c]);
      }
    } else if s[pos] >= 0x20 {
      BodyFine(s, start, pos + 1, escaped, if escaped then out + [s[pos] as char] else out);
    }
  }

  lemma StringFine(s: seq<byte>, i: nat)
    requires i <= |s|
    ensures Fine(s, J.ReadString(s, i))
  {
    hide J.ReadBody;
    if i < |s| && s[i] == QUOTE { BodyFine(s, i + 1, i + 1, false, ""); }
  }

  lemma WordsFine(s: seq<byte>, i: nat)
    requires i < |s|
    ensures Fine(s, J.ReadBool(s, i)) && Fine(s, J.ReadNull(s, i))
    ensures StartsNumber(s, i) ==> Fine(s, J.ReadNumber(s, i))
  {
  }

  lemma {:induction false} ValueFine(s: seq<byte>, i: nat, depth: nat)
    requires i <= |s| && (depth > 0 ==> i > 0)
    ensures Fine(s, J.ReadValue(s, i, depth))
    decreases |s| - i, 2
  {
    hide J.ReadString, J.ReadBool, J.ReadNull, J.ReadNumber, J.ReadObject, J.ReadArray, Blames;
    if depth > MAX_DEPTH {
      DepthFine(s, i);
    } else {
      var j := SkipWs(s, i);
      if j == |s| {
        EofFine(s);
      } else {
        StringFine(s, j);
        WordsFine(s, j);
        ByteFine(s, j);
        if s[j] == LBRACE { ObjectFine(s, j, depth); }
        if s[j] == LBRACKET { ArrayFine(s, j, depth); }
      }
    }
  }

  lemma DepthFine(s: seq<byte>, i: nat)
    requires 0 < i <= |s|
    ensures Blames(s, DepthExceeded(i))
  {
  }

  lemma EofFine(s: seq<byte>)
    ensures Blames(s, UnexpectedEof)
  {
  }

  lemma ByteFine(s: seq<byte>, i: nat)
    requires i < |s|
    ensures Blames(s, UnexpectedByte(i, s[i]))
  {
  }

  lemma ExpectFine(s: seq<byte>, i: nat, want: byte)
    requires i <= |s|
    ensures Fine(s, Expect(s, i, want))
  {
  }

  lemma {:induction false} ObjectFine(s: seq<byte>, i: nat, depth: nat)
    requires i < |s|
    ensures Fine(s, J.ReadObject(s, i, depth))
    decreases |s| - i, 1
  {
    hide J.ReadMembers, Blames;
    ExpectFine(s, i, LBRACE);
    if s[i] == LBRACE {
      var k := SkipWs(s, i + 1);
      if !(k < |s| && s[k] == RBRACE) { MembersFine(s, k, depth, []); }
    }
  }

  lemma {:induction false} MemberFine(s: seq<byte>, i: nat, depth: nat, out: seq<J.Member>)
    requires 0 < i <= |s|
    ensures Fine(s, J.ReadMember(s, i, depth, out))
    decreases |s| - i, 3
  {
    hide J.ReadString, J.ReadValue, Blames, J.HasKey;
    var keyPos := SkipWs(s, i);
    StringFine(s, keyPos);
    if J.ReadString(s, keyPos).Ok? {
      var (key, afterKey) := J.ReadString(s, keyPos).value;
      KeyFine(s, keyPos, key);
      ExpectFine(s, SkipWs(s, afterKey), COLON);
      var j := Expect(s, SkipWs(s, afterKey), COLON);
      if j.Ok? { ValueFine(s, j.value, depth + 1); }
    }
  }

  lemma KeyFine(s: seq<byte>, i: nat, key: string)
    requires i <= |s| && J.ReadString(s, i).Ok? && J.ReadString(s, i).value.0 == key
    ensures Blames(s, DuplicateKey(i, key))
  {
    hide J.ReadBody;
  }

  lemma {:induction false} MembersFine(s: seq<byte>, i: nat, depth: nat, out: seq<J.Member>)
    requires 0 < i <= |s|
    ensures Fine(s, J.ReadMembers(s, i, depth, out))
    decreases |s| - i, 4
  {
    hide J.ReadMember, Blames;
    MemberFine(s, i, depth, out);
    if J.ReadMember(s, i, depth, out).Ok? {
      var (m, end) := J.ReadMember(s, i, depth, out).value;
      var k := SkipWs(s, end);
      if k == |s| {
        EofFine(s);
      } else {
        ByteFine(s, k);
        if s[k] == COMMA { MembersFine(s, k + 1, depth, out + [m]); }
      }
    }
  }

  lemma {:induction false} ArrayFine(s: seq<byte>, i: nat, depth: nat)
    requires i < |s|
    ensures Fine(s, J.ReadArray(s, i, depth))
    decreases |s| - i, 1
  {
    hide J.ReadItems, Blames;
    ExpectFine(s, i, LBRACKET);
    if s[i] == LBRACKET {
      var k := SkipWs(s, i + 1);
      if !(k < |s| && s[k] == RBRACKET) { ItemsFine(s, k, depth, []); }
    }
  }

  lemma {:induction false} ItemsFine(s: seq<byte>, i: nat, depth: nat, out: seq<J.JsonValue>)
    requires 0 < i <= |s|
    ensures Fine(s, J.ReadItems(s, i, depth, out))
    decreases |s| - i, 3
  {
    hide J.ReadValue, Blames;
    ValueFine(s, i, depth + 1);
    if J.ReadValue(s, i, depth + 1).Ok? {
      var (v, end) := J.ReadValue(s, i, depth + 1).value;
      var k := SkipWs(s, end);
      if k == |s| {
        EofFine(s);
      } else {
        ByteFine(s, k);
        if s[k] == COMMA { ItemsFine(s, k + 1, depth, out + [v]); }
      }
    }
  }

  /** The error of a refused document blames a byte, a number or a key that stands at the
      position it names. */
  lemma DocumentFine(s: seq<byte>)
    ensures Fine(s, J.ReadDocument(s))
  {
    hide J.ReadValue;
    ValueFine(s, SkipWs(s, 0), 0);
  }

  // ----- the lossless reader

  /** The error of the lossless reader. A bad escape letter and bad UTF-8 are blamed on the
      quote that opens the string. */
  ghost predicate BlamesLite(s: seq<byte>, e: ParseError) {
    match e
    case UnexpectedEof => true
    case UnexpectedByte(p, b) => p < |s| && s[p] == b
    case InvalidEscape(p) => (p < |s| && s[p] == 0x22) || exists q: nat :: IsBadUnicode(s, q, p)
    case InvalidNumber(p) => StartsNumber(s, p)
    case InvalidUtf8(p) => p < |s| && s[p] == 0x22
    case DepthExceeded(p) => 0 < p <= |s|
    case TrailingData(p) => p < |s| && s[p] != 0x20 && s[p] != 0x09 && s[p] != 0x0A && s[p] != 0x0D
    case _ => false
  }

  /** A `u` escape at `q`, and what should be its low half behind it, up to `p`. */
  predicate IsBadUnicode(s: seq<byte>, q: nat, p: nat) {
    q + 2 <= p <= |s| && p <= q + 12 && s[q] == 0x5C && s[q + 1] == 0x75
  }

  ghost predicate FineLite<T>(s: seq<byte>, r: Result<T, ParseError>) {
    r.Err? ==> BlamesLite(s, r.error)
  }

  lemma {:induction false} HexFineLite(s: seq<byte>, q: nat, i: nat, k: nat, v: nat)
    requires q + 1 < |s| && s[q] == 0x5C && s[q + 1] == 0x75 && q + 2 <= i <= |s| && k <= 4 && i + k <= q + 12 && v < HexLimit(4 - k)
    ensures FineLite(s, HexGroup(s, i, k, v))
    decreases k
  {
    if k > 0 && i < |s| {
      if HexDigit(s[i]).Some? {
        HexFineLite(s, q, i + 1, k - 1, v * 16 + HexDigit(s[i]).value);
      } else {
        assert IsBadUnicode(s, q, i + 1);
      }
    }
  }

  lemma LowFine(s: seq<byte>, q: nat, i: nat)
    requires q + 1 < |s| && s[q] == 0x5C && s[q + 1] == 0x75 && i == q + 6 <= |s|
    ensures FineLite(s, L.ReadLowSurrogate(s, i))
  {
    hide HexGroup;
    if i == |s| || s[i] != BACKSLASH || i + 1 == |s| || s[i + 1] != 0x75 {
      assert IsBadUnicode(s, q, i) && (i < |s| ==> IsBadUnicode(s, q, i + 1)) && (i + 1 < |s| ==> IsBadUnicode(s, q, i + 2));
    } else {
      HexFineLite(s, q, i + 2, 4, 0);
      if Hex4(s, i + 2).Ok? { assert IsBadUnicode(s, q, Hex4(s, i + 2).value.1); }
    }
  }

  lemma EscapeFineLite(s: seq<byte>, i: nat, start: nat)
    requires 1 <= i <= |s| && s[i - 1] == 0x5C && start < |s| && s[start] == 0x22
    ensures FineLite(s, L.ReadEscape(s, i, start))
  {
    hide HexGroup, L.ReadLowSurrogate, L.Combined;
    if i < |s| && s[i] == 0x75 {
      HexFineLite(s, i - 1, i + 1, 4, 0);
      if Hex4(s, i + 1).Ok? {
        assert IsBadUnicode(s, i - 1, Hex4(s, i + 1).value.1);
        LowFine(s, i - 1, i + 5);
      }
    }
  }

  lemma {:induction false} BodyFineLite(s: seq<byte>, start: nat, pos: nat, out: string)
    requires start < |s| && s[start] == 0x22 && pos <= |s|
    ensures FineLite(s, L.ReadBody(s, start, pos, out))
    decreases |s| - pos
  {
    hide L.ReadEscape, Utf8.Decode;
    if pos == |s| || s[pos] == QUOTE {
    } else if s[pos] == BACKSLASH {
      EscapeFineLite(s, pos + 1, start);
      if L.ReadEscape(s, pos + 1, start).Ok? {
        var (c, next) := L.ReadEscape(s, pos + 1, start).value;
        BodyFineLite(s, start, next, out + [c]);
      }
    } else if s[pos] >= 0x20 {
      if L.ReadRaw(s, pos, start).Ok? {
        var (t, next) := L.ReadRaw(s, pos, start).value;
        BodyFineLite(s, start, next, out + t);
      }
    }
  }

  lemma StringFineLite(s: seq<byte>, i: nat)
    requires i <= |s|
    ensures FineLite(s, L.ReadString(s, i))
  {
    hide L.ReadBody;
    if i < |s| && s[i] == QUOTE { BodyFineLite(s, i, i + 1, ""); }
  }

  lemma WordsFineLite(s: seq<byte>, i: nat)
    requires i < |s|
    ensures FineLite(s, L.ReadBool(s, i)) && FineLite(s, L.ReadNull(s, i))
    ensures StartsNumber(s, i) ==> FineLite(s, L.ReadNumber(s, i))
  {
    hide L.NumberEnd;
  }

  lemma {:induction false} ValueFineLite(s: seq<byte>, i: nat, depth: nat)
    requires i <= |s| && (depth > 0 ==> i > 0)
    ensures FineLite(s, L.ReadValue(s, i, depth))
    decreases |s| - i, 2
  {
    hide L.ReadString, L.ReadBool, L.ReadNull, L.ReadNumber, L.ReadObject, L.ReadArray, BlamesLite;
    if depth > MAX_DEPTH {
      DepthFineLite(s, i);
    } else {
      var j := SkipWs(s, i);
      if j == |s| {
        EofFineLite(s);
      } else {
        StringFineLite(s, j);
        WordsFineLite(s, j);
        ByteFineLite(s, j);
        if s[j] == LBRACE { ObjectFineLite(s, j, depth); }
        if s[j] == LBRACKET { ArrayFineLite(s, j, depth); }
      }
    }
  }

  lemma DepthFineLite(s: seq<byte>, i: nat)
    requires 0 < i <= |s|
    ensures BlamesLite(s, DepthExceeded(i))
  {
  }

  lemma EofFineLite(s: seq<byte>)
    ensures BlamesLite(s, UnexpectedEof)
  {
  }

  lemma ByteFineLite(s: seq<byte>, i: nat)
    requires i < |s|
    ensures BlamesLite(s, UnexpectedByte(i, s[i]))
  {
  }

  lemma ExpectFineLite(s: seq<byte>, i: nat, want: byte)
    requires i <= |s|
    ensures FineLite(s, Expect(s, i, want))
  {
  }

  lemma {:induction false} ObjectFineLite(s: seq<byte>, i: nat, depth: nat)
    requires i < |s|
    ensures FineLite(s, L.ReadObject(s, i, depth))
    decreases |s| - i, 1
  {
    hide L.ReadMembers, BlamesLite;
    ExpectFineLite(s, i, LBRACE);
    if s[i] == LBRACE {
      var k := SkipWs(s, i + 1);
      if !(k < |s| && s[k] == RBRACE) { MembersFineLite(s, k, depth, []); }
    }
  }

  lemma {:induction false} MemberFineLite(s: seq<byte>, i: nat, depth: nat)
    requires 0 < i <= |s|
    ensures FineLite(s, L.ReadMember(s, i, depth))
    decreases |s| - i, 3
  {
    hide L.ReadString, L.ReadValue, BlamesLite;
    var keyPos := SkipWs(s, i);
    StringFineLite(s, keyPos);
    if L.ReadString(s, keyPos).Ok? {
      var (key, afterKey) := L.ReadString(s, keyPos).value;
      ExpectFineLite(s, SkipWs(s, afterKey), COLON);
      var j := Expect(s, SkipWs(s, afterKey), COLON);
      if j.Ok? { ValueFineLite(s, j.value, depth + 1); }
    }
  }

  lemma {:induction false} MembersFineLite(s: seq<byte>, i: nat, depth: nat, out: seq<L.LiteMember>)
    requires 0 < i <= |s|
    ensures FineLite(s, L.ReadMembers(s, i, depth, out))
    decreases |s| - i, 4
  {
    hide L.ReadMember, BlamesLite;
    MemberFineLite(s, i, depth);
    if L.ReadMember(s, i, depth).Ok? {
      var (m, end) := L.ReadMember(s, i, depth).value;
      var k := SkipWs(s, end);
      if k == |s| {
        EofFineLite(s);
      } else {
        ByteFineLite(s, k);
        if s[k] == COMMA { MembersFineLite(s, k + 1, depth, out + [m]); }
      }
    }
  }

  lemma {:induction false} ArrayFineLite(s: seq<byte>, i: nat, depth: nat)
    requires i < |s|
    ensures FineLite(s, L.ReadArray(s, i, depth))
    decreases |s| - i, 1
  {
    hide L.ReadItems, BlamesLite;
    ExpectFineLite(s, i, LBRACKET);
    if s[i] == LBRACKET {
      var k := SkipWs(s, i + 1);
      if !(k < |s| && s[k] == RBRACKET) { ItemsFineLite(s, k, depth, []); }
    }
  }

  lemma {:induction false} ItemsFineLite(s: seq<byte>, i: nat, depth: nat, out: seq<L.LiteValue>)
    requires 0 < i <= |s|
    ensures FineLite(s, L.ReadItems(s, i, depth, out))
    decreases |s| - i, 3
  {
    hide L.ReadValue, BlamesLite;
    ValueFineLite(s, i, depth + 1);
    if L.ReadValue(s, i, depth + 1).Ok? {
      var (v, end) := L.ReadValue(s, i, depth + 1).value;
      var k := SkipWs(s, end);
      if k == |s| {
        EofFineLite(s);
      } else {
        ByteFineLite(s, k);
        if s[k] == COMMA { ItemsFineLite(s, k + 1, depth, out + [v]); }
      }
    }
  }

  /** The same for the lossless reader. */
  lemma DocumentFineLite(s: seq<byte>)
    ensures FineLite(s, L.ReadDocument(s))
  {
    hide L.ReadValue;
    ValueFineLite(s, SkipWs(s, 0), 0);
  }
}
