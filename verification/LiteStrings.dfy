/** String literals of the lossless reader against section 7 of RFC 8259: a literal is
    accepted exactly when it is a sequence of spelled scalars, and it decodes to those
    scalars, whichever spelling each one has. And the depth bound. */
module LiteStrings {
  import opened Prelude
  import opened JsonLex
  import opened JsonLite
  import Utf8

  /** One way to write one scalar inside a literal. */
  datatype Spelling =
    | Raw
    | Short(letter: byte)
    | Hex(digits: seq<byte>)
    | Pair(high: seq<byte>, low: seq<byte>)

  /** The letters of section 7 of RFC 8259 and the code points they stand for. */
  predicate IsShort(letter: byte, code: int) {
    || (letter == 0x22 && code == 0x22) || (letter == 0x5C && code == 0x5C) || (letter == 0x2F && code == 0x2F)
    || (letter == 0x62 && code == 0x08) || (letter == 0x66 && code == 0x0C) || (letter == 0x6E && code == 0x0A)
    || (letter == 0x72 && code == 0x0D) || (letter == 0x74 && code == 0x09)
  }

  const HEX_LOWER: string := "0123456789abcdef"
  const HEX_UPPER: string := "0123456789ABCDEF"

  predicate IsHexDigit(b: byte, v: nat) {
    v < 16 && (HEX_LOWER[v] as int == b || HEX_UPPER[v] as int == b)
  }

  /** Four hex digits of either case, the first one the most significant. */
  ghost predicate SpellsHex(d: seq<byte>, v: int) {
    |d| == 4 && exists a: nat, b: nat, c: nat, e: nat :: IsHexDigits(d, a, b, c, e) && v == a * 0x1000 + b * 0x100 + c * 0x10 + e
  }

  predicate IsHexDigits(d: seq<byte>, a: nat, b: nat, c: nat, e: nat)
    requires |d| == 4
  {
    IsHexDigit(d[0], a) && IsHexDigit(d[1], b) && IsHexDigit(d[2], c) && IsHexDigit(d[3], e)
  }

  datatype Piece = Piece(c: char, how: Spelling) {
    /** The spelling is one the grammar allows for this scalar; a pair is the scalar's
        UTF-16 form. */
    ghost predicate Valid() {
      match how
      case Raw => c as int >= 0x20 && c as int != 0x22 && c as int != 0x5C
      case Short(letter) => IsShort(letter, c as int)
      case Hex(digits) => SpellsHex(digits, c as int)
      case Pair(high, low) =>
        var above := c as int - 0x1_0000;
        above >= 0 && SpellsHex(high, 0xD800 + above / 0x400) && SpellsHex(low, 0xDC00 + above % 0x400)
    }

    /** The reader takes the spelling for this scalar. */
    predicate Reads() {
      match how
      case Raw => c as int >= 0x20 && c != '"' && c != '\\'
      case Short(letter) => ShortEscape(letter) == Some(c)
      case Hex(digits) => HexValue(digits) == Some(c as int)
      case Pair(high, low) =>
        match (HexValue(high), HexValue(low))
        case (Some(h), Some(l)) =>
          0xD800 <= h <= 0xDBFF && 0xDC00 <= l <= 0xDFFF && Combined(h, l) == c as int
        case _ => false
    }

    function Bytes(): seq<byte> {
      match how
      case Raw => Utf8.EncodeChar(c)
      case Short(letter) => [BACKSLASH, letter]
      case Hex(digits) => HexEscape(digits)
      case Pair(high, low) => HexEscape(high) + HexEscape(low)
    }
  }

  /** The value of a group of exactly four hex digits, of either case. */
  function HexValue(d: seq<byte>): (r: Option<nat>)
    ensures r.Some? ==> r.value < 0x1_0000 && |d| == 4
  {
    if |d| != 4 then None
    else
      match Hex4(d, 0)
      case Ok((v, _)) => Some(v)
      case Err(_) => None
  }

  function Spelled(ps: seq<Piece>): seq<byte> {
    if ps == [] then [] else ps[0].Bytes() + Spelled(ps[1..])
  }

  function Scalars(ps: seq<Piece>): string {
    if ps == [] then [] else [ps[0].c] + Scalars(ps[1..])
  }

  ghost predicate AllValid(ps: seq<Piece>) {
    forall k :: 0 <= k < |ps| ==> ps[k].Valid()
  }

  predicate AllRead(ps: seq<Piece>) {
    forall k :: 0 <= k < |ps| ==> ps[k].Reads()
  }

  lemma {:induction false} HexGroupLocal(s: seq<byte>, i: nat, d: seq<byte>, n: nat, k: nat, v: nat)
    requires At(s, i, d) && n + k == |d| && k <= 4 && v < HexLimit(4 - k)
    ensures HexGroup(d, n, k, v).Ok? <==> HexGroup(s, i + n, k, v).Ok?
    ensures HexGroup(d, n, k, v).Ok? ==> HexGroup(d, n, k, v).value.0 == HexGroup(s, i + n, k, v).value.0
    decreases k
  {
    if k > 0 {
      AtIndex(s, i, d, n);
      match HexDigit(d[n])
      case None =>
      case Some(x) => HexGroupLocal(s, i, d, n + 1, k - 1, v * 16 + x);
    }
  }

  lemma Hex4Value(s: seq<byte>, i: nat, d: seq<byte>)
    requires |d| == 4 && At(s, i, d)
    ensures HexValue(d).Some? ==> Hex4(s, i) == Ok((HexValue(d).value, i + 4))
    ensures HexValue(d).None? ==> Hex4(s, i).Err?
  {
    HexGroupLocal(s, i, d, 0, 4, 0);
  }

  // ----- spelled scalars decode to themselves

  /** `\u` and four hex digits, at the backslash. */
  function HexEscape(d: seq<byte>): seq<byte> {
    [BACKSLASH, 0x75] + d
  }

  lemma ReadHexAt(s: seq<byte>, i: nat, d: seq<byte>)
    requires At(s, i, HexEscape(d)) && HexValue(d).Some?
    ensures i + 6 <= |s| && s[i] == BACKSLASH && s[i + 1] == 0x75 && Hex4(s, i + 2) == Ok((HexValue(d).value, i + 6))
  {
    hide HexValue, Hex4;
    AtSplit(s, i, [BACKSLASH, 0x75], d);
    AtIndex(s, i, [BACKSLASH, 0x75], 0);
    AtIndex(s, i, [BACKSLASH, 0x75], 1);
    Hex4Value(s, i + 2, d);
  }

  lemma ReadHexPiece(s: seq<byte>, start: nat, i: nat, out: string, c: char, d: seq<byte>)
    requires At(s, i, HexEscape(d)) && HexValue(d) == Some(c as int)
    ensures i + 6 <= |s| && ReadBody(s, start, i, out) == ReadBody(s, start, i + 6, out + [c])
  {
    hide HexValue, Hex4, At, HexEscape;
    ReadHexAt(s, i, d);
    assert ReadEscape(s, i + 1, start) == Ok((c, i + 6));
  }

  lemma ReadPairPiece(s: seq<byte>, start: nat, i: nat, out: string, c: char, h: seq<byte>, l: seq<byte>)
    requires At(s, i, HexEscape(h) + HexEscape(l)) && Piece(c, Pair(h, l)).Reads()
    ensures i + 12 <= |s| && ReadBody(s, start, i, out) == ReadBody(s, start, i + 12, out + [c])
  {
    hide HexValue, Hex4, At;
    AtSplit(s, i, HexEscape(h), HexEscape(l));
    assert |HexEscape(h)| == 6 && |HexEscape(l)| == 6;
    hide HexEscape;
    ReadHexAt(s, i, h);
    ReadHexAt(s, i + 6, l);
    assert ReadLowSurrogate(s, i + 6) == Ok((HexValue(l).value, i + 12));
    assert ReadEscape(s, i + 1, start) == Ok((c, i + 12));
  }

  lemma ReadShortPiece(s: seq<byte>, start: nat, i: nat, out: string, c: char, letter: byte)
    requires At(s, i, [BACKSLASH, letter]) && ShortEscape(letter) == Some(c)
    ensures i + 2 <= |s| && ReadBody(s, start, i, out) == ReadBody(s, start, i + 2, out + [c])
  {
    AtIndex(s, i, [BACKSLASH, letter], 0);
    AtIndex(s, i, [BACKSLASH, letter], 1);
    assert ReadEscape(s, i + 1, start) == Ok((c, i + 2));
  }

  lemma ReadPiece(s: seq<byte>, start: nat, i: nat, out: string, p: Piece)
    requires p.Reads() && At(s, i, p.Bytes())
    ensures i + |p.Bytes()| <= |s|
    ensures ReadBody(s, start, i, out) == ReadBody(s, start, i + |p.Bytes()|, out + [p.c])
  {
    hide HexValue, ReadBody, At;
    match p.how
    case Raw => ReadRawPiece(s, start, i, out, p.c);
    case Short(letter) => ReadShortPiece(s, start, i, out, p.c, letter);
    case Hex(d) => ReadHexPiece(s, start, i, out, p.c, d);
    case Pair(h, l) => ReadPairPiece(s, start, i, out, p.c, h, l);
  }

  lemma ReadRawPiece(s: seq<byte>, start: nat, i: nat, out: string, c: char)
    requires c as int >= 0x20 && c != '"' && c != '\\' && At(s, i, Utf8.EncodeChar(c))
    ensures i + |Utf8.EncodeChar(c)| <= |s|
    ensures ReadBody(s, start, i, out) == ReadBody(s, start, i + |Utf8.EncodeChar(c)|, out + [c])
  {
    hide Utf8.EncodeChar, Utf8.LeadLength, Utf8.Decode;
    var g := Utf8.EncodeChar(c);
    AtIndex(s, i, g, 0);
    Utf8.DecodeGroupOfChar(c);
    Utf8.EncodeOne(c);
    Utf8.DecodeEncode([c]);
    assert ReadRaw(s, i, start) == Ok(([c], i + |g|));
  }

  lemma ReadClose(s: seq<byte>, start: nat, i: nat, out: string)
    requires At(s, i, [QUOTE])
    ensures i <= |s| && ReadBody(s, start, i, out) == Ok((out + "", i + 1))
  {
    AtIndex(s, i, [QUOTE], 0);
    assert out + "" == out;
  }

  lemma {:induction false} ReadSpelled(s: seq<byte>, start: nat, i: nat, out: string, ps: seq<Piece>)
    requires AllRead(ps) && At(s, i, Spelled(ps) + [QUOTE])
    ensures ReadBody(s, start, i, out) == Ok((out + Scalars(ps), i + |Spelled(ps)| + 1))
    decreases ps
  {
    hide Piece.Reads, Piece.Bytes, ReadBody, At;
    AtSplit(s, i, Spelled(ps), [QUOTE]);
    if ps == [] {
      ReadClose(s, start, i, out);
    } else {
      var p, rest := ps[0], ps[1..];
      AtSplit(s, i, p.Bytes(), Spelled(rest));
      AtSplit(s, i + |p.Bytes()|, Spelled(rest), [QUOTE]);
      ReadPiece(s, start, i, out, p);
      ReadSpelled(s, start, i + |p.Bytes()|, out + [p.c], rest);
      Regroup(out, [p.c], Scalars(rest), "", "", "");
    }
  }

  // ----- whatever is decoded was spelled

  lemma UnicodeSpelled(s: seq<byte>, i: nat, start: nat) returns (p: Piece)
    requires i + 1 < |s| && s[i] == BACKSLASH && s[i + 1] == 0x75 && ReadEscape(s, i + 1, start).Ok?
    ensures p.Reads() && p.c == ReadEscape(s, i + 1, start).value.0
    ensures At(s, i, p.Bytes()) && i + |p.Bytes()| == ReadEscape(s, i + 1, start).value.1
  {
    hide Hex4, HexValue, At;
    var (c, j) := ReadEscape(s, i + 1, start).value;
    var d := s[i + 2..i + 6];
    HexSlice(s, i);
    var cp := Hex4(s, i + 2).value.0;
    if 0xD800 <= cp <= 0xDBFF {
      var l := s[i + 8..i + 12];
      HexSlice(s, i + 6);
      p := Piece(c, Pair(d, l));
      AtSplit(s, i, HexEscape(d), HexEscape(l));
    } else {
      p := Piece(c, Hex(d));
    }
  }

  lemma EscapeSpelled(s: seq<byte>, i: nat, start: nat) returns (p: Piece)
    requires i < |s| && s[i] == BACKSLASH && ReadEscape(s, i + 1, start).Ok?
    ensures p.Reads() && p.c == ReadEscape(s, i + 1, start).value.0
    ensures At(s, i, p.Bytes()) && i + |p.Bytes()| == ReadEscape(s, i + 1, start).value.1
  {
    hide Hex4, HexValue, At, ReadLowSurrogate;
    if s[i + 1] == 0x75 {
      p := UnicodeSpelled(s, i, start);
    } else {
      p := Piece(ReadEscape(s, i + 1, start).value.0, Short(s[i + 1]));
      SliceOf(s, i, p.Bytes());
    }
  }

  lemma HexSlice(s: seq<byte>, i: nat)
    requires i + 2 <= |s| && s[i] == BACKSLASH && s[i + 1] == 0x75 && Hex4(s, i + 2).Ok?
    ensures var d := s[i + 2..i + 6];
      i + 6 <= |s| && At(s, i, HexEscape(d)) && HexValue(d) == Some(Hex4(s, i + 2).value.0)
  {
    hide Hex4, HexValue;
    var d := s[i + 2..i + 6];
    Hex4Value(s, i + 2, d);
    SliceOf(s, i, HexEscape(d));
  }

  lemma SliceOf(s: seq<byte>, i: nat, t: seq<byte>)
    requires i + |t| <= |s| && forall k :: 0 <= k < |t| ==> s[i + k] == t[k]
    ensures At(s, i, t)
  {
  }

  lemma RawSpelled(s: seq<byte>, i: nat, start: nat) returns (p: Piece)
    requires i < |s| && s[i] >= 0x20 && s[i] != QUOTE && s[i] != BACKSLASH && ReadRaw(s, i, start).Ok?
    ensures p.Reads() && [p.c] == ReadRaw(s, i, start).value.0
    ensures At(s, i, p.Bytes()) && i + |p.Bytes()| == ReadRaw(s, i, start).value.1
  {
    hide Utf8.EncodeChar, Utf8.DecodeGroup;
    var n := Utf8.LeadLength(s[i]);
    var g := s[i..i + n];
    assert g[0] == s[i] && g[..n] == g && g[n..] == [];
    assert Utf8.Decode(g[n..]) == Some([]);
    var c := Utf8.DecodeGroup(g).value;
    assert [c] + [] == [c];
    assert Utf8.EncodeChar(c) == g;
    p := Piece(c, Raw);
  }

  lemma {:induction false} BodySpelled(s: seq<byte>, start: nat, i: nat, out: string) returns (ps: seq<Piece>)
    requires i <= |s| && ReadBody(s, start, i, out).Ok?
    ensures AllRead(ps) && At(s, i, Spelled(ps) + [QUOTE])
    ensures ReadBody(s, start, i, out).value == (out + Scalars(ps), i + |Spelled(ps)| + 1)
    decreases |s| - i
  {
    hide Piece.Reads, Piece.Bytes, ReadEscape, ReadRaw;
    if s[i] == QUOTE {
      ps := [];
      assert out + "" == out && [] + [QUOTE] == [QUOTE];
    } else {
      var p: Piece;
      if s[i] == BACKSLASH {
        p := EscapeSpelled(s, i, start);
      } else {
        p := RawSpelled(s, i, start);
      }
      var rest := BodySpelled(s, start, i + |p.Bytes()|, out + [p.c]);
      ps := [p] + rest;
      PiecesCons(p, rest);
      AtSplit(s, i, p.Bytes(), Spelled(rest) + [QUOTE]);
      Regroup(p.Bytes(), Spelled(rest), [QUOTE], [], [], []);
      Regroup(out, [p.c], Scalars(rest), "", "", "");
    }
  }

  lemma PiecesCons(p: Piece, rest: seq<Piece>)
    ensures Spelled([p] + rest) == p.Bytes() + Spelled(rest)
    ensures Scalars([p] + rest) == [p.c] + Scalars(rest)
  {
    hide Piece.Bytes;
    assert ([p] + rest)[1..] == rest;
  }

  // ----- the reader's spellings are the grammar's

  lemma HexDigitIff(b: byte, v: nat)
    ensures HexDigit(b) == Some(v) <==> IsHexDigit(b, v)
  {
    assert forall k: nat :: k < 10 ==> HEX_LOWER[k] as int == 0x30 + k && HEX_UPPER[k] as int == 0x30 + k;
    assert forall k: nat :: 10 <= k < 16 ==> HEX_LOWER[k] as int == 0x61 + k - 10 && HEX_UPPER[k] as int == 0x41 + k - 10;
  }

  /** The reader's four digits one by one. */
  lemma HexValueDigits(d: seq<byte>)
    requires |d| == 4
    ensures HexValue(d).Some? <==> HexDigit(d[0]).Some? && HexDigit(d[1]).Some? && HexDigit(d[2]).Some? && HexDigit(d[3]).Some?
    ensures HexValue(d).Some? ==>
      HexValue(d).value == HexDigit(d[0]).value * 0x1000 + HexDigit(d[1]).value * 0x100 + HexDigit(d[2]).value * 0x10 + HexDigit(d[3]).value
  {
    hide HexDigit;
    if HexDigit(d[0]).Some? {
      var a := HexDigit(d[0]).value;
      assert HexGroup(d, 0, 4, 0) == HexGroup(d, 1, 3, a);
      if HexDigit(d[1]).Some? {
        var b := a * 16 + HexDigit(d[1]).value;
        assert HexGroup(d, 1, 3, a) == HexGroup(d, 2, 2, b);
        if HexDigit(d[2]).Some? {
          assert HexGroup(d, 2, 2, b) == HexGroup(d, 3, 1, b * 16 + HexDigit(d[2]).value);
        }
      }
    }
  }

  lemma HexValueIff(d: seq<byte>, v: nat)
    ensures HexValue(d) == Some(v) <==> SpellsHex(d, v)
  {
    hide HexValue, HexDigit, IsHexDigit;
    if |d| == 4 {
      HexValueDigits(d);
      forall k, x: nat | 0 <= k < 4 ensures HexDigit(d[k]) == Some(x) <==> IsHexDigit(d[k], x) {
        HexDigitIff(d[k], x);
      }
      if HexValue(d) == Some(v) {
        assert IsHexDigits(d, HexDigit(d[0]).value, HexDigit(d[1]).value, HexDigit(d[2]).value, HexDigit(d[3]).value);
      }
      if SpellsHex(d, v) {
        var a: nat, b: nat, c: nat, e: nat :| IsHexDigits(d, a, b, c, e) && v == a * 0x1000 + b * 0x100 + c * 0x10 + e;
        assert HexDigit(d[0]) == Some(a) && HexDigit(d[1]) == Some(b) && HexDigit(d[2]) == Some(c) && HexDigit(d[3]) == Some(e);
      }
    } else {
      HexLength(d);
    }
  }

  lemma HexLength(d: seq<byte>)
    ensures HexValue(d).Some? ==> |d| == 4
  {
  }

  lemma ShortIff(letter: byte, c: char)
    ensures ShortEscape(letter) == Some(c) <==> IsShort(letter, c as int)
  {
  }

  /** What the reader takes for a scalar is what the grammar allows for it. */
  lemma ValidIff(p: Piece)
    ensures p.Valid() <==> p.Reads()
  {
    hide HexValue, SpellsHex, ShortEscape, IsShort;
    match p.how
    case Raw =>
    case Short(letter) => ShortIff(letter, p.c);
    case Hex(digits) => HexValueIff(digits, p.c as int);
    case Pair(high, low) => PairIff(p.c, high, low);
  }

  lemma PairIff(c: char, high: seq<byte>, low: seq<byte>)
    ensures Piece(c, Pair(high, low)).Valid() <==> Piece(c, Pair(high, low)).Reads()
  {
    hide HexValue, SpellsHex;
    var above := c as int - 0x1_0000;
    if above >= 0 {
      HexValueIff(high, 0xD800 + above / 0x400);
      HexValueIff(low, 0xDC00 + above % 0x400);
    }
  }

  lemma AllValidIff(ps: seq<Piece>)
    ensures AllValid(ps) <==> AllRead(ps)
  {
    hide Piece.Valid, Piece.Reads;
    forall k | 0 <= k < |ps| ensures ps[k].Valid() <==> ps[k].Reads() {
      ValidIff(ps[k]);
    }
  }

  /** The slice from `i` to `j` is a quoted sequence of validly spelled scalars that
      read `t`. */
  ghost predicate IsLiteral(s: seq<byte>, i: nat, j: nat, t: string) {
    exists ps :: AllValid(ps) && Scalars(ps) == t && At(s, i, Literal(ps)) && j == i + |Literal(ps)|
  }

  function Literal(ps: seq<Piece>): seq<byte> {
    [QUOTE] + (Spelled(ps) + [QUOTE])
  }

  /** A string is read, as `t` and up to `j`, exactly when it is a literal for `t`. */
  lemma ReadStringIff(s: seq<byte>, i: nat, t: string, j: nat)
    requires i <= |s|
    ensures ReadString(s, i) == Ok((t, j)) <==> IsLiteral(s, i, j, t)
  {
    hide ReadBody, Spelled, Scalars, AllRead, AllValid;
    if ReadString(s, i) == Ok((t, j)) {
      var ps := BodySpelled(s, i, i + 1, "");
      AllValidIff(ps);
      assert "" + Scalars(ps) == Scalars(ps);
      SliceOf(s, i, [QUOTE]);
      AtSplit(s, i, [QUOTE], Spelled(ps) + [QUOTE]);
      assert IsLiteral(s, i, j, t);
    }
    if IsLiteral(s, i, j, t) {
      var ps :| AllValid(ps) && Scalars(ps) == t && At(s, i, Literal(ps)) && j == i + |Literal(ps)|;
      AllValidIff(ps);
      AtSplit(s, i, [QUOTE], Spelled(ps) + [QUOTE]);
      AtIndex(s, i, [QUOTE], 0);
      ReadSpelled(s, i, i + 1, "", ps);
      assert "" + Scalars(ps) == Scalars(ps);
    }
  }

  // ----- depth

  /** Nesting height: 0 for scalars and empty containers. */
  function Height(v: LiteValue): nat {
    match v
    case Array(items) => if items == [] then 0 else 1 + ItemsHeight(items)
    case Object(members) => if members == [] then 0 else 1 + MembersHeight(members)
    case _ => 0
  }

  function ItemsHeight(items: seq<LiteValue>): nat {
    if items == [] then 0 else Max(ItemsHeight(items[..|items| - 1]), Height(items[|items| - 1]))
  }

  function MembersHeight(members: seq<LiteMember>): nat {
    if members == [] then 0
    else Max(MembersHeight(members[..|members| - 1]), Height(members[|members| - 1].value))
  }

  lemma ItemsHeightSnoc(out: seq<LiteValue>, v: LiteValue)
    ensures Height(Array(out + [v])) == Max(Height(Array(out)), 1 + Height(v))
  {
    var all := out + [v];
    assert all[..|all| - 1] == out && all[|all| - 1] == v;
    assert ItemsHeight(all) == Max(ItemsHeight(out), Height(v));
    if out == [] { assert ItemsHeight(out) == 0; }
  }

  lemma MembersHeightSnoc(out: seq<LiteMember>, m: LiteMember)
    ensures Height(Object(out + [m])) == Max(Height(Object(out)), 1 + Height(m.value))
  {
    var all := out + [m];
    assert all[..|all| - 1] == out && all[|all| - 1] == m;
    assert MembersHeight(all) == Max(MembersHeight(out), Height(m.value));
    if out == [] { assert MembersHeight(out) == 0; }
  }

  lemma {:induction false} ReadValueHeight(s: seq<byte>, i: nat, depth: nat)
    requires i <= |s|
    ensures ReadValue(s, i, depth).Ok? ==> depth + Height(ReadValue(s, i, depth).value.0) <= MAX_DEPTH
    decreases |s| - i, 2
  {
    hide ReadString, ReadNumber, ReadItems, ReadMembers;
    var j := SkipWs(s, i);
    if depth <= MAX_DEPTH && j < |s| {
      if s[j] == LBRACE {
        ReadMembersHeight(s, SkipWs(s, j + 1), depth, []);
      } else if s[j] == LBRACKET {
        ReadItemsHeight(s, SkipWs(s, j + 1), depth, []);
      } else if IsDigitByte(s[j]) || s[j] == MINUS {
        NumberHasNoHeight(s, j);
      }
    }
  }

  lemma NumberHasNoHeight(s: seq<byte>, i: nat)
    ensures ReadNumber(s, i).Ok? ==> Height(ReadNumber(s, i).value.0) == 0
  {
  }

  lemma {:induction false} ReadItemsHeight(s: seq<byte>, i: nat, depth: nat, out: seq<LiteValue>)
    requires i <= |s| && depth <= MAX_DEPTH && depth + Height(Array(out)) <= MAX_DEPTH
    ensures ReadItems(s, i, depth, out).Ok? ==> depth + Height(ReadItems(s, i, depth, out).value.0) <= MAX_DEPTH
    decreases |s| - i, 3
  {
    hide ReadValue;
    ReadValueHeight(s, i, depth + 1);
    var r := ReadValue(s, i, depth + 1);
    if r.Ok? {
      var k := SkipWs(s, r.value.1);
      ItemsHeightSnoc(out, r.value.0);
      if k < |s| && s[k] == COMMA { ReadItemsHeight(s, k + 1, depth, out + [r.value.0]); }
    }
  }

  lemma {:induction false} ReadMembersHeight(s: seq<byte>, i: nat, depth: nat, out: seq<LiteMember>)
    requires i <= |s| && depth <= MAX_DEPTH && depth + Height(Object(out)) <= MAX_DEPTH
    ensures ReadMembers(s, i, depth, out).Ok? ==> depth + Height(ReadMembers(s, i, depth, out).value.0) <= MAX_DEPTH
    decreases |s| - i, 4
  {
    hide ReadValue, ReadString;
    var r := ReadMember(s, i, depth);
    if r.Ok? {
      var (_, afterKey) := ReadString(s, SkipWs(s, i)).value;
      ReadValueHeight(s, Expect(s, SkipWs(s, afterKey), COLON).value, depth + 1);
      var k := SkipWs(s, r.value.1);
      MembersHeightSnoc(out, r.value.0);
      if k < |s| && s[k] == COMMA { ReadMembersHeight(s, k + 1, depth, out + [r.value.0]); }
    }
  }

  /** Every accepted document nests at most 64 deep. */
  lemma ParsedHeight(text: string)
    ensures Parse(text).Ok? ==> Height(Parse(text).value) <= MAX_DEPTH
  {
    hide ReadValue;
    var s := Utf8.Encode(text);
    ReadValueHeight(s, SkipWs(s, 0), 0);
  }
}
