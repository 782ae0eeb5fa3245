/** String literals of the integer-only reader against section 7 of RFC 8259: a literal
    is accepted exactly when no scalar is spelled as a surrogate pair, and it is heard as
    its scalars, except that behind the first escape a raw scalar is heard as the Latin-1
    characters of its UTF-8 bytes. */
module JsonStrings {
  import opened Prelude
  import opened JsonLex
  import opened Json
  import opened LiteStrings
  import R = JsonRoundTrip
  import Utf8

  /** What the reader makes of one piece. */
  function Sound(p: Piece, escaped: bool): string {
    if p.how.Raw? && escaped then Utf8.Latin1(Utf8.EncodeChar(p.c)) else [p.c]
  }

  function Heard(ps: seq<Piece>, escaped: bool): string {
    if ps == [] then [] else Sound(ps[0], escaped) + Heard(ps[1..], escaped || !ps[0].how.Raw?)
  }

  predicate NoPairs(ps: seq<Piece>) {
    forall k :: 0 <= k < |ps| ==> !ps[k].how.Pair?
  }

  lemma HeardCons(p: Piece, rest: seq<Piece>, escaped: bool)
    ensures Heard([p] + rest, escaped) == Sound(p, escaped) + Heard(rest, escaped || !p.how.Raw?)
  {
    hide Sound;
    assert ([p] + rest)[1..] == rest;
  }

  // ----- what the loop holds

  /** `text` is what has been read of the string so far. */
  predicate Holds(s: seq<byte>, start: nat, i: nat, escaped: bool, out: string, text: string)
    requires start <= i <= |s|
  {
    if escaped then out == text else out == "" && s[start..i] == Utf8.Encode(text)
  }

  lemma FlushedText(s: seq<byte>, start: nat, i: nat, escaped: bool, out: string, text: string)
    requires start <= i <= |s| && Holds(s, start, i, escaped, out, text)
    ensures Flushed(s, start, i, escaped, out) == Ok(text)
  {
    hide Utf8.Decode, Utf8.Encode;
    Utf8.DecodeEncode(text);
    assert "" + text == text;
  }

  lemma QuoteEnds(s: seq<byte>, start: nat, i: nat, escaped: bool, out: string, text: string)
    requires start <= i < |s| && s[i] == QUOTE && Holds(s, start, i, escaped, out, text)
    ensures ReadBody(s, start, i, escaped, out) == Ok((text, i + 1))
  {
    hide Flushed, Holds;
    FlushedText(s, start, i, escaped, out, text);
  }

  lemma EscapeStep(s: seq<byte>, start: nat, i: nat, escaped: bool, out: string, text: string)
    requires start <= i < |s| && s[i] == BACKSLASH && Holds(s, start, i, escaped, out, text)
    ensures ReadEscape(s, i + 1).Err? ==> ReadBody(s, start, i, escaped, out) == Err(ReadEscape(s, i + 1).error)
    ensures ReadEscape(s, i + 1).Ok? ==>
      var (c, next) := ReadEscape(s, i + 1).value;
      ReadBody(s, start, i, escaped, out) == ReadBody(s, start, next, true, text + [c])
  {
    hide Flushed, ReadEscape, Holds;
    FlushedText(s, start, i, escaped, out, text);
  }

  /** The bytes of a raw scalar are passed one by one. */
  lemma RawStep(s: seq<byte>, start: nat, i: nat, escaped: bool, out: string, text: string, c: char)
    requires start <= i && At(s, i, Utf8.EncodeChar(c)) && c as int >= 0x20 && c != '"' && c != '\\'
    requires i <= |s| && Holds(s, start, i, escaped, out, text)
    ensures var n := |Utf8.EncodeChar(c)|; var more := if escaped then out + Utf8.Latin1(Utf8.EncodeChar(c)) else out;
      && i + n <= |s|
      && ReadBody(s, start, i, escaped, out) == ReadBody(s, start, i + n, escaped, more)
      && Holds(s, start, i + n, escaped, more, text + Sound(Piece(c, Raw), escaped))
  {
    hide Utf8.Encode, ReadBody;
    var g := Utf8.EncodeChar(c);
    var n := |g|;
    assert s[i..i + n] == g;
    RawBytes(s, i, c);
    hide Utf8.EncodeChar;
    R.RawSkip(s, start, i, escaped, out, n);
    if !escaped {
      Slices(s, start, i, i + n);
      EncodeSnoc(text, c);
      assert s[start..i + n] == Utf8.Encode(text + [c]);
    }
  }

  lemma Slices(s: seq<byte>, a: nat, b: nat, c: nat)
    requires a <= b <= c <= |s|
    ensures s[a..c] == s[a..b] + s[b..c]
  {
  }

  lemma EncodeSnoc(t: string, c: char)
    ensures Utf8.Encode(t + [c]) == Utf8.Encode(t) + Utf8.EncodeChar(c)
  {
    hide Utf8.Encode, Utf8.EncodeChar;
    Utf8.EncodeConcat(t, [c]);
    Utf8.EncodeOne(c);
  }

  lemma RawBytes(s: seq<byte>, i: nat, c: char)
    requires At(s, i, Utf8.EncodeChar(c)) && c as int >= 0x20 && c != '"' && c != '\\'
    ensures forall k :: i <= k < i + |Utf8.EncodeChar(c)| ==> R.IsRawByte(s[k])
  {
    forall k | i <= k < i + |Utf8.EncodeChar(c)| ensures R.IsRawByte(s[k]) {
      AtIndex(s, i, Utf8.EncodeChar(c), k - i);
    }
  }

  // ----- every literal is heard

  lemma HexHeard(s: seq<byte>, i: nat, d: seq<byte>)
    requires At(s, i, HexEscape(d)) && HexValue(d).Some?
    ensures i + 6 <= |s| && s[i] == BACKSLASH
    ensures ReadEscape(s, i + 1) ==
      if IsSurrogate(HexValue(d).value) then Err(InvalidEscape(i + 6)) else Ok((HexValue(d).value as char, i + 6))
  {
    hide HexValue, Hex4, HexEscape, At;
    ReadHexAt(s, i, d);
  }

  lemma ShortHeard(s: seq<byte>, i: nat, letter: byte, c: char)
    requires At(s, i, [BACKSLASH, letter]) && ShortEscape(letter) == Some(c)
    ensures i + 2 <= |s| && s[i] == BACKSLASH && ReadEscape(s, i + 1) == Ok((c, i + 2))
  {
    AtIndex(s, i, [BACKSLASH, letter], 0);
    AtIndex(s, i, [BACKSLASH, letter], 1);
  }

  lemma {:induction false} BodyHeard(s: seq<byte>, start: nat, i: nat, escaped: bool, out: string, text: string, ps: seq<Piece>)
    requires start <= i <= |s| && Holds(s, start, i, escaped, out, text)
    requires AllRead(ps) && At(s, i, Spelled(ps) + [QUOTE])
    ensures NoPairs(ps) ==> ReadBody(s, start, i, escaped, out) == Ok((text + Heard(ps, escaped), i + |Spelled(ps)| + 1))
    ensures !NoPairs(ps) ==> ReadBody(s, start, i, escaped, out).Err?
    decreases |ps|
  {
    hide ReadBody, ReadEscape, At, Holds, Sound, Piece.Bytes, Piece.Reads;
    AtSplit(s, i, Spelled(ps), [QUOTE]);
    if ps == [] {
      AtLength(s, i, [QUOTE]);
      AtIndex(s, i, [QUOTE], 0);
      QuoteEnds(s, start, i, escaped, out, text);
      assert text + "" == text;
    } else {
      var p, rest := ps[0], ps[1..];
      AtSplit(s, i, p.Bytes(), Spelled(rest));
      AtSplit(s, i + |p.Bytes()|, Spelled(rest), [QUOTE]);
      assert NoPairs(ps) <==> !p.how.Pair? && NoPairs(rest) by {
        assert forall k :: 1 <= k < |ps| ==> ps[k] == rest[k - 1];
      }
      PieceHeard(s, start, i, escaped, out, text, p);
      if !p.how.Pair? {
        var next := i + |p.Bytes()|;
        var more := After(escaped, out, text, p);
        BodyHeard(s, start, next, escaped || !p.how.Raw?, more, text + Sound(p, escaped), rest);
        assert text + Sound(p, escaped) + Heard(rest, escaped || !p.how.Raw?) == text + Heard(ps, escaped);
      }
    }
  }

  /** The loop's buffer behind a piece. */
  function After(escaped: bool, out: string, text: string, p: Piece): string {
    if !p.how.Raw? then text + [p.c] else if escaped then out + Sound(p, escaped) else out
  }

  lemma PieceHeard(s: seq<byte>, start: nat, i: nat, escaped: bool, out: string, text: string, p: Piece)
    requires start <= i <= |s| && Holds(s, start, i, escaped, out, text)
    requires p.Reads() && At(s, i, p.Bytes())
    ensures p.how.Pair? ==> ReadBody(s, start, i, escaped, out).Err?
    ensures !p.how.Pair? ==> var next := i + |p.Bytes()|; var more := After(escaped, out, text, p);
      && next <= |s|
      && ReadBody(s, start, i, escaped, out) == ReadBody(s, start, next, escaped || !p.how.Raw?, more)
      && Holds(s, start, next, escaped || !p.how.Raw?, more, text + Sound(p, escaped))
  {
    hide ReadBody, ReadEscape, HexValue, At, Utf8.EncodeChar;
    match p.how
    case Raw => RawStep(s, start, i, escaped, out, text, p.c);
    case Short(letter) =>
      ShortHeard(s, i, letter, p.c);
      EscapeStep(s, start, i, escaped, out, text);
    case Hex(d) =>
      assert |HexEscape(d)| == 2 + |d|;
      HexLength(d);
      HexHeard(s, i, d);
      EscapeStep(s, start, i, escaped, out, text);
    case Pair(high, low) =>
      AtSplit(s, i, HexEscape(high), HexEscape(low));
      HexHeard(s, i, high);
      EscapeStep(s, start, i, escaped, out, text);
  }

  /** How the integer-only reader takes any literal of the grammar. */
  lemma ReadLiteral(s: seq<byte>, i: nat, ps: seq<Piece>)
    requires AllValid(ps) && At(s, i, Literal(ps))
    ensures i <= |s|
    ensures NoPairs(ps) ==> ReadString(s, i) == Ok((Heard(ps, false), i + |Literal(ps)|))
    ensures !NoPairs(ps) ==> ReadString(s, i).Err?
  {
    hide ReadBody, Spelled, AllValid, AllRead, NoPairs, Heard;
    AllValidIff(ps);
    AtSplit(s, i, [QUOTE], Spelled(ps) + [QUOTE]);
    AtIndex(s, i, [QUOTE], 0);
    assert s[i + 1..i + 1] == Utf8.Encode("");
    BodyHeard(s, i + 1, i + 1, false, "", "", ps);
    assert "" + Heard(ps, false) == Heard(ps, false);
  }

  // ----- whatever is accepted is a literal

  /** The rest of the bytes from `i` on is a text. */
  ghost predicate TextFrom(s: seq<byte>, i: nat) {
    i <= |s| && Utf8.Decode(s[i..]).Some?
  }

  lemma FirstScalar(s: seq<byte>, i: nat) returns (c: char)
    requires TextFrom(s, i) && i < |s|
    ensures At(s, i, Utf8.EncodeChar(c)) && TextFrom(s, i + |Utf8.EncodeChar(c)|)
    ensures s[i] < 0x80 <==> c as int < 0x80
    ensures c as int < 0x80 ==> s[i] == c as int && |Utf8.EncodeChar(c)| == 1
  {
    hide Utf8.Encode, Utf8.Decode;
    var u := Utf8.Decode(s[i..]).value;
    Utf8.EncodeDecode(s[i..]);
    Utf8.DecodeSplit(s[i..]);
    c := u[0];
    EncodeUnfolds(u);
    var g := Utf8.EncodeChar(c);
    assert s[i..] == g + Utf8.Encode(u[1..]);
    assert s[i + |g|..] == Utf8.Encode(u[1..]);
    assert s[i..i + |g|] == g;
    assert s[i] == g[0];
    Utf8.DecodeEncode(u[1..]);
  }

  lemma EncodeUnfolds(u: string)
    requires u != []
    ensures Utf8.Encode(u) == Utf8.EncodeChar(u[0]) + Utf8.Encode(u[1..])
  {
  }

  lemma {:induction false} PastAscii(s: seq<byte>, i: nat, n: nat)
    requires TextFrom(s, i) && i + n <= |s| && forall k :: i <= k < i + n ==> s[k] < 0x80
    ensures TextFrom(s, i + n)
    decreases n
  {
    hide TextFrom;
    if n > 0 {
      hide Utf8.EncodeChar;
      var c := FirstScalar(s, i);
      PastAscii(s, i + 1, n - 1);
    }
  }

  lemma HexOfEscape(s: seq<byte>, i: nat)
    requires i + 1 < |s| && s[i] == BACKSLASH && s[i + 1] == 0x75 && Hex4(s, i + 2).Ok?
    ensures i + 6 <= |s| && forall k :: i <= k < i + 6 ==> s[k] < 0x80
  {
    HexBytes(s, i + 2, 4, 0);
  }

  lemma {:induction false} HexBytes(s: seq<byte>, i: nat, k: nat, v: nat)
    requires i <= |s| && k <= 4 && v < HexLimit(4 - k) && HexGroup(s, i, k, v).Ok?
    ensures i + k <= |s| && forall n :: i <= n < i + k ==> s[n] < 0x80
    decreases k
  {
    if k > 0 {
      HexBytes(s, i + 1, k - 1, v * 16 + HexDigit(s[i]).value);
    }
  }

  /** An accepted escape as a piece of the grammar. */
  lemma EscapeHeard(s: seq<byte>, i: nat) returns (p: Piece)
    requires i < |s| && s[i] == BACKSLASH && ReadEscape(s, i + 1).Ok?
    ensures p.Reads() && (p.how.Short? || p.how.Hex?) && At(s, i, p.Bytes())
    ensures ReadEscape(s, i + 1) == Ok((p.c, i + |p.Bytes()|))
    ensures forall k :: i <= k < i + |p.Bytes()| ==> s[k] < 0x80
  {
    hide Hex4, HexValue, At;
    var (c, j) := ReadEscape(s, i + 1).value;
    if s[i + 1] == 0x75 {
      HexSlice(s, i);
      HexOfEscape(s, i);
      p := Piece(c, Hex(s[i + 2..i + 6]));
    } else {
      p := Piece(c, Short(s[i + 1]));
      SliceOf(s, i, p.Bytes());
      ShortIsAscii(s[i + 1]);
    }
  }

  lemma ShortIsAscii(letter: byte)
    requires ShortEscape(letter).Some?
    ensures letter < 0x80
  {
  }

  lemma {:induction false} BodyDerived(s: seq<byte>, start: nat, i: nat, escaped: bool, out: string, text: string) returns (ps: seq<Piece>)
    requires start <= i <= |s| && Holds(s, start, i, escaped, out, text) && TextFrom(s, i)
    requires ReadBody(s, start, i, escaped, out).Ok?
    ensures AllRead(ps) && NoPairs(ps) && At(s, i, Spelled(ps) + [QUOTE])
    ensures ReadBody(s, start, i, escaped, out) == Ok((text + Heard(ps, escaped), i + |Spelled(ps)| + 1))
    ensures TextFrom(s, i + |Spelled(ps)| + 1)
    decreases |s| - i
  {
    hide ReadEscape, At, Holds, Sound, Heard, Flushed, TextFrom, Piece.Bytes, Piece.Reads, Utf8.EncodeChar, Utf8.Decode;
    if s[i] == QUOTE {
      ps := [];
      QuoteEnds(s, start, i, escaped, out, text);
      NothingHeard(s, i, text, escaped);
      PastAscii(s, i, 1);
    } else {
      var p: Piece;
      if s[i] == BACKSLASH {
        EscapeStep(s, start, i, escaped, out, text);
        p := EscapeHeard(s, i);
        AtLength(s, i, p.Bytes());
        PastAscii(s, i, |p.Bytes()|);
      } else {
        var c := FirstScalar(s, i);
        p := Piece(c, Raw);
        RawPiece(p);
      }
      PieceHeard(s, start, i, escaped, out, text, p);
      PieceBytes(p);
      var more := After(escaped, out, text, p);
      var rest := BodyDerived(s, start, i + |p.Bytes()|, escaped || !p.how.Raw?, more, text + Sound(p, escaped));
      ps := [p] + rest;
      PiecesCons(p, rest);
      HeardCons(p, rest, escaped);
      Cons(s, i, p, rest);
      assert text + Sound(p, escaped) + Heard(rest, escaped || !p.how.Raw?) == text + Heard(ps, escaped);
    }
  }

  lemma NothingHeard(s: seq<byte>, i: nat, text: string, escaped: bool)
    requires i < |s| && s[i] == QUOTE
    ensures At(s, i, Spelled([]) + [QUOTE]) && text + Heard([], escaped) == text
  {
    assert [] + [QUOTE] == [QUOTE] && s[i..i + 1] == [s[i]];
  }

  lemma AtLength(s: seq<byte>, i: nat, t: seq<byte>)
    requires At(s, i, t)
    ensures i + |t| <= |s|
  {
  }

  lemma RawPiece(p: Piece)
    requires p.how.Raw?
    ensures p.Bytes() == Utf8.EncodeChar(p.c)
    ensures p.c as int >= 0x20 && p.c != '"' && p.c != '\\' ==> p.Reads()
  {
    hide Utf8.EncodeChar;
  }

  lemma PieceBytes(p: Piece)
    ensures p.Bytes() != []
  {
  }

  lemma Cons(s: seq<byte>, i: nat, p: Piece, rest: seq<Piece>)
    requires p.Reads() && !p.how.Pair? && AllRead(rest) && NoPairs(rest)
    requires At(s, i, p.Bytes()) && At(s, i + |p.Bytes()|, Spelled(rest) + [QUOTE])
    ensures AllRead([p] + rest) && NoPairs([p] + rest) && At(s, i, Spelled([p] + rest) + [QUOTE])
  {
    hide Piece.Bytes, Piece.Reads, At;
    PiecesCons(p, rest);
    AtSplit(s, i, p.Bytes(), Spelled(rest) + [QUOTE]);
    Regroup(p.Bytes(), Spelled(rest), [QUOTE], [], [], []);
  }

  /** The slice from `i` to `j` is a literal without surrogate pairs, heard as `t`. */
  ghost predicate IsHeard(s: seq<byte>, i: nat, j: nat, t: string) {
    exists ps :: AllValid(ps) && NoPairs(ps) && Heard(ps, false) == t && At(s, i, Literal(ps)) && j == i + |Literal(ps)|
  }

  /** Where a text stands, a string is read, as `t` and up to `j`, exactly when it is a
      literal without surrogate pairs that is heard as `t`. */
  lemma ReadStringHeard(s: seq<byte>, i: nat, t: string, j: nat)
    requires TextFrom(s, i)
    ensures ReadString(s, i) == Ok((t, j)) <==> IsHeard(s, i, j, t)
    ensures ReadString(s, i) == Ok((t, j)) ==> TextFrom(s, j)
  {
    hide ReadBody, Spelled, Heard, NoPairs, AllRead, AllValid, Utf8.Decode;
    if ReadString(s, i) == Ok((t, j)) {
      PastAscii(s, i, 1);
      assert s[i + 1..i + 1] == Utf8.Encode("");
      var ps := BodyDerived(s, i + 1, i + 1, false, "", "");
      AllValidIff(ps);
      assert "" + Heard(ps, false) == Heard(ps, false);
      SliceOf(s, i, [QUOTE]);
      AtSplit(s, i, [QUOTE], Spelled(ps) + [QUOTE]);
      assert IsHeard(s, i, j, t);
    }
    if IsHeard(s, i, j, t) {
      var ps :| AllValid(ps) && NoPairs(ps) && Heard(ps, false) == t && At(s, i, Literal(ps)) && j == i + |Literal(ps)|;
      ReadLiteral(s, i, ps);
    }
  }

  /** A literal whose raw scalars behind the first escape are ASCII is heard as the
      lossless reader reads it. */
  lemma {:induction false} HeardIsScalars(ps: seq<Piece>, escaped: bool)
    requires forall k :: 0 <= k < |ps| && ps[k].how.Raw? ==> ps[k].c as int < 0x80
    ensures Heard(ps, escaped) == Scalars(ps)
  {
    if ps != [] {
      var p := ps[0];
      assert forall k :: 0 <= k < |ps[1..]| ==> ps[1..][k] == ps[k + 1];
      HeardIsScalars(ps[1..], escaped || !p.how.Raw?);
      if p.how.Raw? { assert Utf8.Latin1([p.c as int]) == [p.c]; }
    }
  }
}
