/** The lossless reader as the object it is, proved method by method to follow the
    reading functions, as the integer-only reader is. */
module JsonLiteParser {
  import opened Prelude
  import opened JsonLex
  import opened JsonLite
  import Utf8

  class Parser {
    const bytes: seq<byte>
    var pos: nat

    constructor (bytes: seq<byte>)
      ensures this.bytes == bytes && pos == 0
    {
      this.bytes := bytes;
      pos := 0;
    }

    ghost predicate Valid()
      reads this
    {
      pos <= |bytes|
    }

    function Peek(): (r: Option<byte>)
      requires Valid()
      reads this
      ensures r.Some? <==> pos < |bytes|
      ensures r.Some? ==> r.value == bytes[pos]
    {
      if pos < |bytes| then Some(bytes[pos]) else None
    }

    method Bump() returns (r: Option<byte>)
      requires Valid()
      modifies this`pos
      ensures Valid()
      ensures r == old(Peek())
      ensures pos == if r.Some? then old(pos) + 1 else old(pos)
    {
      r := Peek();
      if r.Some? { pos := pos + 1; }
    }

    method ExpectByte(want: byte) returns (r: Result<(), ParseError>)
      requires Valid()
      modifies this`pos
      ensures Valid() && old(pos) <= pos
      ensures r.Ok? ==> Expect(bytes, old(pos), want) == Ok(pos)
      ensures r.Err? ==> Expect(bytes, old(pos), want) == Err(r.error)
    {
      var b := Peek();
      match b
      case Some(b) =>
        if b == want {
          pos := pos + 1;
          return Ok(());
        }
        return Err(UnexpectedByte(pos, b));
      case None => return Err(UnexpectedEof);
    }

    method SkipWhitespace()
      requires Valid()
      modifies this`pos
      ensures Valid() && pos == SkipWs(bytes, old(pos))
    {
      while pos < |bytes| && IsWs(bytes[pos])
        invariant pos <= |bytes|
        invariant old(pos) <= pos
        invariant SkipWs(bytes, pos) == SkipWs(bytes, old(pos))
      {
        pos := pos + 1;
      }
    }

    method ParseHex4() returns (r: Result<nat, ParseError>)
      requires Valid()
      modifies this`pos
      ensures Valid() && old(pos) <= pos
      ensures Matches(r, pos, Hex4(bytes, old(pos)))
    {
      var v: nat := 0;
      for n := 0 to 4
        invariant Valid() && old(pos) <= pos
        invariant v < HexLimit(n)
        invariant HexGroup(bytes, pos, 4 - n, v) == Hex4(bytes, old(pos))
      {
        var b := Bump();
        if b.None? { return Err(UnexpectedEof); }
        match HexDigit(b.value)
        case None => return Err(InvalidEscape(pos));
        case Some(d) => v := v * 16 + d;
      }
      return Ok(v);
    }

    method ParseEscape(out: string, stringStart: nat) returns (r: Result<string, ParseError>)
      requires Valid()
      modifies this`pos
      ensures Valid() && old(pos) <= pos
      ensures var e := ReadEscape(bytes, old(pos), stringStart);
        && (e.Ok? ==> r == Ok(out + [e.value.0]) && pos == e.value.1)
        && (e.Err? ==> r == Err(e.error))
    {
      hide Hex4;
      var esc := Bump();
      if esc.None? { return Err(UnexpectedEof); }
      if esc.value == 0x75 {
        var cp :- ParseHex4();
        if 0xD800 <= cp <= 0xDBFF {
          var b := Bump();
          if b != Some(BACKSLASH) { return Err(InvalidEscape(pos)); }
          b := Bump();
          if b != Some(0x75) { return Err(InvalidEscape(pos)); }
          var low :- ParseHex4();
          if !(0xDC00 <= low <= 0xDFFF) { return Err(InvalidEscape(pos)); }
          return Ok(out + [Combined(cp, low) as char]);
        }
        if 0xDC00 <= cp <= 0xDFFF { return Err(InvalidEscape(pos)); }
        return Ok(out + [cp as char]);
      }
      match ShortEscape(esc.value)
      case Some(c) => return Ok(out + [c]);
      case None => return Err(InvalidEscape(stringStart));
    }

    method ParseString() returns (r: Result<string, ParseError>)
      requires Valid()
      modifies this`pos
      ensures Valid() && old(pos) <= pos
      ensures Matches(r, pos, ReadString(bytes, old(pos)))
    {
      hide ReadEscape, Utf8.Decode, Utf8.LeadLength;
      var start := pos;
      var _ :- ExpectByte(QUOTE);
      var out := "";
      while true
        invariant old(pos) <= pos <= |bytes|
        invariant ReadBody(bytes, start, pos, out) == ReadString(bytes, old(pos))
        decreases |bytes| - pos
      {
        var b := Peek();
        if b.None? { return Err(UnexpectedEof); }
        if b.value == QUOTE {
          pos := pos + 1;
          return Ok(out);
        } else if b.value == BACKSLASH {
          pos := pos + 1;
          out :- ParseEscape(out, start);
        } else if b.value < 0x20 {
          return Err(UnexpectedByte(pos, b.value));
        } else {
          var end := pos + Utf8.LeadLength(b.value);
          if end > |bytes| { return Err(UnexpectedEof); }
          match Utf8.Decode(bytes[pos..end])
          case None => return Err(InvalidUtf8(start));
          case Some(t) =>
            out := out + t;
            pos := end;
        }
      }
    }

    method ConsumeDigits()
      requires Valid()
      modifies this`pos
      ensures Valid() && pos == DigitsEnd(bytes, old(pos))
    {
      while pos < |bytes| && IsDigitByte(bytes[pos])
        invariant old(pos) <= pos <= |bytes|
        invariant DigitsEnd(bytes, pos) == DigitsEnd(bytes, old(pos))
      {
        pos := pos + 1;
      }
    }

    /** The integer part; false when there is none. */
    method SkipInt() returns (ok: bool)
      requires Valid()
      modifies this`pos
      ensures Valid() && old(pos) <= pos
      ensures ok == IntEnd(bytes, old(pos)).Some?
      ensures ok ==> IntEnd(bytes, old(pos)) == Some(pos)
    {
      hide DigitsEnd;
      var b := Peek();
      if b == Some(ZERO) {
        pos := pos + 1;
        return true;
      } else if b.Some? && 0x31 <= b.value <= 0x39 {
        pos := pos + 1;
        ConsumeDigits();
        return true;
      }
      return false;
    }

    /** The optional fraction; false when its point has no digit. */
    method SkipFraction() returns (ok: bool)
      requires Valid()
      modifies this`pos
      ensures Valid() && old(pos) <= pos
      ensures ok == FracEnd(bytes, old(pos)).Some?
      ensures ok ==> FracEnd(bytes, old(pos)) == Some(pos)
    {
      hide DigitsEnd;
      if Peek() == Some(DOT) {
        pos := pos + 1;
        if !DigitAt(bytes, pos) { return false; }
        ConsumeDigits();
      }
      return true;
    }

    /** The optional exponent; false when it has no digit. */
    method SkipExponent() returns (ok: bool)
      requires Valid()
      modifies this`pos
      ensures Valid() && old(pos) <= pos
      ensures ok == ExpEnd(bytes, old(pos)).Some?
      ensures ok ==> ExpEnd(bytes, old(pos)) == Some(pos)
    {
      hide DigitsEnd;
      if Peek() == Some(0x65) || Peek() == Some(0x45) {
        pos := pos + 1;
        if Peek() == Some(PLUS) || Peek() == Some(MINUS) { pos := pos + 1; }
        if !DigitAt(bytes, pos) { return false; }
        ConsumeDigits();
      }
      return true;
    }

    method ParseNumber() returns (r: Result<LiteValue, ParseError>)
      requires Valid()
      modifies this`pos
      ensures Valid() && old(pos) <= pos
      ensures Matches(r, pos, ReadNumber(bytes, old(pos)))
    {
      hide IntEnd, FracEnd, ExpEnd, Utf8.Decode;
      var start := pos;
      if Peek() == Some(MINUS) { pos := pos + 1; }
      var ok := SkipInt();
      if !ok { return Err(InvalidNumber(start)); }
      ok := SkipFraction();
      if !ok { return Err(InvalidNumber(start)); }
      ok := SkipExponent();
      if !ok { return Err(InvalidNumber(start)); }
      match Utf8.Decode(bytes[start..pos])
      case None => return Err(InvalidNumber(start));
      case Some(raw) => return Ok(Number(raw));
    }

    method ParseBool() returns (r: Result<LiteValue, ParseError>)
      requires pos < |bytes|
      modifies this`pos
      ensures Valid() && old(pos) <= pos
      ensures Matches(r, pos, ReadBool(bytes, old(pos)))
    {
      if At(bytes, pos, TRUE_WORD) {
        pos := pos + 4;
        return Ok(Bool(true));
      } else if At(bytes, pos, FALSE_WORD) {
        pos := pos + 5;
        return Ok(Bool(false));
      }
      return Err(UnexpectedByte(pos, bytes[pos]));
    }

    method ParseNull() returns (r: Result<LiteValue, ParseError>)
      requires pos < |bytes|
      modifies this`pos
      ensures Valid() && old(pos) <= pos
      ensures Matches(r, pos, ReadNull(bytes, old(pos)))
    {
      if At(bytes, pos, NULL_WORD) {
        pos := pos + 4;
        return Ok(Null);
      }
      return Err(UnexpectedByte(pos, bytes[pos]));
    }

    method ParseValue(depth: nat) returns (r: Result<LiteValue, ParseError>)
      requires Valid()
      modifies this`pos
      ensures Valid() && old(pos) <= pos
      ensures Matches(r, pos, ReadValue(bytes, old(pos), depth))
      decreases |bytes| - pos, 2
    {
      if depth > MAX_DEPTH { return Err(DepthExceeded(pos)); }
      SkipWhitespace();
      var b := Peek();
      if b.None? { return Err(UnexpectedEof); }
      if b.value == LBRACE {
        r := ParseObject(depth);
      } else if b.value == LBRACKET {
        r := ParseArray(depth);
      } else if b.value == QUOTE {
        var t :- ParseString();
        r := Ok(String(t));
      } else if b.value == 0x74 || b.value == 0x66 {
        r := ParseBool();
      } else if b.value == 0x6E {
        r := ParseNull();
      } else if IsDigitByte(b.value) || b.value == MINUS {
        r := ParseNumber();
      } else {
        r := Err(UnexpectedByte(pos, b.value));
      }
    }

    method ParseObject(depth: nat) returns (r: Result<LiteValue, ParseError>)
      requires pos < |bytes|
      modifies this`pos
      ensures Valid() && old(pos) <= pos
      ensures Matches(r, pos, ReadObject(bytes, old(pos), depth))
      decreases |bytes| - pos, 1
    {
      hide ReadMember;
      var _ :- ExpectByte(LBRACE);
      var out: seq<LiteMember> := [];
      SkipWhitespace();
      if Peek() == Some(RBRACE) {
        pos := pos + 1;
        return Ok(Object(out));
      }
      while true
        invariant Valid() && old(pos) < pos
        invariant ReadMembers(bytes, pos, depth, out) == ReadObject(bytes, old(pos), depth)
        decreases |bytes| - pos
      {
        var m :- ParseMember(depth);
        out := out + [m];
        SkipWhitespace();
        match Peek()
        case None => return Err(UnexpectedEof);
        case Some(b) =>
          if b == COMMA {
            pos := pos + 1;
          } else if b == RBRACE {
            pos := pos + 1;
            return Ok(Object(out));
          } else {
            return Err(UnexpectedByte(pos, b));
          }
      }
    }

    /** The part of the object loop that reads one key and its value. */
    method ParseMember(depth: nat) returns (r: Result<LiteMember, ParseError>)
      requires Valid()
      modifies this`pos
      ensures Valid() && old(pos) <= pos
      ensures Matches(r, pos, ReadMember(bytes, old(pos), depth))
      decreases |bytes| - pos, 3
    {
      hide ReadValue, ReadString;
      SkipWhitespace();
      var key :- ParseString();
      SkipWhitespace();
      var _ :- ExpectByte(COLON);
      var value :- ParseValue(depth + 1);
      return Ok(LiteMember(key, value));
    }

    method ParseArray(depth: nat) returns (r: Result<LiteValue, ParseError>)
      requires pos < |bytes|
      modifies this`pos
      ensures Valid() && old(pos) <= pos
      ensures Matches(r, pos, ReadArray(bytes, old(pos), depth))
      decreases |bytes| - pos, 1
    {
      hide ReadValue;
      var _ :- ExpectByte(LBRACKET);
      var out: seq<LiteValue> := [];
      SkipWhitespace();
      if Peek() == Some(RBRACKET) {
        pos := pos + 1;
        return Ok(Array(out));
      }
      while true
        invariant Valid() && old(pos) < pos
        invariant ReadItems(bytes, pos, depth, out) == ReadArray(bytes, old(pos), depth)
        decreases |bytes| - pos
      {
        var v :- ParseValue(depth + 1);
        out := out + [v];
        SkipWhitespace();
        match Peek()
        case None => return Err(UnexpectedEof);
        case Some(b) =>
          if b == COMMA {
            pos := pos + 1;
          } else if b == RBRACKET {
            pos := pos + 1;
            return Ok(Array(out));
          } else {
            return Err(UnexpectedByte(pos, b));
          }
      }
    }
  }

  method ParseDocument(input: string) returns (r: Result<LiteValue, ParseError>)
    ensures r == JsonLite.Parse(input)
  {
    var p := new Parser(Utf8.Encode(input));
    p.SkipWhitespace();
    var v :- p.ParseValue(0);
    p.SkipWhitespace();
    if p.pos != |p.bytes| { return Err(TrailingData(p.pos)); }
    return Ok(v);
  }
}
