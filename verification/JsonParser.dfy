/** The integer-only reader as the object it is: a byte string and a position that
    every method advances. Each method is proved to follow its reading function, so
    the position only moves forward, stays inside the input, and every recursive
    call decreases (bytes left, rank of the method). */
module JsonParser {
  import opened Prelude
  import opened JsonLex
  import opened Json
  import Utf8
  import Decimal

  class Parser {
    const bytes: seq<byte>
    var pos: nat

    constructor (bytes: seq<byte>)
      ensures this.bytes == bytes && pos == 0
    {
      this.bytes := bytes;
      pos := 0;
    }

    ghost predicate Valid()
      reads this
    {
      pos <= |bytes|
    }

    function Peek(): (r: Option<byte>)
      requires Valid()
      reads this
      ensures r.Some? <==> pos < |bytes|
      ensures r.Some? ==> r.value == bytes[pos]
    {
      if pos < |bytes| then Some(bytes[pos]) else None
    }

    method Bump() returns (r: Option<byte>)
      requires Valid()
      modifies this`pos
      ensures Valid()
      ensures r == old(Peek())
      ensures pos == if r.Some? then old(pos) + 1 else old(pos)
    {
      r := Peek();
      if r.Some? { pos := pos + 1; }
    }

    method ExpectByte(want: byte) returns (r: Result<(), ParseError>)
      requires Valid()
      modifies this`pos
      ensures Valid() && old(pos) <= pos
      ensures r.Ok? ==> Expect(bytes, old(pos), want) == Ok(pos)
      ensures r.Err? ==> Expect(bytes, old(pos), want) == Err(r.error)
    {
      var b := Peek();
      match b
      case Some(b) =>
        if b == want {
          pos := pos + 1;
          return Ok(());
        }
        return Err(UnexpectedByte(pos, b));
      case None => return Err(UnexpectedEof);
    }

    method SkipWhitespace()
      requires Valid()
      modifies this`pos
      ensures Valid() && pos == SkipWs(bytes, old(pos))
    {
      while pos < |bytes| && IsWs(bytes[pos])
        invariant pos <= |bytes|
        invariant old(pos) <= pos
        invariant SkipWs(bytes, pos) == SkipWs(bytes, old(pos))
      {
        pos := pos + 1;
      }
    }

    method ParseHex4() returns (r: Result<nat, ParseError>)
      requires Valid()
      modifies this`pos
      ensures Valid() && old(pos) <= pos
      ensures Matches(r, pos, Hex4(bytes, old(pos)))
    {
      hide HexDigit;
      var v: nat := 0;
      for n := 0 to 4
        invariant Valid() && old(pos) <= pos
        invariant v < HexLimit(n)
        invariant HexGroup(bytes, pos, 4 - n, v) == Hex4(bytes, old(pos))
      {
        var b := Bump();
        if b.None? { return Err(UnexpectedEof); }
        match HexDigit(b.value)
        case None => return Err(InvalidEscape(pos));
        case Some(d) => v := v * 16 + d;
      }
      return Ok(v);
    }

    method ParseEscape(out: string) returns (r: Result<string, ParseError>)
      requires Valid()
      modifies this`pos
      ensures Valid() && old(pos) <= pos
      ensures ReadEscape(bytes, old(pos)).Ok? ==>
                r == Ok(out + [ReadEscape(bytes, old(pos)).value.0]) && pos == ReadEscape(bytes, old(pos)).value.1
      ensures ReadEscape(bytes, old(pos)).Err? ==> r == Err(ReadEscape(bytes, old(pos)).error)
    {
      var esc := Bump();
      if esc.None? { return Err(UnexpectedEof); }
      if esc.value == 0x75 {
        var cp :- ParseHex4();
        if IsSurrogate(cp) { return Err(InvalidEscape(pos)); }
        return Ok(out + [cp as char]);
      }
      match ShortEscape(esc.value)
      case Some(c) => return Ok(out + [c]);
      case None => return Err(InvalidEscape(pos));
    }

    method ParseString() returns (r: Result<string, ParseError>)
      requires Valid()
      modifies this`pos
      ensures Valid() && old(pos) <= pos
      ensures Matches(r, pos, ReadString(bytes, old(pos)))
    {
      hide ReadEscape, Utf8.Decode;
      var _ :- ExpectByte(QUOTE);
      var start := pos;
      var out := "";
      var hasEscape := false;
      while true
        invariant start <= pos <= |bytes|
        invariant old(pos) <= pos
        invariant ReadBody(bytes, start, pos, hasEscape, out) == ReadString(bytes, old(pos))
        decreases |bytes| - pos
      {
        var b := Peek();
        if b.None? { return Err(UnexpectedEof); }
        if b.value == QUOTE {
          if !hasEscape {
            match Utf8.Decode(bytes[start..pos])
            case None => return Err(InvalidUtf8(start));
            case Some(t) => out := out + t;
          }
          pos := pos + 1;
          return Ok(out);
        }
        if b.value == BACKSLASH {
          if !hasEscape {
            match Utf8.Decode(bytes[start..pos])
            case None => return Err(InvalidUtf8(start));
            case Some(t) => out := out + t;
            hasEscape := true;
          }
          pos := pos + 1;
          out :- ParseEscape(out);
          continue;
        }
        if b.value < 0x20 { return Err(UnexpectedByte(pos, b.value)); }
        if hasEscape { out := out + [b.value as char]; }
        pos := pos + 1;
      }
    }

    method ParseNumber() returns (r: Result<JsonValue, ParseError>)
      requires pos < |bytes| && (IsDigitByte(bytes[pos]) || bytes[pos] == MINUS)
      modifies this`pos
      ensures Valid() && old(pos) <= pos
      ensures Matches(r, pos, ReadNumber(bytes, old(pos)))
    {
      var start := pos;
      if Peek() == Some(MINUS) { pos := pos + 1; }
      var digitsStart := pos;
      while pos < |bytes| && IsDigitByte(bytes[pos])
        invariant digitsStart <= pos <= |bytes|
        invariant DigitsEnd(bytes, pos) == DigitsEnd(bytes, digitsStart)
      {
        pos := pos + 1;
      }
      var digits := bytes[digitsStart..pos];
      if digits == [] { return Err(InvalidNumber(start)); }
      if |digits| > 1 && digits[0] == ZERO { return Err(InvalidNumber(start)); }
      match Utf8.Decode(bytes[start..pos])
      case None => return Err(InvalidNumber(start));
      case Some(text) =>
        match Decimal.ParseI64(text)
        case None => return Err(NumberOutOfRange(start));
        case Some(n) => return Ok(Number(n));
    }

    method ParseBool() returns (r: Result<JsonValue, ParseError>)
      requires pos < |bytes|
      modifies this`pos
      ensures Valid() && old(pos) <= pos
      ensures Matches(r, pos, ReadBool(bytes, old(pos)))
    {
      if At(bytes, pos, TRUE_WORD) {
        pos := pos + 4;
        return Ok(Bool(true));
      } else if At(bytes, pos, FALSE_WORD) {
        pos := pos + 5;
        return Ok(Bool(false));
      }
      return Err(UnexpectedByte(pos, bytes[pos]));
    }

    method ParseNull() returns (r: Result<JsonValue, ParseError>)
      requires pos < |bytes|
      modifies this`pos
      ensures Valid() && old(pos) <= pos
      ensures Matches(r, pos, ReadNull(bytes, old(pos)))
    {
      if At(bytes, pos, NULL_WORD) {
        pos := pos + 4;
        return Ok(Null);
      }
      return Err(UnexpectedByte(pos, bytes[pos]));
    }

    method ParseValue(depth: nat) returns (r: Result<JsonValue, ParseError>)
      requires Valid()
      modifies this`pos
      ensures Valid() && old(pos) <= pos
      ensures Matches(r, pos, ReadValue(bytes, old(pos), depth))
      decreases |bytes| - pos, 2
    {
      if depth > MAX_DEPTH { return Err(DepthExceeded(pos)); }
      SkipWhitespace();
      var b := Peek();
      if b.None? { return Err(UnexpectedEof); }
      if b.value == LBRACE {
        r := ParseObject(depth);
      } else if b.value == LBRACKET {
        r := ParseArray(depth);
      } else if b.value == QUOTE {
        var t :- ParseString();
        r := Ok(String(t));
      } else if b.value == 0x74 || b.value == 0x66 {
        r := ParseBool();
      } else if b.value == 0x6E {
        r := ParseNull();
      } else if IsDigitByte(b.value) || b.value == MINUS {
        r := ParseNumber();
      } else {
        r := Err(UnexpectedByte(pos, b.value));
      }
    }

    method ParseObject(depth: nat) returns (r: Result<JsonValue, ParseError>)
      requires pos < |bytes|
      modifies this`pos
      ensures Valid() && old(pos) <= pos
      ensures Matches(r, pos, ReadObject(bytes, old(pos), depth))
      decreases |bytes| - pos, 1
    {
      hide ReadMember;
      var _ :- ExpectByte(LBRACE);
      var out: seq<Member> := [];
      SkipWhitespace();
      if Peek() == Some(RBRACE) {
        pos := pos + 1;
        return Ok(Object(out));
      }
      while true
        invariant Valid() && old(pos) < pos
        invariant ReadMembers(bytes, pos, depth, out) == ReadObject(bytes, old(pos), depth)
        decreases |bytes| - pos
      {
        var m :- ParseMember(depth, out);
        out := out + [m];
        SkipWhitespace();
        match Peek()
        case None => return Err(UnexpectedEof);
        case Some(b) =>
          if b == COMMA {
            pos := pos + 1;
          } else if b == RBRACE {
            pos := pos + 1;
            return Ok(Object(out));
          } else {
            return Err(UnexpectedByte(pos, b));
          }
      }
    }

    /** The part of the object loop that reads one key and its value. */
    method ParseMember(depth: nat, out: seq<Member>) returns (r: Result<Member, ParseError>)
      requires Valid()
      modifies this`pos
      ensures Valid() && old(pos) <= pos
      ensures Matches(r, pos, ReadMember(bytes, old(pos), depth, out))
      decreases |bytes| - pos, 3
    {
      hide ReadValue, ReadString;
      SkipWhitespace();
      var keyPos := pos;
      var key :- ParseString();
      if HasKey(out, key) { return Err(DuplicateKey(keyPos, key)); }
      SkipWhitespace();
      var _ :- ExpectByte(COLON);
      var value :- ParseValue(depth + 1);
      return Ok(Member(key, value));
    }

    method ParseArray(depth: nat) returns (r: Result<JsonValue, ParseError>)
      requires pos < |bytes|
      modifies this`pos
      ensures Valid() && old(pos) <= pos
      ensures Matches(r, pos, ReadArray(bytes, old(pos), depth))
      decreases |bytes| - pos, 1
    {
      hide ReadValue;
      var _ :- ExpectByte(LBRACKET);
      var out: seq<JsonValue> := [];
      SkipWhitespace();
      if Peek() == Some(RBRACKET) {
        pos := pos + 1;
        return Ok(Array(out));
      }
      while true
        invariant Valid() && old(pos) < pos
        invariant ReadItems(bytes, pos, depth, out) == ReadArray(bytes, old(pos), depth)
        decreases |bytes| - pos
      {
        var v :- ParseValue(depth + 1);
        out := out + [v];
        SkipWhitespace();
        match Peek()
        case None => return Err(UnexpectedEof);
        case Some(b) =>
          if b == COMMA {
            pos := pos + 1;
          } else if b == RBRACKET {
            pos := pos + 1;
            return Ok(Array(out));
          } else {
            return Err(UnexpectedByte(pos, b));
          }
      }
    }
  }

  method ParseDocument(input: string) returns (r: Result<JsonValue, ParseError>)
    ensures r == Json.Parse(input)
  {
    var p := new Parser(Utf8.Encode(input));
    p.SkipWhitespace();
    var v :- p.ParseValue(0);
    p.SkipWhitespace();
    if p.pos != |p.bytes| { return Err(TrailingData(p.pos)); }
    return Ok(v);
  }
}
