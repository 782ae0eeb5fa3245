/** The lossless JSON reader: the full grammar of RFC 8259, numbers kept as their
    source text. Values, accessors and the reading of a byte string at an index. */
module JsonLite {
  import opened Prelude
  import opened JsonLex
  import Utf8

  datatype LiteValue =
    | Null
    | Bool(b: bool)
    | Number(raw: string)
    | String(s: string)
    | Array(items: seq<LiteValue>)
    | Object(members: seq<LiteMember>)

  datatype LiteMember = LiteMember(key: string, value: LiteValue)

  // ----- strings

  /** The scalar whose UTF-16 form is the surrogate pair. */
  function Combined(high: int, low: int): (r: int)
    requires 0xD800 <= high <= 0xDBFF && 0xDC00 <= low <= 0xDFFF
    ensures 0x1_0000 <= r < 0x11_0000 && Utf8.IsScalar(r)
    ensures high == 0xD800 + (r - 0x1_0000) / 0x400 && low == 0xDC00 + (r - 0x1_0000) % 0x400
  {
    0x1_0000 + (high - 0xD800) * 0x400 + (low - 0xDC00)
  }

  /** What must follow a high surrogate: a second escape with a low surrogate. */
  function ReadLowSurrogate(s: seq<byte>, i: nat): (r: Reading<nat>)
    requires i <= |s|
    ensures r.Ok? ==> i < r.value.1 <= |s| && 0xDC00 <= r.value.0 <= 0xDFFF
  {
    if i == |s| then Err(InvalidEscape(i))
    else if s[i] != BACKSLASH then Err(InvalidEscape(i + 1))
    else if i + 1 == |s| then Err(InvalidEscape(i + 1))
    else if s[i + 1] != 0x75 then Err(InvalidEscape(i + 2))
    else
      var (low, j) :- Hex4(s, i + 2);
      if 0xDC00 <= low <= 0xDFFF then Ok((low, j)) else Err(InvalidEscape(j))
  }

  function ReadEscape(s: seq<byte>, i: nat, stringStart: nat): (r: Reading<char>)
    requires i <= |s|
    ensures r.Ok? ==> i < r.value.1 <= |s|
  {
    if i == |s| then Err(UnexpectedEof)
    else if s[i] == 0x75 then
      var (cp, j) :- Hex4(s, i + 1);
      if 0xD800 <= cp <= 0xDBFF then
        var (low, k) :- ReadLowSurrogate(s, j);
        Ok((Combined(cp, low) as char, k))
      else if 0xDC00 <= cp <= 0xDFFF then Err(InvalidEscape(j))
      else Ok((cp as char, j))
    else
      match ShortEscape(s[i])
      case Some(c) => Ok((c, i + 1))
      case None => Err(InvalidEscape(stringStart))
  }

  /** One unescaped scalar: as many bytes as its lead byte announces. */
  function ReadRaw(s: seq<byte>, i: nat, stringStart: nat): (r: Reading<string>)
    requires i < |s|
    ensures r.Ok? ==> i < r.value.1 <= |s|
  {
    var end := i + Utf8.LeadLength(s[i]);
    if end > |s| then Err(UnexpectedEof)
    else
      match Utf8.Decode(s[i..end])
      case None => Err(InvalidUtf8(stringStart))
      case Some(t) => Ok((t, end))
  }

  /** The rest of a string body from `pos`, after the text `out`. */
  function ReadBody(s: seq<byte>, stringStart: nat, pos: nat, out: string): (r: Reading<string>)
    requires pos <= |s|
    ensures r.Ok? ==> pos < r.value.1 <= |s|
    decreases |s| - pos
  {
    if pos == |s| then Err(UnexpectedEof)
    else if s[pos] == QUOTE then Ok((out, pos + 1))
    else if s[pos] == BACKSLASH then
      var (c, next) :- ReadEscape(s, pos + 1, stringStart);
      ReadBody(s, stringStart, next, out + [c])
    else if s[pos] < 0x20 then Err(UnexpectedByte(pos, s[pos]))
    else
      var (t, next) :- ReadRaw(s, pos, stringStart);
      ReadBody(s, stringStart, next, out + t)
  }

  function ReadString(s: seq<byte>, i: nat): (r: Reading<string>)
    requires i <= |s|
    ensures r.Ok? ==> i < r.value.1 <= |s|
  {
    var j :- Expect(s, i, QUOTE);
    ReadBody(s, i, j, "")
  }

  // ----- numbers and words

  predicate DigitAt(s: seq<byte>, i: nat) {
    i < |s| && IsDigitByte(s[i])
  }

  /** End of the integer part that starts at `i`: `0` alone, or digits from 1..9. */
  function IntEnd(s: seq<byte>, i: nat): (r: Option<nat>)
    ensures r.Some? ==> i < r.value <= |s|
  {
    if !DigitAt(s, i) then None
    else if s[i] == ZERO then Some(i + 1)
    else Some(DigitsEnd(s, i + 1))
  }

  /** End of the optional fraction at `i`; none when a point has no digit after it. */
  function FracEnd(s: seq<byte>, i: nat): (r: Option<nat>)
    requires i <= |s|
    ensures r.Some? ==> i <= r.value <= |s|
  {
    if i < |s| && s[i] == DOT then
      if DigitAt(s, i + 1) then Some(DigitsEnd(s, i + 1)) else None
    else Some(i)
  }

  /** End of the optional exponent at `i`; none when it has no digit. */
  function ExpEnd(s: seq<byte>, i: nat): (r: Option<nat>)
    requires i <= |s|
    ensures r.Some? ==> i <= r.value <= |s|
  {
    if i < |s| && (s[i] == 0x65 || s[i] == 0x45) then
      var j := if i + 1 < |s| && (s[i + 1] == PLUS || s[i + 1] == MINUS) then i + 2 else i + 1;
      if DigitAt(s, j) then Some(DigitsEnd(s, j)) else None
    else Some(i)
  }

  /** End of the number token at `i`, if the maximal run there is one. */
  function NumberEnd(s: seq<byte>, i: nat): (r: Option<nat>)
    ensures r.Some? ==> i < r.value <= |s|
  {
    var first := if i < |s| && s[i] == MINUS then i + 1 else i;
    match IntEnd(s, first)
    case None => None
    case Some(a) =>
      match FracEnd(s, a)
      case None => None
      case Some(b) => ExpEnd(s, b)
  }

  function ReadNumber(s: seq<byte>, i: nat): (r: Reading<LiteValue>)
    ensures r.Ok? ==> i < r.value.1 <= |s|
  {
    match NumberEnd(s, i)
    case None => Err(InvalidNumber(i))
    case Some(end) =>
      match Utf8.Decode(s[i..end])
      case None => Err(InvalidNumber(i))
      case Some(raw) => Ok((Number(raw), end))
  }

  function ReadBool(s: seq<byte>, i: nat): (r: Reading<LiteValue>)
    requires i < |s|
    ensures r.Ok? ==> i < r.value.1 <= |s|
  {
    if At(s, i, TRUE_WORD) then Ok((Bool(true), i + 4))
    else if At(s, i, FALSE_WORD) then Ok((Bool(false), i + 5))
    else Err(UnexpectedByte(i, s[i]))
  }

  function ReadNull(s: seq<byte>, i: nat): (r: Reading<LiteValue>)
    requires i < |s|
    ensures r.Ok? ==> i < r.value.1 <= |s|
  {
    if At(s, i, NULL_WORD) then Ok((Null, i + 4)) else Err(UnexpectedByte(i, s[i]))
  }

  // ----- values

  function ReadValue(s: seq<byte>, i: nat, depth: nat): (r: Reading<LiteValue>)
    requires i <= |s|
    ensures r.Ok? ==> i < r.value.1 <= |s|
    decreases |s| - i, 2
  {
    if depth > MAX_DEPTH then Err(DepthExceeded(i))
    else
      var j := SkipWs(s, i);
      if j == |s| then Err(UnexpectedEof)
      else if s[j] == LBRACE then ReadObject(s, j, depth)
      else if s[j] == LBRACKET then ReadArray(s, j, depth)
      else if s[j] == QUOTE then
        var (t, k) :- ReadString(s, j);
        Ok((String(t), k))
      else if s[j] == 0x74 || s[j] == 0x66 then ReadBool(s, j)
      else if s[j] == 0x6E then ReadNull(s, j)
      else if s[j] == MINUS || IsDigitByte(s[j]) then ReadNumber(s, j)
      else Err(UnexpectedByte(j, s[j]))
  }

  function ReadObject(s: seq<byte>, i: nat, depth: nat): (r: Reading<LiteValue>)
    requires i < |s|
    ensures r.Ok? ==> i < r.value.1 <= |s|
    decreases |s| - i, 1
  {
    var j :- Expect(s, i, LBRACE);
    var k := SkipWs(s, j);
    if k < |s| && s[k] == RBRACE then Ok((Object([]), k + 1))
    else ReadMembers(s, k, depth, [])
  }

  function ReadMember(s: seq<byte>, i: nat, depth: nat): (r: Reading<LiteMember>)
    requires i <= |s|
    ensures r.Ok? ==> i < r.value.1 <= |s|
    decreases |s| - i, 3
  {
    var (key, afterKey) :- ReadString(s, SkipWs(s, i));
    var j :- Expect(s, SkipWs(s, afterKey), COLON);
    var (value, end) :- ReadValue(s, j, depth + 1);
    Ok((LiteMember(key, value), end))
  }

  function ReadMembers(s: seq<byte>, i: nat, depth: nat, out: seq<LiteMember>): (r: Reading<LiteValue>)
    requires i <= |s|
    ensures r.Ok? ==> i < r.value.1 <= |s|
    decreases |s| - i, 4
  {
    var (m, end) :- ReadMember(s, i, depth);
    var k := SkipWs(s, end);
    var all := out + [m];
    if k == |s| then Err(UnexpectedEof)
    else if s[k] == COMMA then ReadMembers(s, k + 1, depth, all)
    else if s[k] == RBRACE then Ok((Object(all), k + 1))
    else Err(UnexpectedByte(k, s[k]))
  }

  function ReadArray(s: seq<byte>, i: nat, depth: nat): (r: Reading<LiteValue>)
    requires i < |s|
    ensures r.Ok? ==> i < r.value.1 <= |s|
    decreases |s| - i, 1
  {
    var j :- Expect(s, i, LBRACKET);
    var k := SkipWs(s, j);
    if k < |s| && s[k] == RBRACKET then Ok((Array([]), k + 1))
    else ReadItems(s, k, depth, [])
  }

  function ReadItems(s: seq<byte>, i: nat, depth: nat, out: seq<LiteValue>): (r: Reading<LiteValue>)
    requires i <= |s|
    ensures r.Ok? ==> i < r.value.1 <= |s|
    decreases |s| - i, 3
  {
    var (v, end) :- ReadValue(s, i, depth + 1);
    var k := SkipWs(s, end);
    var all := out + [v];
    if k == |s| then Err(UnexpectedEof)
    else if s[k] == COMMA then ReadItems(s, k + 1, depth, all)
    else if s[k] == RBRACKET then Ok((Array(all), k + 1))
    else Err(UnexpectedByte(k, s[k]))
  }

  function ReadDocument(s: seq<byte>): Result<LiteValue, ParseError> {
    var (v, j) :- ReadValue(s, SkipWs(s, 0), 0);
    var k := SkipWs(s, j);
    if k != |s| then Err(TrailingData(k)) else Ok(v)
  }

  /** `jsonlite::parse`. */
  function Parse(text: string): Result<LiteValue, ParseError> {
    ReadDocument(Utf8.Encode(text))
  }

  // ----- accessors

  /** How many members carry the key. */
  function KeyCount(members: seq<LiteMember>, key: string): nat {
    if members == [] then 0
    else (if members[0].key == key then 1 else 0) + KeyCount(members[1..], key)
  }

  /** The value of the first member with the key. */
  function First(members: seq<LiteMember>, key: string): (r: Option<LiteValue>)
    ensures r.None? <==> KeyCount(members, key) == 0
  {
    if members == [] then None
    else if members[0].key == key then Some(members[0].value)
    else First(members[1..], key)
  }

  /** `get`: first match wins; a value that is no object has no keys. */
  function Get(v: LiteValue, key: string): Option<LiteValue> {
    if v.Object? then First(v.members, key) else None
  }

  /** `get_unique`: an error when the key stands twice. */
  function GetUnique(v: LiteValue, key: string): Result<Option<LiteValue>, string> {
    if v.Object? && KeyCount(v.members, key) > 1 then Err(key) else Ok(Get(v, key))
  }

  method GetUniqueMember(v: LiteValue, key: string) returns (r: Result<Option<LiteValue>, string>)
    ensures r == GetUnique(v, key)
  {
    if !v.Object? { return Ok(None); }
    var found: Option<LiteValue> := None;
    var members := v.members;
    for i := 0 to |members|
      invariant found.Some? ==> KeyCount(members, key) == 1 + KeyCount(members[i..], key) && found == First(members, key)
      invariant found.None? ==> KeyCount(members, key) == KeyCount(members[i..], key) && First(members, key) == First(members[i..], key)
    {
      assert members[i..][1..] == members[i + 1..];
      if members[i].key == key {
        if found.Some? { return Err(key); }
        found := Some(members[i].value);
      }
    }
    assert members[|members|..] == [];
    return Ok(found);
  }
}
