/** The integer-only JSON codec: values, the reading of a byte string at an index,
    and the two printed layouts, all as mathematical functions. The parser object
    and the writers are proved against these. */
module Json {
  import opened Prelude
  import opened JsonLex
  import Utf8
  import Decimal

  datatype JsonValue =
    | Null
    | Bool(b: bool)
    | Number(n: i64)
    | String(s: string)
    | Array(items: seq<JsonValue>)
    | Object(members: seq<Member>)

  datatype Member = Member(key: string, value: JsonValue)

  predicate HasKey(members: seq<Member>, key: string) {
    exists m :: m in members && m.key == key
  }

  // ----- strings

  function ReadEscape(s: seq<byte>, i: nat): (r: Reading<char>)
    requires i <= |s|
    ensures r.Ok? ==> i < r.value.1 <= |s|
  {
    if i == |s| then Err(UnexpectedEof)
    else if s[i] == 0x75 then
      var (cp, j) :- Hex4(s, i + 1);
      if IsSurrogate(cp) then Err(InvalidEscape(j)) else Ok((cp as char, j))
    else
      match ShortEscape(s[i])
      case Some(c) => Ok((c, i + 1))
      case None => Err(InvalidEscape(i + 1))
  }

  /** The rest of a string body from `pos`. Before the first escape the body is one
      slice from `start`, decoded as UTF-8 when the run ends; afterwards every raw
      byte is pushed as the character with that code. */
  function ReadBody(s: seq<byte>, start: nat, pos: nat, escaped: bool, out: string): (r: Reading<string>)
    requires start <= pos <= |s|
    ensures r.Ok? ==> pos < r.value.1 <= |s|
    decreases |s| - pos
  {
    if pos == |s| then Err(UnexpectedEof)
    else if s[pos] == QUOTE then
      var text :- Flushed(s, start, pos, escaped, out);
      Ok((text, pos + 1))
    else if s[pos] == BACKSLASH then
      var text :- Flushed(s, start, pos, escaped, out);
      var (c, next) :- ReadEscape(s, pos + 1);
      ReadBody(s, start, next, true, text + [c])
    else if s[pos] < 0x20 then Err(UnexpectedByte(pos, s[pos]))
    else ReadBody(s, start, pos + 1, escaped, if escaped then out + [s[pos] as char] else out)
  }

  function Flushed(s: seq<byte>, start: nat, pos: nat, escaped: bool, out: string): Result<string, ParseError>
    requires start <= pos <= |s|
  {
    if escaped then Ok(out)
    else
      match Utf8.Decode(s[start..pos])
      case Some(t) => Ok(out + t)
      case None => Err(InvalidUtf8(start))
  }

  function ReadString(s: seq<byte>, i: nat): (r: Reading<string>)
    requires i <= |s|
    ensures r.Ok? ==> i < r.value.1 <= |s|
  {
    var j :- Expect(s, i, QUOTE);
    ReadBody(s, j, j, false, "")
  }

  // ----- numbers and words

  function ReadNumber(s: seq<byte>, i: nat): (r: Reading<JsonValue>)
    requires i < |s| && (IsDigitByte(s[i]) || s[i] == MINUS)
    ensures r.Ok? ==> i < r.value.1 <= |s|
  {
    var first := if s[i] == MINUS then i + 1 else i;
    var end := DigitsEnd(s, first);
    if first == end || (end - first > 1 && s[first] == ZERO) then Err(InvalidNumber(i))
    else
      match Utf8.Decode(s[i..end])
      case None => Err(InvalidNumber(i))
      case Some(text) =>
        match Decimal.ParseI64(text)
        case None => Err(NumberOutOfRange(i))
        case Some(n) => Ok((Number(n), end))
  }

  function ReadBool(s: seq<byte>, i: nat): (r: Reading<JsonValue>)
    requires i < |s|
    ensures r.Ok? ==> i < r.value.1 <= |s|
  {
    if At(s, i, TRUE_WORD) then Ok((Bool(true), i + 4))
    else if At(s, i, FALSE_WORD) then Ok((Bool(false), i + 5))
    else Err(UnexpectedByte(i, s[i]))
  }

  function ReadNull(s: seq<byte>, i: nat): (r: Reading<JsonValue>)
    requires i < |s|
    ensures r.Ok? ==> i < r.value.1 <= |s|
  {
    if At(s, i, NULL_WORD) then Ok((Null, i + 4)) else Err(UnexpectedByte(i, s[i]))
  }

  // ----- values

  function ReadValue(s: seq<byte>, i: nat, depth: nat): (r: Reading<JsonValue>)
    requires i <= |s|
    ensures r.Ok? ==> i < r.value.1 <= |s|
    decreases |s| - i, 2
  {
    if depth > MAX_DEPTH then Err(DepthExceeded(i))
    else
      var j := SkipWs(s, i);
      if j == |s| then Err(UnexpectedEof)
      else if s[j] == LBRACE then ReadObject(s, j, depth)
      else if s[j] == LBRACKET then ReadArray(s, j, depth)
      else if s[j] == QUOTE then
        var (t, k) :- ReadString(s, j);
        Ok((String(t), k))
      else if s[j] == 0x74 || s[j] == 0x66 then ReadBool(s, j)
      else if s[j] == 0x6E then ReadNull(s, j)
      else if IsDigitByte(s[j]) || s[j] == MINUS then ReadNumber(s, j)
      else Err(UnexpectedByte(j, s[j]))
  }

  function ReadObject(s: seq<byte>, i: nat, depth: nat): (r: Reading<JsonValue>)
    requires i < |s|
    ensures r.Ok? ==> i < r.value.1 <= |s|
    decreases |s| - i, 1
  {
    var j :- Expect(s, i, LBRACE);
    var k := SkipWs(s, j);
    if k < |s| && s[k] == RBRACE then Ok((Object([]), k + 1))
    else ReadMembers(s, k, depth, [])
  }

  /** One member: its key, which must be new among `out`, a colon, its value. */
  function ReadMember(s: seq<byte>, i: nat, depth: nat, out: seq<Member>): (r: Reading<Member>)
    requires i <= |s|
    ensures r.Ok? ==> i < r.value.1 <= |s|
    decreases |s| - i, 3
  {
    var keyPos := SkipWs(s, i);
    var (key, afterKey) :- ReadString(s, keyPos);
    if HasKey(out, key) then Err(DuplicateKey(keyPos, key))
    else
      var j :- Expect(s, SkipWs(s, afterKey), COLON);
      var (value, end) :- ReadValue(s, j, depth + 1);
      Ok((Member(key, value), end))
  }

  /** The members from index `i` on, after the members `out` already read. */
  function ReadMembers(s: seq<byte>, i: nat, depth: nat, out: seq<Member>): (r: Reading<JsonValue>)
    requires i <= |s|
    ensures r.Ok? ==> i < r.value.1 <= |s|
    decreases |s| - i, 4
  {
    var (m, end) :- ReadMember(s, i, depth, out);
    var k := SkipWs(s, end);
    var all := out + [m];
    if k == |s| then Err(UnexpectedEof)
    else if s[k] == COMMA then ReadMembers(s, k + 1, depth, all)
    else if s[k] == RBRACE then Ok((Object(all), k + 1))
    else Err(UnexpectedByte(k, s[k]))
  }

  function ReadArray(s: seq<byte>, i: nat, depth: nat): (r: Reading<JsonValue>)
    requires i < |s|
    ensures r.Ok? ==> i < r.value.1 <= |s|
    decreases |s| - i, 1
  {
    var j :- Expect(s, i, LBRACKET);
    var k := SkipWs(s, j);
    if k < |s| && s[k] == RBRACKET then Ok((Array([]), k + 1))
    else ReadItems(s, k, depth, [])
  }

  /** The items from index `i` on, after the items `out` already read. */
  function ReadItems(s: seq<byte>, i: nat, depth: nat, out: seq<JsonValue>): (r: Reading<JsonValue>)
    requires i <= |s|
    ensures r.Ok? ==> i < r.value.1 <= |s|
    decreases |s| - i, 3
  {
    var (value, afterValue) :- ReadValue(s, i, depth + 1);
    var k := SkipWs(s, afterValue);
    var all := out + [value];
    if k == |s| then Err(UnexpectedEof)
    else if s[k] == COMMA then ReadItems(s, k + 1, depth, all)
    else if s[k] == RBRACKET then Ok((Array(all), k + 1))
    else Err(UnexpectedByte(k, s[k]))
  }

  /** The document: one value with nothing but whitespace around it. */
  function ReadDocument(s: seq<byte>): Result<JsonValue, ParseError> {
    var (v, j) :- ReadValue(s, SkipWs(s, 0), 0);
    var k := SkipWs(s, j);
    if k != |s| then Err(TrailingData(k)) else Ok(v)
  }

  /** `json::parse`. */
  function Parse(text: string): Result<JsonValue, ParseError> {
    ReadDocument(Utf8.Encode(text))
  }

  // ----- shape of values

  /** Nesting height: 0 for scalars and empty containers. */
  function Height(v: JsonValue): nat {
    match v
    case Array(items) => if items == [] then 0 else 1 + ItemsHeight(items)
    case Object(members) => if members == [] then 0 else 1 + MembersHeight(members)
    case _ => 0
  }

  function ItemsHeight(items: seq<JsonValue>): nat {
    if items == [] then 0 else Max(ItemsHeight(items[..|items| - 1]), Height(items[|items| - 1]))
  }

  function MembersHeight(members: seq<Member>): nat {
    if members == [] then 0
    else Max(MembersHeight(members[..|members| - 1]), Height(members[|members| - 1].value))
  }

  predicate KeysDistinct(members: seq<Member>) {
    forall i, j :: 0 <= i < j < |members| ==> members[i].key != members[j].key
  }

  /** Every object anywhere in `v` has pairwise distinct keys. */
  predicate DistinctKeys(v: JsonValue) {
    match v
    case Array(items) => forall k :: 0 <= k < |items| ==> DistinctKeys(items[k])
    case Object(members) =>
      KeysDistinct(members) && forall k :: 0 <= k < |members| ==> DistinctKeys(members[k].value)
    case _ => true
  }
}
