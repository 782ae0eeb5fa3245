/** The lexical layer the two JSON readers share byte for byte: whitespace, the
    three words, hex groups, digit runs, and the error type. */
module JsonLex {
  import opened Prelude

  const MAX_DEPTH: nat := 64

  const QUOTE: byte := 0x22
  const BACKSLASH: byte := 0x5C
  const SLASH: byte := 0x2F
  const COMMA: byte := 0x2C
  const COLON: byte := 0x3A
  const LBRACKET: byte := 0x5B
  const RBRACKET: byte := 0x5D
  const LBRACE: byte := 0x7B
  const RBRACE: byte := 0x7D
  const MINUS: byte := 0x2D
  const PLUS: byte := 0x2B
  const DOT: byte := 0x2E
  const ZERO: byte := 0x30

  const TRUE_WORD: seq<byte> := [0x74, 0x72, 0x75, 0x65]
  const FALSE_WORD: seq<byte> := [0x66, 0x61, 0x6C, 0x73, 0x65]
  const NULL_WORD: seq<byte> := [0x6E, 0x75, 0x6C, 0x6C]

  /** Parse failures. `NumberOutOfRange` and `DuplicateKey` are raised by the
      integer-only reader alone. */
  datatype ParseError =
    | UnexpectedEof
    | UnexpectedByte(pos: nat, b: byte)
    | InvalidEscape(pos: nat)
    | InvalidNumber(pos: nat)
    | InvalidUtf8(pos: nat)
    | NumberOutOfRange(pos: nat)
    | DepthExceeded(pos: nat)
    | TrailingData(pos: nat)
    | DuplicateKey(pos: nat, key: string)

  /** What a reading function finds, and the position behind it. */
  type Reading<+T> = Result<(T, nat), ParseError>

  /** The outcome of a method that stopped at `pos` is what the reading function says. */
  predicate Matches<T(==)>(r: Result<T, ParseError>, pos: nat, reading: Reading<T>) {
    match r
    case Ok(v) => reading == Ok((v, pos))
    case Err(e) => reading == Err(e)
  }

  predicate IsWs(b: byte) {
    b == 0x20 || b == 0x09 || b == 0x0A || b == 0x0D
  }

  predicate IsDigitByte(b: byte) {
    0x30 <= b <= 0x39
  }

  /** First index at or after `i` that holds no whitespace. */
  function SkipWs(s: seq<byte>, i: nat): (r: nat)
    requires i <= |s|
    ensures i <= r <= |s|
    ensures r < |s| ==> !IsWs(s[r])
    ensures forall k :: i <= k < r ==> IsWs(s[k])
    decreases |s| - i
  {
    if i < |s| && IsWs(s[i]) then SkipWs(s, i + 1) else i
  }

  /** First index at or after `i` that holds no ASCII digit. */
  function DigitsEnd(s: seq<byte>, i: nat): (r: nat)
    requires i <= |s|
    ensures i <= r <= |s|
    ensures r < |s| ==> !IsDigitByte(s[r])
    ensures forall k :: i <= k < r ==> IsDigitByte(s[k])
    decreases |s| - i
  {
    if i < |s| && IsDigitByte(s[i]) then DigitsEnd(s, i + 1) else i
  }

  lemma {:induction false} SkipWsTo(s: seq<byte>, i: nat, j: nat)
    requires i <= j <= |s|
    requires forall k :: i <= k < j ==> IsWs(s[k])
    ensures SkipWs(s, i) == SkipWs(s, j)
    decreases j - i
  {
    if i < j {
      SkipWsTo(s, i + 1, j);
    }
  }

  lemma DigitsEndIs(s: seq<byte>, i: nat, j: nat)
    requires i <= j <= |s|
    requires forall k :: i <= k < j ==> IsDigitByte(s[k])
    requires j < |s| ==> !IsDigitByte(s[j])
    ensures DigitsEnd(s, i) == j
  {
    var r := DigitsEnd(s, i);
    assert !(r < j) && !(j < r);
  }

  function Expect(s: seq<byte>, i: nat, want: byte): (r: Result<nat, ParseError>)
    requires i <= |s|
    ensures r.Ok? <==> i < |s| && s[i] == want
    ensures r.Ok? ==> r.value == i + 1
  {
    if i == |s| then Err(UnexpectedEof)
    else if s[i] == want then Ok(i + 1)
    else Err(UnexpectedByte(i, s[i]))
  }

  function HexDigit(b: byte): (r: Option<nat>)
    ensures r.Some? ==> r.value < 16 && b < 0x80
  {
    if 0x30 <= b <= 0x39 then Some(b as int - 0x30)
    else if 0x61 <= b <= 0x66 then Some(b as int - 0x61 + 10)
    else if 0x41 <= b <= 0x46 then Some(b as int - 0x41 + 10)
    else None
  }

  /** `k` more hex digits appended to the value `v` read so far. */
  function HexGroup(s: seq<byte>, i: nat, k: nat, v: nat): (r: Result<(nat, nat), ParseError>)
    requires i <= |s| && k <= 4
    requires v < HexLimit(4 - k)
    ensures r.Ok? ==> r.value.0 < 0x1_0000 && r.value.1 == i + k <= |s|
    decreases k
  {
    if k == 0 then Ok((v, i))
    else if i == |s| then Err(UnexpectedEof)
    else
      match HexDigit(s[i])
      case None => Err(InvalidEscape(i + 1))
      case Some(d) => HexGroup(s, i + 1, k - 1, v * 16 + d)
  }

  /** Values of at most `k` hex digits are below this. */
  function HexLimit(k: nat): nat
    requires k <= 4
  {
    if k == 0 then 1 else if k == 1 then 0x10 else if k == 2 then 0x100 else if k == 3 then 0x1000 else 0x1_0000
  }

  /** The four hex digits of a `\u` escape. */
  function Hex4(s: seq<byte>, i: nat): (r: Result<(nat, nat), ParseError>)
    requires i <= |s|
    ensures r.Ok? ==> r.value.0 < 0x1_0000 && r.value.1 == i + 4 <= |s|
  {
    HexGroup(s, i, 4, 0)
  }

  /** The scalar of a one-letter escape, when the letter has one. */
  function ShortEscape(b: byte): (r: Option<char>)
    ensures r.Some? ==> r.value as int < 0x80
  {
    if b == QUOTE then Some('"')
    else if b == BACKSLASH then Some('\\')
    else if b == SLASH then Some('/')
    else if b == 0x62 then Some(8 as char)
    else if b == 0x66 then Some(12 as char)
    else if b == 0x6E then Some('\n')
    else if b == 0x72 then Some('\r')
    else if b == 0x74 then Some('\t')
    else None
  }

  predicate IsSurrogate(cp: int) {
    0xD800 <= cp <= 0xDFFF
  }
}
