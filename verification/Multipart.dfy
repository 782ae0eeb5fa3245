/** The `multipart/form-data` encoder of the upload requests: parts, boundary
    validation, the collision scan, and the serialized bytes. */
module Multipart {
  import opened Prelude
  import Utf8

  datatype Part =
    | Field(name: string, value: string)
    | File(fieldName: string, filename: string, contentType: string, bytes: seq<byte>)

  datatype MultipartError =
    | InvalidBoundary
    | BoundaryCollision(index: nat)
    | InvalidPartHeader(index: nat)

  const CR: byte := 0x0D
  const LF: byte := 0x0A
  const DASH: byte := 0x2D
  const SPACE: byte := 0x20
  const CRLF: seq<byte> := [CR, LF]
  const DASHES: seq<byte> := [DASH, DASH]

  /** `char::is_control`: the Unicode category Cc. */
  predicate IsControl(c: char) {
    c as int < 0x20 || 0x7F <= c as int <= 0x9F
  }

  predicate HasControl(s: string) {
    exists k :: 0 <= k < |s| && IsControl(s[k])
  }

  function HeaderValues(p: Part): seq<string> {
    match p
    case Field(name, _) => [name]
    case File(fieldName, filename, _, _) => [fieldName, filename]
  }

  predicate HeaderAllowed(p: Part) {
    forall k :: 0 <= k < |HeaderValues(p)| ==> !HasControl(HeaderValues(p)[k])
  }

  /** Backslash before each backslash and double quote. */
  function EscapeQuoted(s: string): string {
    if s == [] then []
    else (if s[0] == '\\' || s[0] == '"' then ['\\', s[0]] else [s[0]]) + EscapeQuoted(s[1..])
  }

  /** The characters section 5.1.1 of RFC 2046 allows in a boundary. */
  predicate IsBchar(b: byte) {
    || 0x30 <= b <= 0x39 || 0x41 <= b <= 0x5A || 0x61 <= b <= 0x7A
    || b in [0x27, 0x28, 0x29, 0x2B, 0x5F, 0x2C, 0x2D, 0x2E, 0x2F, 0x3A, 0x3D, 0x3F, 0x20]
  }

  /** 1 to 70 boundary characters, the last of them not a space. */
  predicate ValidBoundary(boundary: string) {
    var b := Utf8.Encode(boundary);
    && 1 <= |b| <= 70
    && (forall k :: 0 <= k < |b| ==> IsBchar(b[k]))
    && b[|b| - 1] != SPACE
  }

  function Body(p: Part): seq<byte> {
    match p
    case Field(_, value) => Utf8.Encode(value)
    case File(_, _, _, bytes) => bytes
  }

  /** The spans a boundary must not hide in: the body and a file's name. */
  function CollisionSpans(p: Part): seq<seq<byte>> {
    match p
    case Field(_, value) => [Utf8.Encode(value)]
    case File(_, filename, _, bytes) => [bytes, Utf8.Encode(filename)]
  }

  function DashBoundary(boundary: string): seq<byte> {
    DASHES + Utf8.Encode(boundary)
  }

  /** CRLF, two dashes, the boundary. */
  function Delimiter(boundary: string): (r: seq<byte>)
    ensures CRLF < r
  {
    CRLF + DashBoundary(boundary)
  }

  predicate Occurs(s: seq<byte>, p: seq<byte>) {
    exists i :: 0 <= i <= |s| && At(s, i, p)
  }

  predicate Collides(span: seq<byte>, boundary: string) {
    At(span, 0, DashBoundary(boundary)) || Occurs(span, Delimiter(boundary))
  }

  predicate PartCollides(p: Part, boundary: string) {
    exists k :: 0 <= k < |CollisionSpans(p)| && Collides(CollisionSpans(p)[k], boundary)
  }

  /** The error of the first offending part from `i` on; a bad header is found
      before a collision in the same part. */
  function FirstError(parts: seq<Part>, boundary: string, i: nat): Option<MultipartError>
    requires i <= |parts|
    decreases |parts| - i
  {
    if i == |parts| then None
    else if !HeaderAllowed(parts[i]) then Some(InvalidPartHeader(i))
    else if PartCollides(parts[i], boundary) then Some(BoundaryCollision(i))
    else FirstError(parts, boundary, i + 1)
  }

  /** The header block of a part, with the blank line that ends it. */
  function Head(p: Part): seq<byte> {
    match p
    case Field(name, _) =>
      Utf8.Encode("Content-Disposition: form-data; name=\"" + EscapeQuoted(name) + "\"\r\n\r\n")
    case File(fieldName, filename, contentType, _) =>
      Utf8.Encode("Content-Disposition: form-data; name=\"" + EscapeQuoted(fieldName)
                  + "\"; filename=\"" + EscapeQuoted(filename) + "\"\r\n")
      + Utf8.Encode("Content-Type: " + contentType + "\r\n\r\n")
  }

  function PartBytes(p: Part, boundary: string): seq<byte> {
    Utf8.Encode("--" + boundary + "\r\n") + Head(p) + Body(p) + CRLF
  }

  /** All parts from the front, then the closing delimiter. */
  function Message(parts: seq<Part>, boundary: string): seq<byte> {
    if parts == [] then Utf8.Encode("--" + boundary + "--\r\n")
    else PartBytes(parts[0], boundary) + Message(parts[1..], boundary)
  }

  /** `serialize_multipart`. */
  function Serialize(parts: seq<Part>, boundary: string): Result<(string, seq<byte>), MultipartError> {
    if !ValidBoundary(boundary) then Err(InvalidBoundary)
    else
      match FirstError(parts, boundary, 0)
      case Some(e) => Err(e)
      case None => Ok(("multipart/form-data; boundary=" + boundary, Message(parts, boundary)))
  }

  // ----- the loops

  method CheckBoundary(boundary: string) returns (ok: bool)
    ensures ok == ValidBoundary(boundary)
  {
    var b := Utf8.Encode(boundary);
    if |b| == 0 || |b| > 70 { return false; }
    for k := 0 to |b|
      invariant forall n :: 0 <= n < k ==> IsBchar(b[n])
    {
      if !IsBchar(b[k]) { return false; }
    }
    return b[|b| - 1] != SPACE;
  }

  method BodyCollides(span: seq<byte>, boundary: string) returns (hit: bool)
    ensures hit == Collides(span, boundary)
  {
    var bare := DashBoundary(boundary);
    if At(span, 0, bare) { return true; }
    var d := CRLF + bare;
    var i := 0;
    while i + |d| <= |span|
      invariant 0 <= i
      invariant forall n :: 0 <= n < i ==> !At(span, n, d)
    {
      if span[i..i + |d|] == d {
        assert At(span, i, d);
        return true;
      }
      i := i + 1;
    }
    return false;
  }

  method EscapeValue(value: string) returns (out: string)
    ensures out == EscapeQuoted(value)
  {
    out := "";
    for i := 0 to |value|
      invariant out + EscapeQuoted(value[i..]) == EscapeQuoted(value)
    {
      var ch := value[i];
      assert value[i..][0] == ch && value[i..][1..] == value[i + 1..];
      ghost var before := out;
      if ch == '\\' || ch == '"' { out := out + ['\\']; }
      out := out + [ch];
      Regroup(before, if ch == '\\' || ch == '"' then ['\\', ch] else [ch], EscapeQuoted(value[i + 1..]), "", "", "");
      assert out == before + if ch == '\\' || ch == '"' then ['\\', ch] else [ch];
    }
    assert value[|value|..] == [];
  }

  method SerializeMultipart(parts: seq<Part>, boundary: string)
    returns (r: Result<(string, seq<byte>), MultipartError>)
    ensures r == Serialize(parts, boundary)
  {
    hide Message, ValidBoundary, PartBytes, HeaderAllowed, PartCollides;
    var ok := CheckBoundary(boundary);
    if !ok { return Err(InvalidBoundary); }
    for i := 0 to |parts|
      invariant FirstError(parts, boundary, 0) == FirstError(parts, boundary, i)
    {
      if !HeaderAllowed(parts[i]) { return Err(InvalidPartHeader(i)); }
      var hit := AnySpanCollides(parts[i], boundary);
      if hit { return Err(BoundaryCollision(i)); }
    }
    var body: seq<byte> := [];
    assert parts[0..] == parts;
    for i := 0 to |parts|
      invariant body + Message(parts[i..], boundary) == Message(parts, boundary)
    {
      var encoded := EncodePart(parts[i], boundary);
      MessageStep(parts, i, boundary);
      Regroup(body, encoded, Message(parts[i + 1..], boundary), [], [], []);
      body := body + encoded;
    }
    MessageEnd(parts, boundary);
    body := body + Utf8.Encode("--" + boundary + "--\r\n");
    return Ok(("multipart/form-data; boundary=" + boundary, body));
  }

  lemma MessageStep(parts: seq<Part>, i: nat, boundary: string)
    requires i < |parts|
    ensures Message(parts[i..], boundary) == PartBytes(parts[i], boundary) + Message(parts[i + 1..], boundary)
  {
    assert parts[i..][1..] == parts[i + 1..];
  }

  lemma MessageEnd(parts: seq<Part>, boundary: string)
    ensures Message(parts[|parts|..], boundary) == Utf8.Encode("--" + boundary + "--\r\n")
  {
  }

  method AnySpanCollides(p: Part, boundary: string) returns (hit: bool)
    ensures hit == PartCollides(p, boundary)
  {
    hide Collides;
    var spans := CollisionSpans(p);
    for k := 0 to |spans|
      invariant forall n :: 0 <= n < k ==> !Collides(spans[n], boundary)
    {
      var one := BodyCollides(spans[k], boundary);
      if one { return true; }
    }
    return false;
  }

  method EncodePart(p: Part, boundary: string) returns (out: seq<byte>)
    ensures out == PartBytes(p, boundary)
  {
    out := Utf8.Encode("--" + boundary + "\r\n");
    match p
    case Field(name, value) =>
      var n := EscapeValue(name);
      out := out + Utf8.Encode("Content-Disposition: form-data; name=\"" + n + "\"\r\n\r\n");
      out := out + Utf8.Encode(value) + CRLF;
    case File(fieldName, filename, contentType, bytes) =>
      var n := EscapeValue(fieldName);
      var f := EscapeValue(filename);
      out := out + (Utf8.Encode("Content-Disposition: form-data; name=\"" + n + "\"; filename=\"" + f + "\"\r\n")
                    + Utf8.Encode("Content-Type: " + contentType + "\r\n\r\n"));
      out := out + bytes + CRLF;
  }
}
