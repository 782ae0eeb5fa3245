/** What the encoder accepts, and which error it returns otherwise, against section
    5.1.1 of RFC 2046 and in terms of the parts themselves. */
module MultipartRules {
  import opened Prelude
  import opened Multipart
  import Utf8

  // ----- boundaries

  predicate IsAlphanumeric(c: char) {
    '0' <= c <= '9' || 'A' <= c <= 'Z' || 'a' <= c <= 'z'
  }

  /** `boundary := 0*69<bchars> bcharsnospace`. */
  predicate IsBoundary(t: string) {
    && 1 <= |t| <= 70 && t[|t| - 1] != ' '
    && forall k :: 0 <= k < |t| ==> IsAlphanumeric(t[k]) || t[k] in "'()+_,-./:=? "
  }

  lemma BcharIff(c: char)
    requires c as int < 0x80
    ensures IsBchar(c as int) <==> IsAlphanumeric(c) || c in "'()+_,-./:=? "
  {
    var list := "'()+_,-./:=? ";
    assert forall k :: 0 <= k < |list| ==> list[k] as int in [0x27, 0x28, 0x29, 0x2B, 0x5F, 0x2C, 0x2D, 0x2E, 0x2F, 0x3A, 0x3D, 0x3F, 0x20];
    if c as int in [0x27, 0x28, 0x29, 0x2B, 0x5F, 0x2C, 0x2D, 0x2E, 0x2F, 0x3A, 0x3D, 0x3F, 0x20] {
      assert c in ['\'', '(', ')', '+', '_', ',', '-', '.', '/', ':', '=', '?', ' '];
      assert list == ['\'', '(', ')', '+', '_', ',', '-', '.', '/', ':', '=', '?', ' '];
    }
  }

  lemma BcharIsAscii(b: byte)
    requires IsBchar(b)
    ensures b < 0x80
  {
  }

  /** The byte test is the rule for characters. */
  lemma BoundaryIff(t: string)
    ensures ValidBoundary(t) <==> IsBoundary(t)
  {
    hide IsBchar, IsAlphanumeric;
    if ValidBoundary(t) {
      forall k | 0 <= k < |Utf8.Encode(t)| ensures Utf8.Encode(t)[k] < 0x80 {
        BcharIsAscii(Utf8.Encode(t)[k]);
      }
      Utf8.AsciiBytes(t);
    }
    if IsBoundary(t) { BoundaryIsAscii(t); }
    if Utf8.IsAscii(t) {
      Utf8.EncodeAscii(t);
      forall k | 0 <= k < |t| ensures IsBchar(Utf8.Encode(t)[k]) <==> IsAlphanumeric(t[k]) || t[k] in "'()+_,-./:=? " {
        BcharIff(t[k]);
      }
    }
  }

  lemma BoundaryIsAscii(t: string)
    requires IsBoundary(t)
    ensures Utf8.IsAscii(t)
  {
    forall k | 0 <= k < |t| ensures t[k] as int < 0x80 {
      assert IsAlphanumeric(t[k]) || t[k] in "'()+_,-./:=? ";
    }
  }

  // ----- parts

  /** A character of the Unicode category Cc. */
  predicate IsCc(c: char) {
    0 <= c as int <= 0x1F || 0x7F <= c as int <= 0x9F
  }

  predicate Clean(t: string) {
    forall k :: 0 <= k < |t| ==> !IsCc(t[k])
  }

  /** No control character in the name of a part, nor in its filename. */
  predicate CleanHeader(p: Part) {
    match p
    case Field(name, _) => Clean(name)
    case File(fieldName, filename, _, _) => Clean(fieldName) && Clean(filename)
  }

  /** The bytes hold a line that starts with the dash-boundary: at their start, or behind a
      line end. */
  ghost predicate HoldsBoundary(b: seq<byte>, boundary: string) {
    exists before, after :: IsSplitAround(b, before, Utf8.Encode("--" + boundary), after)
  }

  /** The line stands in `b`, at its start or behind a line end. */
  predicate IsSplitAround(b: seq<byte>, before: seq<byte>, line: seq<byte>, after: seq<byte>) {
    b == before + (line + after) && (before == [] || EndsLine(before))
  }

  predicate EndsLine(b: seq<byte>) {
    |b| >= 2 && b[|b| - 2] == 0x0D && b[|b| - 1] == 0x0A
  }

  /** The boundary hides in the body of the part, or in its filename. */
  ghost predicate Hides(p: Part, boundary: string) {
    match p
    case Field(_, value) => HoldsBoundary(Utf8.Encode(value), boundary)
    case File(_, filename, _, bytes) => HoldsBoundary(bytes, boundary) || HoldsBoundary(Utf8.Encode(filename), boundary)
  }

  lemma ControlIff(t: string)
    ensures HasControl(t) <==> !Clean(t)
  {
  }

  lemma CleanIff(p: Part)
    ensures HeaderAllowed(p) <==> CleanHeader(p)
  {
    match p
    case Field(name, _) =>
      assert HeaderValues(p)[0] == name;
      ControlIff(name);
    case File(f, n, _, _) =>
      assert HeaderValues(p)[0] == f && HeaderValues(p)[1] == n;
      ControlIff(f);
      ControlIff(n);
  }

  lemma DashText(boundary: string)
    ensures Utf8.Encode("--" + boundary) == DashBoundary(boundary)
  {
    hide Utf8.Encode;
    Utf8.EncodeConcat("--", boundary);
    Utf8.EncodeAscii("--");
    assert Utf8.Codes("--") == DASHES;
  }

  lemma CollidesIff(b: seq<byte>, boundary: string)
    ensures Collides(b, boundary) <==> HoldsBoundary(b, boundary)
  {
    hide Utf8.Encode, DashBoundary, IsSplitAround, At;
    DashText(boundary);
    var bare := DashBoundary(boundary);
    StartIff(b, bare);
    if Occurs(b, Delimiter(boundary)) {
      var i :| 0 <= i <= |b| && At(b, i, Delimiter(boundary));
      BehindLineEnd(b, i, bare);
    }
    if HoldsBoundary(b, boundary) {
      var before, after :| IsSplitAround(b, before, bare, after);
      if before != [] {
        LineEndBefore(b, before, bare, after);
        assert At(b, |before| - 2, Delimiter(boundary));
      }
    }
  }

  lemma StartIff(b: seq<byte>, bare: seq<byte>)
    ensures At(b, 0, bare) <==> exists after :: IsSplitAround(b, [], bare, after)
  {
    if At(b, 0, bare) { assert IsSplitAround(b, [], bare, b[|bare|..]); }
    if after :| IsSplitAround(b, [], bare, after) { assert b == bare + after; }
  }

  lemma LineEndBefore(b: seq<byte>, before: seq<byte>, bare: seq<byte>, after: seq<byte>)
    requires before != [] && IsSplitAround(b, before, bare, after)
    ensures 2 <= |before| <= |b| && At(b, |before| - 2, CRLF + bare)
  {
    var i := |before| - 2;
    assert b[i..i + 2] == CRLF;
    assert b[i + 2..i + 2 + |bare|] == bare;
    assert b[i..i + 2 + |bare|] == b[i..i + 2] + b[i + 2..i + 2 + |bare|];
  }

  lemma BehindLineEnd(b: seq<byte>, i: nat, bare: seq<byte>)
    requires At(b, i, CRLF + bare)
    ensures exists before, after :: IsSplitAround(b, before, bare, after)
  {
    var before, after := b[..i + 2], b[i + 2 + |bare|..];
    AtSplit(b, i, CRLF, bare);
    AtIndex(b, i, CRLF, 0);
    AtIndex(b, i, CRLF, 1);
    assert b[i + 2..i + 2 + |bare|] == bare;
    assert b == before + b[i + 2..] && b[i + 2..] == bare + after;
    assert IsSplitAround(b, before, bare, after);
  }

  lemma HidesIff(p: Part, boundary: string)
    ensures PartCollides(p, boundary) <==> Hides(p, boundary)
  {
    hide Utf8.Encode, Collides, HoldsBoundary;
    match p
    case Field(_, value) =>
      CollidesIff(Utf8.Encode(value), boundary);
      assert CollisionSpans(p)[0] == Utf8.Encode(value);
    case File(_, filename, _, bytes) =>
      CollidesIff(bytes, boundary);
      CollidesIff(Utf8.Encode(filename), boundary);
      assert CollisionSpans(p)[0] == bytes && CollisionSpans(p)[1] == Utf8.Encode(filename);
  }

  // ----- the error

  /** The first part that is at fault is the i-th. */
  ghost predicate FaultAt(parts: seq<Part>, boundary: string, i: nat) {
    && i < |parts| && !(CleanHeader(parts[i]) && !Hides(parts[i], boundary))
    && forall k :: 0 <= k < i ==> CleanHeader(parts[k]) && !Hides(parts[k], boundary)
  }

  lemma {:induction false} FirstErrorIs(parts: seq<Part>, boundary: string, i: nat)
    requires i <= |parts| && forall k :: 0 <= k < i ==> CleanHeader(parts[k]) && !Hides(parts[k], boundary)
    ensures match FirstError(parts, boundary, i)
            case None => forall k :: 0 <= k < |parts| ==> CleanHeader(parts[k]) && !Hides(parts[k], boundary)
            case Some(InvalidPartHeader(n)) => FaultAt(parts, boundary, n) && !CleanHeader(parts[n])
            case Some(BoundaryCollision(n)) => FaultAt(parts, boundary, n) && CleanHeader(parts[n]) && Hides(parts[n], boundary)
            case Some(InvalidBoundary) => false
    decreases |parts| - i
  {
    hide CleanHeader, Hides, HeaderAllowed, PartCollides;
    if i < |parts| {
      CleanIff(parts[i]);
      HidesIff(parts[i], boundary);
      if CleanHeader(parts[i]) && !Hides(parts[i], boundary) { FirstErrorIs(parts, boundary, i + 1); }
    }
  }

  /** Whether the encoder fails, and with what: a bad boundary first, then the first part
      at fault, its header before its body. */
  lemma SerializeOutcome(parts: seq<Part>, boundary: string)
    ensures var r := Serialize(parts, boundary);
      && (r.Ok? <==> IsBoundary(boundary) && forall k :: 0 <= k < |parts| ==> CleanHeader(parts[k]) && !Hides(parts[k], boundary))
      && (r == Err(InvalidBoundary) <==> !IsBoundary(boundary))
      && (forall n: nat :: r == Err(InvalidPartHeader(n)) <==>
            IsBoundary(boundary) && FaultAt(parts, boundary, n) && !CleanHeader(parts[n]))
      && (forall n: nat :: r == Err(BoundaryCollision(n)) <==>
            IsBoundary(boundary) && FaultAt(parts, boundary, n) && CleanHeader(parts[n]))
  {
    hide CleanHeader, Hides, Message, ValidBoundary, IsBoundary, FirstError;
    BoundaryIff(boundary);
    FirstErrorIs(parts, boundary, 0);
  }
}
