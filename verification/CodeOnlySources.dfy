/** The blanker against whole sources: every source reads as a sequence of code units,
    comments and literals, the last perhaps unclosed, and exactly its code units stay. */
module CodeOnlySources {
  import opened Prelude
  import opened CodeOnly
  import opened Text
  import opened CodeOnlyTheorems
  import opened CodeOnlyLiterals

  // ----- where a comment or literal opens

  ghost predicate OpensString(src: seq<unit>, i: nat) {
    exists p :: IsStringPrefix(p) && (p != [] ==> !AfterIdent(src, i)) && At(src, i, p + [Utf16('"')])
  }

  ghost predicate OpensRaw(src: seq<unit>, i: nat) {
    exists p, n: nat :: IsRawPrefix(p) && !AfterIdent(src, i) && At(src, i, p + (Hashes(n) + [Utf16('"')]))
  }

  /** A character literal needs all of itself to open: without a content and its closing
      apostrophe it is a lifetime. */
  ghost predicate ClosesAfter(src: seq<unit>, q: nat) {
    exists t :: IsCharContent(t) && At(src, q + 1, t + [Utf16('\'')])
  }

  ghost predicate OpensChar(src: seq<unit>, i: nat) {
    exists p :: IsCharPrefix(p) && (p != [] ==> !AfterIdent(src, i)) && At(src, i, p + [Utf16('\'')]) && ClosesAfter(src, i + |p|)
  }

  ghost predicate Opens(src: seq<unit>, i: nat) {
    At(src, i, SLASHES) || At(src, i, OPEN_BLOCK) || OpensString(src, i) || OpensRaw(src, i) || OpensChar(src, i)
  }

  lemma OneAt(src: seq<unit>, i: nat, u: unit)
    ensures At(src, i, [u]) <==> Unit(src, i) == u as int
  {
    if i < |src| { assert src[i..i + 1] == [src[i]]; }
  }

  lemma TwoAt(src: seq<unit>, i: nat, u: unit, v: unit)
    ensures At(src, i, [u, v]) <==> Unit(src, i) == u as int && Unit(src, i + 1) == v as int
  {
    if i + 2 <= |src| { assert src[i..i + 2] == [src[i], src[i + 1]]; }
  }

  lemma StringIff(src: seq<unit>, i: nat)
    requires i < |src|
    ensures StartsString(src, i) <==> OpensString(src, i)
  {
    AfterIdentIff(src, i);
    hide IsIdent, At;
    assert [] + [QUOTE] == [QUOTE] && [LOWER_B] + [QUOTE] == [LOWER_B, QUOTE] && [LOWER_C] + [QUOTE] == [LOWER_C, QUOTE];
    OneAt(src, i, QUOTE);
    TwoAt(src, i, LOWER_B, QUOTE);
    TwoAt(src, i, LOWER_C, QUOTE);
    if StartsString(src, i) {
      if src[i] == QUOTE {
        assert IsStringPrefix([]);
      } else {
        assert IsStringPrefix([src[i]]);
      }
    }
  }

  lemma RawIff(src: seq<unit>, i: nat)
    requires i < |src|
    ensures OpensRaw(src, i) <==> StartsRaw(src, i) && RawMove(src, i).blank
  {
    AfterIdentIff(src, i);
    hide IsIdent, At, RawEnd;
    if StartsRaw(src, i) && RawMove(src, i).blank {
      var p := if src[i] == LOWER_R then [LOWER_R] else [src[i], LOWER_R];
      var k := HashesEnd(src, i + |p|);
      var n: nat := k - (i + |p|);
      assert IsRawPrefix(p);
      RawAt(src, i, p, n);
    }
    if OpensRaw(src, i) {
      var p, n: nat :| IsRawPrefix(p) && !AfterIdent(src, i) && At(src, i, p + (Hashes(n) + [QUOTE]));
      RawAt(src, i, p, n);
      HashesEndIs(src, i + |p|, i + |p| + n);
    }
  }

  /** A raw opening, unit by unit. */
  lemma RawAt(src: seq<unit>, i: nat, p: seq<unit>, n: nat)
    requires IsRawPrefix(p)
    ensures At(src, i, p + (Hashes(n) + [Utf16('"')])) <==>
      && Unit(src, i) == p[0] as int && (|p| == 2 ==> Unit(src, i + 1) == p[1] as int)
      && i + |p| + n < |src| && src[i + |p| + n] == Utf16('"')
      && forall j :: i + |p| <= j < i + |p| + n ==> src[j] == Utf16('#')
  {
    AtSplit(src, i, p, Hashes(n) + [QUOTE]);
    AtSplit(src, i + |p|, Hashes(n), [QUOTE]);
    OneAt(src, i + |p| + n, QUOTE);
    OneAt(src, i, p[0]);
    if |p| == 2 { TwoAt(src, i, p[0], p[1]); }
    assert |p| == 1 ==> p == [p[0]];
    assert |p| == 2 ==> p == [p[0], p[1]];
    HashesAt(src, i + |p|, n);
  }

  lemma HashesAt(src: seq<unit>, i: nat, n: nat)
    ensures At(src, i, Hashes(n)) <==> i + n <= |src| && forall j :: i <= j < i + n ==> src[j] == Utf16('#')
  {
    if At(src, i, Hashes(n)) {
      forall j | i <= j < i + n ensures src[j] == HASH {
        AtIndex(src, i, Hashes(n), j - i);
      }
    }
  }

  /** An apostrophe opens a literal exactly when a content and an apostrophe follow. */
  lemma CharCloseIff(src: seq<unit>, q: nat)
    ensures CharClose(src, q).Some? <==> ClosesAfter(src, q)
  {
    hide At, ApostropheEnd;
    if ClosesAfter(src, q) {
      var t :| IsCharContent(t) && At(src, q + 1, t + [APOSTROPHE]);
      ContentClosed(src, q, t);
    }
    if CharClose(src, q).Some? {
      var end := CharClose(src, q).value;
      CloseIsContent(src, q, end);
      var t := src[q + 1..end];
      AtSplit(src, q + 1, t, [APOSTROPHE]);
      OneAt(src, end, APOSTROPHE);
      SliceAt(src, q + 1, end);
    }
  }

  lemma SliceAt(src: seq<unit>, i: nat, end: nat)
    requires i <= end <= |src|
    ensures At(src, i, src[i..end])
  {
  }

  lemma CloseIsContent(src: seq<unit>, q: nat, end: nat)
    requires CharClose(src, q) == Some(end)
    ensures q + 1 <= end < |src| && src[end] == Utf16('\'') && IsCharContent(src[q + 1..end])
  {
    var t := src[q + 1..end];
    assert forall k :: 0 <= k < |t| ==> t[k] == src[q + 1 + k];
  }

  lemma CharIff(src: seq<unit>, i: nat)
    requires i < |src|
    ensures OpensChar(src, i) <==> StartsChar(src, i) && CharMove(src, i).blank
  {
    AfterIdentIff(src, i);
    hide IsIdent, At, CharClose, ClosesAfter;
    assert [] + [APOSTROPHE] == [APOSTROPHE] && [LOWER_B] + [APOSTROPHE] == [LOWER_B, APOSTROPHE];
    OneAt(src, i, APOSTROPHE);
    TwoAt(src, i, LOWER_B, APOSTROPHE);
    CharCloseIff(src, i);
    CharCloseIff(src, i + 1);
    if StartsChar(src, i) && CharMove(src, i).blank {
      assert IsCharPrefix(if src[i] == APOSTROPHE then [] else [LOWER_B]);
    }
  }

  /** The scanner blanks from a position exactly when a comment or literal opens there. */
  lemma BlanksIffOpens(src: seq<unit>, i: nat)
    requires i < |src|
    ensures Step(src, i).blank <==> Opens(src, i)
  {
    hide At, RawMove, CharMove, OpensString, OpensRaw, OpensChar, LineEnd, BlockEnd, StringEnd;
    TwoAt(src, i, SLASH, SLASH);
    TwoAt(src, i, SLASH, STAR);
    StringIff(src, i);
    RawIff(src, i);
    CharIff(src, i);
  }

  /** Where nothing opens, the unit stays and the rest is read from the next one, also
      before a lifetime that the scanner passes together with its `b`. */
  lemma PlainCodeKept(src: seq<unit>, i: nat)
    requires i < |src| && !Opens(src, i)
    ensures !Step(src, i).blank
    ensures Output(src, i) == [src[i]] + Output(src, i + 1)
  {
    hide Step, Opens, CharClose;
    BlanksIffOpens(src, i);
    KeepingStep(src, i);
    assert src[i..i + 1] == [src[i]];
    if Step(src, i).next == i + 2 {
      ApostropheKept(src, i + 1);
      TwoUnits(src, i, Output(src, i + 2));
    }
  }

  lemma TwoUnits(src: seq<unit>, i: nat, rest: seq<unit>)
    requires i + 2 <= |src|
    ensures src[i..i + 2] + rest == [src[i]] + (src[i + 1..i + 2] + rest)
  {
    var w := src[i..i + 2];
    assert w == [w[0]] + [w[1]] && w[0] == src[i] && w[1] == src[i + 1];
    assert src[i + 1..i + 2] == [src[i + 1]];
  }

  lemma ApostropheKept(src: seq<unit>, i: nat)
    requires i < |src| && src[i] == Utf16('\'') && CharClose(src, i) == None
    ensures Step(src, i) == Move(i + 1, false)
  {
    hide CharClose;
  }

  /** A lifetime stays code: a name of two units after the apostrophe already tells it
      from a literal, and so does one that no apostrophe follows. */
  lemma LifetimeKept(src: seq<unit>, i: nat)
    requires i + 1 < |src| && src[i] == Utf16('\'') && IsWordUnit(src[i + 1])
    requires i + 2 < |src| ==> src[i + 2] != Utf16('\'')
    ensures !Opens(src, i)
    ensures Output(src, i) == [Utf16('\'')] + Output(src, i + 1)
  {
    hide Output, Opens;
    assert CharClose(src, i) == None;
    ApostropheKept(src, i);
    BlanksIffOpens(src, i);
    PlainCodeKept(src, i);
  }

  // ----- whole sources

  /** A code unit, or a comment or literal as the grammar spells it. */
  datatype Piece =
    | CodeUnit(u: unit)
    | Line(body: seq<unit>)
    | Block(inside: Body)
    | Str(prefix: seq<unit>, items: seq<Item>)
    | Raw(prefix: seq<unit>, hashes: nat, body: seq<unit>)
    | Char(prefix: seq<unit>, content: seq<unit>)

  function PieceText(p: Piece): seq<unit> {
    match p
    case CodeUnit(u) => [u]
    case Line(body) => SLASHES + body
    case Block(inside) => OPEN_BLOCK + (BodyText(inside) + CLOSE_BLOCK)
    case Str(prefix, items) => prefix + ([Utf16('"')] + (ItemsText(items) + [Utf16('"')]))
    case Raw(prefix, hashes, body) => prefix + (Hashes(hashes) + ([Utf16('"')] + (body + RawClose(hashes))))
    case Char(prefix, content) => prefix + ([Utf16('\'')] + (content + [Utf16('\'')]))
  }

  /** The piece stands at `i` and is well formed there: a code unit opens nothing, a line
      comment runs to its newline, and a prefix is no end of an identifier. */
  ghost predicate Stands(src: seq<unit>, i: nat, p: Piece) {
    At(src, i, PieceText(p)) &&
    match p
    case CodeUnit(u) => !Opens(src, i)
    case Line(body) => NoNewline(body) && (i + 2 + |body| < |src| ==> src[i + 2 + |body|] == Utf16('\n'))
    case Block(inside) => ValidBody(inside)
    case Str(prefix, items) => IsStringPrefix(prefix) && (prefix != [] ==> !AfterIdent(src, i)) && ValidItems(items)
    case Raw(prefix, hashes, body) => IsRawPrefix(prefix) && !AfterIdent(src, i) && ValidRawBody(body, hashes)
    case Char(prefix, content) => IsCharPrefix(prefix) && (prefix != [] ==> !AfterIdent(src, i)) && IsCharContent(content)
  }

  /** A comment or literal opens that is never closed. */
  ghost predicate Unclosed(src: seq<unit>, i: nat) {
    Opens(src, i) && forall p :: !Stands(src, i, p)
  }

  /** From `i` on the source is these pieces, one behind the other, and then `rest`, which
      is empty or an unclosed comment or literal. */
  ghost predicate ReadsAs(src: seq<unit>, i: nat, ps: seq<Piece>, rest: seq<unit>)
    decreases |ps|
  {
    if ps == [] then i <= |src| && src[i..] == rest && (i < |src| ==> Unclosed(src, i))
    else Stands(src, i, ps[0]) && ReadsAs(src, i + |PieceText(ps[0])|, ps[1..], rest)
  }

  function SourceText(ps: seq<Piece>): seq<unit> {
    if ps == [] then [] else PieceText(ps[0]) + SourceText(ps[1..])
  }

  /** Code units stay, comments and literals become spaces and newlines. */
  function Kept(ps: seq<Piece>): seq<unit> {
    if ps == [] then []
    else (if ps[0].CodeUnit? then PieceText(ps[0]) else Spaces(PieceText(ps[0]))) + Kept(ps[1..])
  }

  lemma PieceBlanked(src: seq<unit>, i: nat, p: Piece)
    requires Stands(src, i, p) && !p.CodeUnit?
    ensures BlanksExactly(src, i, PieceText(p))
  {
    hide At, BlanksExactly, ValidBody, ValidItems, ValidRawBody, IsCharContent, ItemsText, BodyText;
    match p
    case Line(body) => LineComment(src, i, body);
    case Block(inside) => BlockComment(src, i, inside);
    case Str(prefix, items) => StringLiteral(src, i, prefix, items);
    case Raw(prefix, hashes, body) => RawString(src, i, prefix, hashes, body);
    case Char(prefix, content) => CharLiteral(src, i, prefix, content);
  }

  lemma PieceIsThere(src: seq<unit>, i: nat, p: Piece)
    requires Stands(src, i, p)
    ensures i + |PieceText(p)| <= |src| && src[i..i + |PieceText(p)|] == PieceText(p) && PieceText(p) != []
    ensures p.CodeUnit? ==> PieceText(p) == [src[i]] && !Opens(src, i)
  {
    hide Opens, BodyText, ItemsText, Hashes, Closing;
    if p.CodeUnit? { OneAt(src, i, p.u); }
  }

  lemma SourceSplit(ps: seq<Piece>)
    requires ps != []
    ensures SourceText(ps) == PieceText(ps[0]) + SourceText(ps[1..])
  {
  }

  lemma PieceFirst(src: seq<unit>, i: nat, text: seq<unit>, tail: seq<unit>)
    requires At(src, i, text) && src[i + |text|..] == tail
    ensures src[i..] == text + tail
  {
  }

  /** The source is the text of its pieces and the rest. */
  lemma {:induction false} ReadsText(src: seq<unit>, i: nat, ps: seq<Piece>, rest: seq<unit>)
    requires i <= |src| && ReadsAs(src, i, ps, rest)
    ensures src[i..] == SourceText(ps) + rest
    decreases |ps|
  {
    hide PieceText, Stands, Unclosed;
    if ps != [] {
      var text := PieceText(ps[0]);
      PieceIsThere(src, i, ps[0]);
      var more := SourceText(ps[1..]);
      ReadsText(src, i + |text|, ps[1..], rest);
      hide SourceText;
      PieceFirst(src, i, text, more + rest);
      SourceSplit(ps);
      Regroup(text, more, rest, [], [], []);
    }
  }

  // ----- what the scanner closes is a piece

  lemma SliceOfUnits(src: seq<unit>, i: nat, j: nat, end: nat)
    requires i <= j <= end <= |src|
    ensures src[i..end] == src[i..j] + src[j..end]
  {
  }

  lemma LineStands(src: seq<unit>, i: nat)
    requires At(src, i, SLASHES)
    ensures Stands(src, i, Line(src[i + 2..LineEnd(src, i)]))
  {
    TwoAt(src, i, SLASH, SLASH);
    var end := LineEnd(src, i);
    assert end >= i + 2;
    SliceOfUnits(src, i, i + 2, end);
    assert src[i..i + 2] == SLASHES;
  }

  lemma Prepended(u: unit, text: seq<unit>, marker: seq<unit>)
    requires IsPlain(text, marker) && |marker| >= 1
    requires [u, (text + marker)[0]] != OPEN_BLOCK && [u, (text + marker)[0]] != CLOSE_BLOCK
    ensures IsPlain([u] + text, marker)
  {
    var all := [u] + text + marker;
    assert all == [u] + (text + marker);
    forall k: nat | k < |[u] + text| ensures !At(all, k, OPEN_BLOCK) && !At(all, k, CLOSE_BLOCK) {
      TwoAt(all, k, SLASH, STAR);
      TwoAt(all, k, STAR, SLASH);
      if k > 0 {
        TwoAt(text + marker, k - 1, SLASH, STAR);
        TwoAt(text + marker, k - 1, STAR, SLASH);
        assert !At(text + marker, k - 1, OPEN_BLOCK) && !At(text + marker, k - 1, CLOSE_BLOCK);
      }
    }
  }

  function WithUnit(u: unit, b: Body): Body {
    match b
    case Last(text) => Last([u] + text)
    case Nested(text, inner, rest) => Nested([u] + text, inner, rest)
  }

  lemma WithUnitText(u: unit, b: Body)
    ensures BodyText(WithUnit(u, b)) == [u] + BodyText(b)
  {
    match b
    case Last(_) =>
    case Nested(text, inner, rest) =>
      var tail := OPEN_BLOCK + (BodyText(inner) + (CLOSE_BLOCK + BodyText(rest)));
      assert [u] + text + tail == [u] + (text + tail);
  }

  lemma WithUnitValid(u: unit, b: Body)
    requires ValidBody(b)
    requires [u, (BodyText(b) + CLOSE_BLOCK)[0]] != OPEN_BLOCK && [u, (BodyText(b) + CLOSE_BLOCK)[0]] != CLOSE_BLOCK
    ensures ValidBody(WithUnit(u, b))
  {
    hide IsPlain;
    match b
    case Last(text) => Prepended(u, text, CLOSE_BLOCK);
    case Nested(text, inner, rest) =>
      assert (BodyText(b) + CLOSE_BLOCK)[0] == (text + OPEN_BLOCK)[0];
      Prepended(u, text, OPEN_BLOCK);
  }

  /** A scan that comes back to depth zero has passed a body and its closing marker. */
  lemma {:induction false} BodyOf(src: seq<unit>, k: nat, depth: nat) returns (b: Body, e: nat)
    requires k <= |src| && depth > 0 && BlockEnd(src, k, depth) < |src|
    ensures ValidBody(b) && At(src, k, BodyText(b) + CLOSE_BLOCK) && e == k + |BodyText(b)| + 2 <= |src|
    ensures BlockEnd(src, e, depth - 1) == BlockEnd(src, k, depth)
    decreases |src| - k
  {
    hide ValidBody, At;
    TwoAt(src, k, SLASH, STAR);
    TwoAt(src, k, STAR, SLASH);
    if At(src, k, OPEN_BLOCK) {
      var inner, m := BodyOf(src, k + 2, depth + 1);
      var rest;
      rest, e := BodyOf(src, m, depth);
      b := Nested([], inner, rest);
      NestedStands(src, k, inner, rest);
    } else if At(src, k, CLOSE_BLOCK) {
      b, e := Last([]), k + 2;
      EmptyBody();
    } else {
      var c;
      c, e := BodyOf(src, k + 1, depth);
      b := WithUnit(src[k], c);
      var tail := BodyText(c) + CLOSE_BLOCK;
      AtIndex(src, k + 1, tail, 0);
      OneAt(src, k, src[k]);
      AtSplit(src, k, [src[k]], tail);
      WithUnitText(src[k], c);
      assert BodyText(b) + CLOSE_BLOCK == [src[k]] + tail;
      WithUnitValid(src[k], c);
    }
  }

  lemma EmptyBody()
    ensures ValidBody(Last([])) && BodyText(Last([])) + CLOSE_BLOCK == CLOSE_BLOCK
  {
  }

  lemma NestedStands(src: seq<unit>, k: nat, inner: Body, rest: Body)
    requires ValidBody(inner) && ValidBody(rest) && At(src, k, OPEN_BLOCK)
    requires At(src, k + 2, BodyText(inner) + CLOSE_BLOCK)
    requires At(src, k + 2 + |BodyText(inner)| + 2, BodyText(rest) + CLOSE_BLOCK)
    ensures ValidBody(Nested([], inner, rest))
    ensures At(src, k, BodyText(Nested([], inner, rest)) + CLOSE_BLOCK)
    ensures |BodyText(Nested([], inner, rest))| == 2 + |BodyText(inner)| + 2 + |BodyText(rest)|
  {
    hide At;
    var a, c := BodyText(inner) + CLOSE_BLOCK, BodyText(rest) + CLOSE_BLOCK;
    AtSplit(src, k + 2, a, c);
    AtSplit(src, k, OPEN_BLOCK, a + c);
    assert BodyText(Nested([], inner, rest)) + CLOSE_BLOCK == OPEN_BLOCK + (a + c);
  }

  lemma BlockStands(src: seq<unit>, i: nat) returns (p: Piece)
    requires At(src, i, OPEN_BLOCK) && BlockEnd(src, i + 2, 1) < |src|
    ensures Stands(src, i, p)
  {
    hide ValidBody, At;
    var b, e := BodyOf(src, i + 2, 1);
    AtSplit(src, i, OPEN_BLOCK, BodyText(b) + CLOSE_BLOCK);
    p := Block(b);
  }

  lemma {:induction false} ItemsOf(src: seq<unit>, k: nat) returns (xs: seq<Item>)
    requires StringEnd(src, k) < |src|
    ensures ValidItems(xs) && At(src, k, ItemsText(xs) + [Utf16('"')])
    decreases |src| - k
  {
    hide At;
    if src[k] == QUOTE {
      xs := [];
      OneAt(src, k, QUOTE);
      assert ItemsText([]) + [QUOTE] == [QUOTE];
    } else {
      var x := if src[k] == BACKSLASH then Escape(src[k + 1]) else Plain(src[k]);
      var first := ItemText(x);
      var ys := ItemsOf(src, k + |first|);
      xs := [x] + ys;
      OneAt(src, k, src[k]);
      if src[k] == BACKSLASH { TwoAt(src, k, BACKSLASH, src[k + 1]); }
      AtSplit(src, k, first, ItemsText(ys) + [QUOTE]);
      assert xs[0] == x && xs[1..] == ys;
      assert ItemsText(xs) + [QUOTE] == first + (ItemsText(ys) + [QUOTE]);
    }
  }

  lemma StringStands(src: seq<unit>, i: nat) returns (p: Piece)
    requires i < |src| && StartsString(src, i) && StringEnd(src, if src[i] == Utf16('"') then i + 1 else i + 2) < |src|
    ensures Stands(src, i, p)
  {
    AfterIdentIff(src, i);
    hide At, ValidItems, ItemsText, IsIdent, StringEnd, Opens;
    var prefix := if src[i] == QUOTE then [] else [src[i]];
    var xs := ItemsOf(src, i + |prefix| + 1);
    StringOpening(src, i, prefix);
    Joined(src, i, prefix, [QUOTE], ItemsText(xs) + [QUOTE]);
    p := Str(prefix, xs);
  }

  lemma StringOpening(src: seq<unit>, i: nat, prefix: seq<unit>)
    requires i < |src| && (prefix == [] || prefix == [src[i]]) && Unit(src, i + |prefix|) == Utf16('"')
    ensures At(src, i, prefix + [Utf16('"')])
  {
    assert src[i..i + |prefix| + 1] == prefix + [QUOTE];
  }

  lemma Joined(src: seq<unit>, i: nat, a: seq<unit>, b: seq<unit>, c: seq<unit>)
    requires At(src, i, a + b) && At(src, i + |a| + |b|, c)
    ensures At(src, i, a + (b + c))
  {
    hide At;
    AtSplit(src, i, a + b, c);
    assert a + b + c == a + (b + c);
  }

  lemma RawStands(src: seq<unit>, i: nat) returns (p: Piece)
    requires i < |src| && StartsRaw(src, i) && RawMove(src, i).blank && RawMove(src, i).next < |src|
    ensures Stands(src, i, p)
  {
    AfterIdentIff(src, i);
    hide At, IsIdent, ValidRawBody, Hashes, Closing;
    var prefix := if src[i] == LOWER_R then [LOWER_R] else [src[i], LOWER_R];
    var k := HashesEnd(src, i + |prefix|);
    var n: nat := k - (i + |prefix|);
    RawAt(src, i, prefix, n);
    var body := RawBodyOf(src, k, n);
    p := Raw(prefix, n, body);
    RawJoined(src, i, prefix, n, body);
  }

  lemma RawJoined(src: seq<unit>, i: nat, prefix: seq<unit>, n: nat, body: seq<unit>)
    requires At(src, i, prefix + (Hashes(n) + [Utf16('"')])) && At(src, i + |prefix| + n + 1, body + RawClose(n))
    ensures At(src, i, prefix + (Hashes(n) + ([Utf16('"')] + (body + RawClose(n)))))
  {
    hide At, Hashes, Closing;
    var opening, tail := prefix + (Hashes(n) + [QUOTE]), body + RawClose(n);
    AtSplit(src, i, opening, tail);
    assert opening + tail == prefix + (Hashes(n) + ([QUOTE] + tail));
  }

  lemma RawBodyOf(src: seq<unit>, quote: nat, n: nat) returns (body: seq<unit>)
    requires quote < |src| && RawEnd(src, quote, n) < |src|
    ensures ValidRawBody(body, n) && At(src, quote + 1, body + RawClose(n))
  {
    ClosingIs(n);
    hide Closing;
    var start, end := quote + 1, Find(src, RawClose(n), quote + 1);
    body := src[start..end];
    var all := body + RawClose(n);
    SliceAt(src, start, end);
    AtSplit(src, start, body, RawClose(n));
    assert src[start..start + |all|] == all;
    forall j: nat | j < |body| ensures !At(all, j, RawClose(n)) {
      assert !At(src, start + j, RawClose(n));
      if j + n + 1 <= |all| { SliceOfSlice(src, start, start + |all|, j, j + n + 1); }
    }
  }

  lemma CharStands(src: seq<unit>, i: nat) returns (p: Piece)
    requires OpensChar(src, i)
    ensures Stands(src, i, p)
  {
    AfterIdentIff(src, i);
    hide At, IsCharContent, IsIdent;
    var prefix :| IsCharPrefix(prefix) && (prefix != [] ==> !AfterIdent(src, i)) && At(src, i, prefix + [APOSTROPHE]) && ClosesAfter(src, i + |prefix|);
    var t :| IsCharContent(t) && At(src, i + |prefix| + 1, t + [APOSTROPHE]);
    Joined(src, i, prefix, [APOSTROPHE], t + [APOSTROPHE]);
    p := Char(prefix, t);
  }

  /** What is never closed is blanked to the end. */
  lemma UnclosedToEnd(src: seq<unit>, i: nat)
    requires i < |src| && Unclosed(src, i)
    ensures Step(src, i).blank && Step(src, i).next >= |src|
  {
    hide At, Opens, Stands, StringEnd, BlockEnd, LineEnd, StartsString, StartsRaw, RawMove, OpensChar, StartsChar, CharMove;
    BlanksIffOpens(src, i);
    TwoAt(src, i, SLASH, SLASH);
    TwoAt(src, i, SLASH, STAR);
    CharIff(src, i);
    var p: Piece;
    if Step(src, i).next < |src| {
      if At(src, i, SLASHES) {
        LineStands(src, i);
      } else if At(src, i, OPEN_BLOCK) {
        p := BlockStands(src, i);
      } else if StartsRaw(src, i) {
        p := RawStands(src, i);
      } else if StartsString(src, i) {
        p := StringStands(src, i);
      } else {
        p := CharStands(src, i);
      }
    }
  }

  // ----- the theorem

  lemma UnclosedOutput(src: seq<unit>, i: nat)
    requires i < |src| && Unclosed(src, i)
    ensures Output(src, i) == Spaces(src[i..])
  {
    hide Step, Unclosed;
    UnclosedToEnd(src, i);
    assert src[i..|src|] == src[i..];
    assert Output(src, |src|) == [];
    assert Spaces(src[i..]) + [] == Spaces(src[i..]);
  }

  lemma {:induction false} ReadsOutput(src: seq<unit>, i: nat, ps: seq<Piece>, rest: seq<unit>)
    requires i <= |src| && ReadsAs(src, i, ps, rest)
    ensures Output(src, i) == Kept(ps) + Spaces(rest)
    decreases |ps|
  {
    hide Output, Stands, Unclosed, Step, PieceText, Opens;
    if ps == [] {
      if i < |src| { UnclosedOutput(src, i); } else { OutputEnds(src); }
      assert [] + Spaces(rest) == Spaces(rest);
    } else {
      var p, text := ps[0], PieceText(ps[0]);
      PieceIsThere(src, i, p);
      ReadsOutput(src, i + |text|, ps[1..], rest);
      if p.CodeUnit? {
        PlainCodeKept(src, i);
      } else {
        PieceBlanked(src, i, p);
        LiteralOutput(src, i, text);
      }
      var first := if p.CodeUnit? then text else Spaces(text);
      assert first + (Kept(ps[1..]) + Spaces(rest)) == first + Kept(ps[1..]) + Spaces(rest);
    }
  }

  lemma OutputEnds(src: seq<unit>)
    ensures Output(src, |src|) == [] && Spaces([]) == []
  {
  }

  lemma UnitStands(src: seq<unit>, i: nat)
    requires i < |src| && !Opens(src, i)
    ensures Stands(src, i, CodeUnit(src[i]))
  {
    hide Opens;
    OneAt(src, i, src[i]);
  }

  /** Every source reads as code units, comments and literals, the last perhaps unclosed. */
  lemma {:induction false} EverySourceReads(src: seq<unit>, i: nat) returns (ps: seq<Piece>, rest: seq<unit>)
    requires i <= |src|
    ensures ReadsAs(src, i, ps, rest)
    decreases |src| - i
  {
    hide Opens, PieceText;
    if i == |src| || Unclosed(src, i) {
      ps, rest := [], src[i..];
    } else {
      if !Opens(src, i) { UnitStands(src, i); }
      var p :| Stands(src, i, p);
      PieceIsThere(src, i, p);
      var qs;
      qs, rest := EverySourceReads(src, i + |PieceText(p)|);
      ps := [p] + qs;
      assert ps[0] == p && ps[1..] == qs;
    }
  }

  /** The blanker of any source: it reads as pieces, and however it reads, every code unit
      stays, every comment and literal is blanked, and nothing else happens. */
  lemma WholeSource(src: seq<unit>)
    ensures exists ps, rest :: ReadsAs(src, 0, ps, rest)
    ensures forall ps, rest :: ReadsAs(src, 0, ps, rest) ==> src == SourceText(ps) + rest && Code(src) == Kept(ps) + Spaces(rest)
  {
    hide Output, ReadsAs;
    var some, last := EverySourceReads(src, 0);
    assert src[0..] == src;
    forall ps, rest | ReadsAs(src, 0, ps, rest)
      ensures src == SourceText(ps) + rest && Code(src) == Kept(ps) + Spaces(rest)
    {
      ReadsText(src, 0, ps, rest);
      ReadsOutput(src, 0, ps, rest);
    }
  }
}
