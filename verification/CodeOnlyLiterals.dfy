/** The blanker against the literals of the Rust language: each kind, written out as
    its own grammar, is blanked to its last unit and no further. */
module CodeOnlyLiterals {
  import opened Prelude
  import opened CodeOnly
  import opened Text

  const SLASHES: seq<unit> := [Utf16('/'), Utf16('/')]
  const OPEN_BLOCK: seq<unit> := [Utf16('/'), Utf16('*')]
  const CLOSE_BLOCK: seq<unit> := [Utf16('*'), Utf16('/')]

  /** The scanner blanks exactly this text, which stands at `i`. */
  predicate BlanksExactly(src: seq<unit>, i: nat, text: seq<unit>) {
    At(src, i, text) && text != [] && Step(src, i) == Move(i + |text|, true)
  }

  /** A unit of an identifier: an ASCII letter, a digit or `_`. */
  predicate IsWordUnit(u: unit) {
    || Utf16('0') <= u <= Utf16('9') || Utf16('A') <= u <= Utf16('Z') || Utf16('a') <= u <= Utf16('z')
    || u == Utf16('_')
  }

  predicate AfterIdent(src: seq<unit>, i: nat) {
    1 <= i <= |src| && IsWordUnit(src[i - 1])
  }

  lemma AfterIdentIff(src: seq<unit>, i: nat)
    ensures AfterIdent(src, i) <==> IsIdent(Unit(src, i - 1))
  {
  }

  lemma UnitAt(src: seq<unit>, i: nat, text: seq<unit>, k: nat)
    requires At(src, i, text) && k < |text|
    ensures i + k < |src| && src[i + k] == text[k] && Unit(src, i + k) == text[k] as int
  {
    AtIndex(src, i, text, k);
  }

  // ----- line comments

  predicate NoNewline(t: seq<unit>) {
    forall k :: 0 <= k < |t| ==> t[k] != Utf16('\n')
  }

  lemma LineEndIs(src: seq<unit>, i: nat, r: nat)
    requires i <= r <= |src| && (r < |src| ==> src[r] == Utf16('\n'))
    requires forall k :: i <= k < r ==> src[k] != Utf16('\n')
    ensures LineEnd(src, i) == r
  {
    var q := LineEnd(src, i);
    assert !(q < r) && !(r < q);
  }

  /** A line comment is blanked up to its newline. */
  lemma LineComment(src: seq<unit>, i: nat, body: seq<unit>)
    requires At(src, i, SLASHES + body) && NoNewline(body)
    requires i + 2 + |body| < |src| ==> src[i + 2 + |body|] == Utf16('\n')
    ensures BlanksExactly(src, i, SLASHES + body)
  {
    var text := SLASHES + body;
    forall k | i <= k < i + |text| ensures src[k] != NEWLINE {
      UnitAt(src, i, text, k - i);
      assert text[k - i] == if k - i < 2 then SLASH else body[k - i - 2];
    }
    UnitAt(src, i, text, 0);
    UnitAt(src, i, text, 1);
    LineEndIs(src, i, i + |text|);
  }

  // ----- block comments, nested

  /** The inside of a block comment: plain text, and comments within it. */
  datatype Body = Last(text: seq<unit>) | Nested(text: seq<unit>, inner: Body, rest: Body)

  function BodyText(b: Body): seq<unit> {
    match b
    case Last(text) => text
    case Nested(text, inner, rest) => text + (OPEN_BLOCK + (BodyText(inner) + (CLOSE_BLOCK + BodyText(rest))))
  }

  /** Plain text neither opens nor closes a comment, by itself or with the marker that
      follows it. */
  predicate IsPlain(text: seq<unit>, marker: seq<unit>) {
    forall k: nat :: k < |text| ==> !At(text + marker, k, OPEN_BLOCK) && !At(text + marker, k, CLOSE_BLOCK)
  }

  predicate ValidBody(b: Body) {
    match b
    case Last(text) => IsPlain(text, CLOSE_BLOCK)
    case Nested(text, inner, rest) => IsPlain(text, OPEN_BLOCK) && ValidBody(inner) && ValidBody(rest)
  }

  /** Plain text is passed unit by unit. */
  lemma {:induction false} PlainPassed(src: seq<unit>, k: nat, text: seq<unit>, marker: seq<unit>, depth: nat, n: nat)
    requires |marker| == 2 && depth > 0 && n <= |text|
    requires At(src, k, text + marker) && IsPlain(text, marker)
    ensures k + |text| <= |src|
    ensures BlockEnd(src, k + n, depth) == BlockEnd(src, k + |text|, depth)
    decreases |text| - n
  {
    if n < |text| {
      var all := text + marker;
      UnitAt(src, k, all, n);
      UnitAt(src, k, all, n + 1);
      assert At(all, n, OPEN_BLOCK) <==> all[n..n + 2] == OPEN_BLOCK;
      assert At(all, n, CLOSE_BLOCK) <==> all[n..n + 2] == CLOSE_BLOCK;
      assert all[n..n + 2] == [all[n], all[n + 1]];
      PlainPassed(src, k, text, marker, depth, n + 1);
    }
  }

  lemma MarkerStep(src: seq<unit>, k: nat, depth: nat)
    requires depth > 0
    ensures At(src, k, OPEN_BLOCK) ==> BlockEnd(src, k, depth) == BlockEnd(src, k + 2, depth + 1)
    ensures At(src, k, CLOSE_BLOCK) ==> BlockEnd(src, k, depth) == BlockEnd(src, k + 2, depth - 1)
  {
    if At(src, k, OPEN_BLOCK) {
      UnitAt(src, k, OPEN_BLOCK, 0);
      UnitAt(src, k, OPEN_BLOCK, 1);
    }
    if At(src, k, CLOSE_BLOCK) {
      UnitAt(src, k, CLOSE_BLOCK, 0);
      UnitAt(src, k, CLOSE_BLOCK, 1);
    }
  }

  /** A body and its closing marker bring the scan one level up. */
  lemma {:induction false} BodyPassed(src: seq<unit>, k: nat, b: Body, depth: nat)
    requires ValidBody(b) && depth > 0 && At(src, k, BodyText(b) + CLOSE_BLOCK)
    ensures k + |BodyText(b)| + 2 <= |src|
    ensures BlockEnd(src, k, depth) == BlockEnd(src, k + |BodyText(b)| + 2, depth - 1)
    decreases b
  {
    hide IsPlain, BlockEnd, At;
    match b
    case Last(text) =>
      AtSplit(src, k, text, CLOSE_BLOCK);
      PlainPassed(src, k, text, CLOSE_BLOCK, depth, 0);
      MarkerStep(src, k + |text|, depth);
      AtEnds(src, k, BodyText(b) + CLOSE_BLOCK);
    case Nested(text, inner, rest) =>
      NestedSplit(src, k, text, BodyText(inner), BodyText(rest));
      PlainPassed(src, k, text, OPEN_BLOCK, depth, 0);
      MarkerStep(src, k + |text|, depth);
      BodyPassed(src, k + |text| + 2, inner, depth + 1);
      BodyPassed(src, k + |text| + 2 + |BodyText(inner)| + 2, rest, depth);
  }

  lemma AtEnds(src: seq<unit>, i: nat, text: seq<unit>)
    requires At(src, i, text)
    ensures i + |text| <= |src|
  {
  }

  lemma NestedSplit(src: seq<unit>, k: nat, text: seq<unit>, inner: seq<unit>, rest: seq<unit>)
    requires At(src, k, text + (OPEN_BLOCK + (inner + (CLOSE_BLOCK + rest))) + CLOSE_BLOCK)
    ensures At(src, k, text + OPEN_BLOCK) && At(src, k + |text|, OPEN_BLOCK)
    ensures At(src, k + |text| + 2, inner + CLOSE_BLOCK)
    ensures At(src, k + |text| + 2 + |inner| + 2, rest + CLOSE_BLOCK)
  {
    hide At;
    var tail := rest + CLOSE_BLOCK;
    assert text + (OPEN_BLOCK + (inner + (CLOSE_BLOCK + rest))) + CLOSE_BLOCK
        == (text + OPEN_BLOCK) + ((inner + CLOSE_BLOCK) + tail);
    AtSplit(src, k, text + OPEN_BLOCK, (inner + CLOSE_BLOCK) + tail);
    AtSplit(src, k, text, OPEN_BLOCK);
    AtSplit(src, k + |text| + 2, inner + CLOSE_BLOCK, tail);
  }

  /** A block comment is blanked to its own end, however deep it nests. */
  lemma BlockComment(src: seq<unit>, i: nat, b: Body)
    requires ValidBody(b) && At(src, i, OPEN_BLOCK + (BodyText(b) + CLOSE_BLOCK))
    ensures BlanksExactly(src, i, OPEN_BLOCK + (BodyText(b) + CLOSE_BLOCK))
  {
    hide ValidBody;
    var inside := BodyText(b) + CLOSE_BLOCK;
    AtSplit(src, i, OPEN_BLOCK, inside);
    UnitAt(src, i, OPEN_BLOCK, 0);
    UnitAt(src, i, OPEN_BLOCK, 1);
    BodyPassed(src, i + 2, b, 1);
    assert BlockEnd(src, i + 2 + |inside|, 0) == i + 2 + |inside|;
  }

  // ----- strings

  datatype Item = Plain(u: unit) | Escape(u: unit)

  function ItemText(x: Item): seq<unit> {
    match x
    case Plain(u) => [u]
    case Escape(u) => [Utf16('\\'), u]
  }

  function ItemsText(xs: seq<Item>): seq<unit> {
    if xs == [] then [] else ItemText(xs[0]) + ItemsText(xs[1..])
  }

  predicate ValidItems(xs: seq<Item>) {
    forall k :: 0 <= k < |xs| && xs[k].Plain? ==> xs[k].u != Utf16('"') && xs[k].u != Utf16('\\')
  }

  lemma {:induction false} ItemsPassed(src: seq<unit>, k: nat, xs: seq<Item>)
    requires ValidItems(xs) && At(src, k, ItemsText(xs) + [Utf16('"')])
    ensures StringEnd(src, k) == k + |ItemsText(xs)|
    decreases |xs|
  {
    hide At;
    if xs == [] {
      assert ItemsText(xs) + [Utf16('"')] == [QUOTE];
      UnitAt(src, k, [QUOTE], 0);
    } else {
      var first, rest := ItemText(xs[0]), ItemsText(xs[1..]) + [QUOTE];
      assert ItemsText(xs) + [QUOTE] == first + rest;
      AtSplit(src, k, first, rest);
      UnitAt(src, k, first, 0);
      ItemsPassed(src, k + |first|, xs[1..]);
    }
  }

  predicate IsStringPrefix(p: seq<unit>) {
    p == [] || p == [Utf16('b')] || p == [Utf16('c')]
  }

  /** A string, byte string or C string is blanked to its closing quote; a prefix that
      belongs to an identifier before it is not one. */
  lemma StringLiteral(src: seq<unit>, i: nat, p: seq<unit>, xs: seq<Item>)
    requires IsStringPrefix(p) && (p != [] ==> !AfterIdent(src, i)) && ValidItems(xs)
    requires At(src, i, p + ([Utf16('"')] + (ItemsText(xs) + [Utf16('"')])))
    ensures BlanksExactly(src, i, p + ([Utf16('"')] + (ItemsText(xs) + [Utf16('"')])))
  {
    AfterIdentIff(src, i);
    hide At, StringEnd, ItemsText, ValidItems, IsIdent, AfterIdent, LineEnd, BlockEnd, RawMove, CharMove;
    var inside := ItemsText(xs) + [QUOTE];
    AtSplit(src, i, p, [QUOTE] + inside);
    AtSplit(src, i + |p|, [QUOTE], inside);
    UnitAt(src, i + |p|, [QUOTE], 0);
    if p != [] { UnitAt(src, i, p, 0); }
    ItemsPassed(src, i + |p| + 1, xs);
  }

  // ----- raw strings

  function Hashes(n: nat): (r: seq<unit>)
    ensures |r| == n && forall k :: 0 <= k < n ==> r[k] == Utf16('#')
  {
    seq(n, _ => Utf16('#'))
  }

  /** A quote and as many hashes as the opening had. */
  function RawClose(n: nat): (r: seq<unit>)
    ensures |r| == n + 1 && r[0] == Utf16('"') && forall k :: 1 <= k <= n ==> r[k] == Utf16('#')
  {
    [Utf16('"')] + Hashes(n)
  }

  lemma ClosingIs(n: nat)
    ensures Closing(n) == RawClose(n)
  {
  }

  predicate IsRawPrefix(p: seq<unit>) {
    p == [Utf16('r')] || p == [Utf16('b'), Utf16('r')] || p == [Utf16('c'), Utf16('r')]
  }

  /** The body does not hold the closing, not even with the closing's own start. */
  predicate ValidRawBody(body: seq<unit>, n: nat) {
    forall k: nat :: k < |body| ==> !At(body + RawClose(n), k, RawClose(n))
  }

  lemma HashesEndIs(src: seq<unit>, k: nat, r: nat)
    requires k <= r < |src| && src[r] != Utf16('#') && forall j :: k <= j < r ==> src[j] == Utf16('#')
    ensures HashesEnd(src, k) == r
  {
    var q := HashesEnd(src, k);
    assert !(q < r) && !(r < q);
  }

  lemma RawBodyPassed(src: seq<unit>, quote: nat, body: seq<unit>, n: nat)
    requires quote < |src| && ValidRawBody(body, n) && At(src, quote + 1, body + RawClose(n))
    ensures RawEnd(src, quote, n) == quote + 1 + |body| + n + 1
  {
    var start, all := quote + 1, body + RawClose(n);
    AtSplit(src, start, body, RawClose(n));
    forall k: nat | start <= k < start + |body| ensures !At(src, k, RawClose(n)) {
      var j: nat := k - start;
      assert !At(all, j, RawClose(n));
      assert src[start..start + |all|] == all;
      SliceOfSlice(src, start, start + |all|, j, j + n + 1);
    }
    FindIs(src, RawClose(n), start, start + |body|);
  }

  /** A raw string with any number of hashes is blanked to its own closing. */
  lemma RawString(src: seq<unit>, i: nat, p: seq<unit>, n: nat, body: seq<unit>)
    requires IsRawPrefix(p) && !AfterIdent(src, i) && ValidRawBody(body, n)
    requires At(src, i, p + (Hashes(n) + ([Utf16('"')] + (body + RawClose(n)))))
    ensures BlanksExactly(src, i, p + (Hashes(n) + ([Utf16('"')] + (body + RawClose(n)))))
  {
    AfterIdentIff(src, i);
    hide RawEnd, IsIdent, ValidRawBody, At, Hashes, Closing, LineEnd, BlockEnd, StringEnd, HashesEnd, CharMove;
    var h, q := Hashes(n), [QUOTE] + (body + RawClose(n));
    AtSplit(src, i, p, h + q);
    AtSplit(src, i + |p|, h, q);
    AtSplit(src, i + |p| + n, [QUOTE], body + RawClose(n));
    UnitAt(src, i, p, 0);
    UnitAt(src, i, p, |p| - 1);
    UnitAt(src, i + |p| + n, [QUOTE], 0);
    forall j | i + |p| <= j < i + |p| + n ensures src[j] == HASH {
      UnitAt(src, i + |p|, h, j - i - |p|);
    }
    HashesEndIs(src, i + |p|, i + |p| + n);
    RawBodyPassed(src, i + |p| + n, body, n);
  }

  // ----- characters

  /** What stands between the apostrophes: one unit, a surrogate pair, or an escape of
      at most eleven units whose tail holds no apostrophe. */
  predicate IsCharContent(t: seq<unit>) {
    || (|t| == 1 && t[0] != Utf16('\\'))
    || (|t| == 2 && 0xD800 <= t[0] <= 0xDBFF && t[1] != Utf16('\''))
    || (2 <= |t| <= 11 && t[0] == Utf16('\\') && forall k :: 2 <= k < |t| ==> t[k] != Utf16('\''))
  }

  predicate IsCharPrefix(p: seq<unit>) {
    p == [] || p == [Utf16('b')]
  }

  lemma ApostropheEndIs(src: seq<unit>, k: nat, r: nat)
    requires k <= r < |src| && src[r] == Utf16('\'') && forall j :: k <= j < r ==> src[j] != Utf16('\'')
    ensures ApostropheEnd(src, k) == r
  {
    var q := ApostropheEnd(src, k);
    assert !(q < r) && !(r < q);
  }

  lemma ContentClosed(src: seq<unit>, q: nat, t: seq<unit>)
    requires IsCharContent(t) && At(src, q + 1, t + [Utf16('\'')])
    ensures CharClose(src, q) == Some(q + 1 + |t|)
  {
    hide ApostropheEnd;
    var all := t + [APOSTROPHE];
    forall k | 0 <= k < |all| ensures q + 1 + k < |src| && src[q + 1 + k] == all[k] && Unit(src, q + 1 + k) == all[k] as int {
      UnitAt(src, q + 1, all, k);
    }
    assert all[|t|] == APOSTROPHE && all[0] == t[0];
    if t[0] == BACKSLASH {
      forall j | q + 3 <= j < q + 1 + |t| ensures src[j] != APOSTROPHE {
        assert src[q + 1 + (j - q - 1)] == all[j - q - 1] == t[j - q - 1];
      }
      ApostropheEndIs(src, q + 3, q + 1 + |t|);
    } else if |t| == 2 {
      assert all[1] == t[1];
    }
  }

  /** A character or byte literal is blanked to its closing apostrophe. */
  lemma CharLiteral(src: seq<unit>, i: nat, p: seq<unit>, t: seq<unit>)
    requires IsCharPrefix(p) && (p != [] ==> !AfterIdent(src, i)) && IsCharContent(t)
    requires At(src, i, p + ([Utf16('\'')] + (t + [Utf16('\'')])))
    ensures BlanksExactly(src, i, p + ([Utf16('\'')] + (t + [Utf16('\'')])))
  {
    AfterIdentIff(src, i);
    hide At, CharClose, IsCharContent, IsIdent, AfterIdent, LineEnd, BlockEnd, RawMove, StringEnd;
    AtSplit(src, i, p, [APOSTROPHE] + (t + [APOSTROPHE]));
    AtSplit(src, i + |p|, [APOSTROPHE], t + [APOSTROPHE]);
    UnitAt(src, i + |p|, [APOSTROPHE], 0);
    if p != [] { UnitAt(src, i, p, 0); }
    ContentClosed(src, i + |p|, t);
  }

  /** An escape is blanked exactly when it has at most eleven units. A longer one, such as
      a Unicode escape with underscores between its six digits, is kept as code. */
  lemma EscapedIff(src: seq<unit>, i: nat, p: seq<unit>, t: seq<unit>)
    requires IsCharPrefix(p) && (p != [] ==> !AfterIdent(src, i))
    requires |t| >= 2 && t[0] == Utf16('\\') && forall k :: 2 <= k < |t| ==> t[k] != Utf16('\'')
    requires At(src, i, p + ([Utf16('\'')] + (t + [Utf16('\'')])))
    ensures BlanksExactly(src, i, p + ([Utf16('\'')] + (t + [Utf16('\'')]))) <==> |t| <= 11
    ensures |t| > 11 ==> Step(src, i) == Move(i + |p| + 1, false)
  {
    AfterIdentIff(src, i);
    hide At, IsIdent, AfterIdent, ApostropheEnd, LineEnd, BlockEnd, RawMove, StringEnd;
    if |t| <= 11 {
      CharLiteral(src, i, p, t);
    } else {
      var q, all := i + |p|, t + [APOSTROPHE];
      AtSplit(src, i, p, [APOSTROPHE] + all);
      AtSplit(src, q, [APOSTROPHE], all);
      UnitAt(src, q, [APOSTROPHE], 0);
      if p != [] { UnitAt(src, i, p, 0); }
      forall k | 0 <= k < |all| ensures q + 1 + k < |src| && src[q + 1 + k] == all[k] {
        UnitAt(src, q + 1, all, k);
      }
      assert all[0] == BACKSLASH && all[|t|] == APOSTROPHE;
      forall j | q + 3 <= j < q + 1 + |t| ensures src[j] != APOSTROPHE {
        assert src[q + 1 + (j - q - 1)] == all[j - q - 1] == t[j - q - 1];
      }
      ApostropheEndIs(src, q + 3, q + 1 + |t|);
    }
  }

  /** What blanking makes of a text: its newlines stay, every other unit is a space. */
  function Spaces(t: seq<unit>): (r: seq<unit>)
    ensures |r| == |t|
    ensures forall k :: 0 <= k < |t| ==> r[k] == if t[k] == Utf16('\n') then Utf16('\n') else Utf16(' ')
  {
    seq(|t|, k requires 0 <= k < |t| => if t[k] == Utf16('\n') then Utf16('\n') else Utf16(' '))
  }

  lemma BlankedIs(t: seq<unit>)
    ensures Blanked(t) == Spaces(t)
  {
  }

  /** What a blanked literal leaves in the output. */
  lemma LiteralOutput(src: seq<unit>, i: nat, text: seq<unit>)
    requires BlanksExactly(src, i, text)
    ensures i + |text| <= |src|
    ensures Output(src, i) == Spaces(text) + Output(src, i + |text|)
  {
    hide Step;
  }
}
