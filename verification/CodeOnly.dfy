/** The offset-preserving blanker: comments and literals of a Rust source become
    spaces, newlines stay. Sources are sequences of UTF-16 code units. */
module CodeOnly {
  import opened Prelude

  type unit = u16

  const NEWLINE: unit := 0x0A
  const SPACE: unit := 0x20
  const QUOTE: unit := 0x22
  const HASH: unit := 0x23
  const APOSTROPHE: unit := 0x27
  const STAR: unit := 0x2A
  const SLASH: unit := 0x2F
  const BACKSLASH: unit := 0x5C
  const LOWER_B: unit := 0x62
  const LOWER_C: unit := 0x63
  const LOWER_R: unit := 0x72

  /** `src[k]`, or -1 for `undefined`. */
  function Unit(src: seq<unit>, k: int): int {
    if 0 <= k < |src| then src[k] as int else -1
  }

  predicate IsIdent(u: int) {
    0x30 <= u <= 0x39 || 0x41 <= u <= 0x5A || 0x61 <= u <= 0x7A || u == 0x5F
  }

  predicate IsHighSurrogate(u: int) {
    0xD800 <= u <= 0xDBFF
  }

  /** What the scanner does at one position: go on at `next`, blanking what it passes or not. */
  datatype Move = Move(next: nat, blank: bool)

  // ----- where literals end

  /** First newline at or after `i`, or the end. */
  function LineEnd(src: seq<unit>, i: nat): (r: nat)
    requires i <= |src|
    ensures i <= r <= |src|
    ensures forall k :: i <= k < r ==> src[k] != NEWLINE
    ensures r < |src| ==> src[r] == NEWLINE
    decreases |src| - i
  {
    if i < |src| && src[i] != NEWLINE then LineEnd(src, i + 1) else i
  }

  /** End of a block comment from `k`, `depth` comments deep. */
  function BlockEnd(src: seq<unit>, k: nat, depth: nat): (r: nat)
    requires k <= |src|
    ensures k <= r <= |src|
    decreases |src| - k
  {
    if k == |src| || depth == 0 then k
    else if src[k] == SLASH && Unit(src, k + 1) == STAR then BlockEnd(src, k + 2, depth + 1)
    else if src[k] == STAR && Unit(src, k + 1) == SLASH then BlockEnd(src, k + 2, depth - 1)
    else BlockEnd(src, k + 1, depth)
  }

  function HashesEnd(src: seq<unit>, k: nat): (r: nat)
    requires k <= |src|
    ensures k <= r <= |src|
    ensures forall j :: k <= j < r ==> src[j] == HASH
    ensures r < |src| ==> src[r] != HASH
    decreases |src| - k
  {
    if k < |src| && src[k] == HASH then HashesEnd(src, k + 1) else k
  }

  function Closing(hashes: nat): (r: seq<unit>)
    ensures |r| == hashes + 1 && r[0] == QUOTE && forall k :: 1 <= k <= hashes ==> r[k] == HASH
  {
    [QUOTE] + seq(hashes, _ => HASH)
  }

  /** One past the closing of a raw string whose opening quote is at `k`. */
  function RawEnd(src: seq<unit>, k: nat, hashes: nat): (r: nat)
    requires k < |src|
    ensures k < r <= |src|
  {
    var end := Find(src, Closing(hashes), k + 1);
    if end == |src| then |src| else end + hashes + 1
  }

  /** The closing quote of a string whose content starts at `k`, or past the end: an
      escape skips two units even at the end. */
  function StringEnd(src: seq<unit>, k: nat): (r: nat)
    ensures k <= r && (k <= |src| + 1 ==> r <= |src| + 1)
    ensures r < |src| ==> src[r] == QUOTE
    decreases |src| + 2 - k
  {
    if k < |src| && src[k] != QUOTE then StringEnd(src, if src[k] == BACKSLASH then k + 2 else k + 1) else k
  }

  /** First apostrophe at or after `k`, or the end. */
  function ApostropheEnd(src: seq<unit>, k: nat): (r: nat)
    requires k <= |src|
    ensures k <= r <= |src|
    ensures forall j :: k <= j < r ==> src[j] != APOSTROPHE
    ensures r < |src| ==> src[r] == APOSTROPHE
    decreases |src| - k
  {
    if k < |src| && src[k] != APOSTROPHE then ApostropheEnd(src, k + 1) else k
  }

  /** The closing apostrophe of a character literal opened at `q`, if it is one and no
      lifetime. */
  function CharClose(src: seq<unit>, q: nat): (r: Option<nat>)
    ensures r.Some? ==> q + 2 <= r.value < |src|
  {
    if Unit(src, q + 1) == BACKSLASH as int then
      if q + 3 > |src| then None
      else
        var end := ApostropheEnd(src, q + 3);
        if end < |src| && end - q <= 12 then Some(end) else None
    else if Unit(src, q + 2) == APOSTROPHE as int then Some(q + 2)
    else if Unit(src, q + 3) == APOSTROPHE as int && IsHighSurrogate(Unit(src, q + 1)) then Some(q + 3)
    else None
  }

  // ----- one step

  predicate StartsRaw(src: seq<unit>, i: nat)
    requires i < |src|
  {
    && (src[i] == LOWER_R || ((src[i] == LOWER_B || src[i] == LOWER_C) && Unit(src, i + 1) == LOWER_R as int))
    && !IsIdent(Unit(src, i - 1))
  }

  predicate StartsString(src: seq<unit>, i: nat)
    requires i < |src|
  {
    src[i] == QUOTE
    || ((src[i] == LOWER_B || src[i] == LOWER_C) && Unit(src, i + 1) == QUOTE as int && !IsIdent(Unit(src, i - 1)))
  }

  predicate StartsChar(src: seq<unit>, i: nat)
    requires i < |src|
  {
    src[i] == APOSTROPHE
    || (src[i] == LOWER_B && Unit(src, i + 1) == APOSTROPHE as int && !IsIdent(Unit(src, i - 1)))
  }

  function RawMove(src: seq<unit>, i: nat): (m: Move)
    requires i < |src| && StartsRaw(src, i)
    ensures m.next > i
  {
    var k := HashesEnd(src, if src[i] == LOWER_R then i + 1 else i + 2);
    var first := if src[i] == LOWER_R then i + 1 else i + 2;
    if k < |src| && src[k] == QUOTE then Move(RawEnd(src, k, k - first), true) else Move(i + 1, false)
  }

  function CharMove(src: seq<unit>, i: nat): (m: Move)
    requires i < |src| && StartsChar(src, i)
    ensures m.next > i
  {
    var q := if src[i] == APOSTROPHE then i else i + 1;
    match CharClose(src, q)
    case Some(close) => Move(close + 1, true)
    case None => Move(q + 1, false)
  }

  function Step(src: seq<unit>, i: nat): (m: Move)
    requires i < |src|
    ensures m.next > i
  {
    if src[i] == SLASH && Unit(src, i + 1) == SLASH as int then Move(LineEnd(src, i), true)
    else if src[i] == SLASH && Unit(src, i + 1) == STAR as int then Move(BlockEnd(src, i + 2, 1), true)
    else if StartsRaw(src, i) then RawMove(src, i)
    else if StartsString(src, i) then Move(StringEnd(src, if src[i] == QUOTE then i + 1 else i + 2) + 1, true)
    else if StartsChar(src, i) then CharMove(src, i)
    else Move(i + 1, false)
  }

  // ----- the whole

  function Blanked(piece: seq<unit>): (r: seq<unit>)
    ensures |r| == |piece|
    ensures forall k :: 0 <= k < |piece| ==> r[k] == if piece[k] == NEWLINE then NEWLINE else SPACE
  {
    seq(|piece|, k requires 0 <= k < |piece| => if piece[k] == NEWLINE then NEWLINE else SPACE)
  }

  function Clip(n: nat, src: seq<unit>): (r: nat)
    ensures r <= |src| && (n <= |src| ==> r == n)
  {
    if n <= |src| then n else |src|
  }

  /** The output from position `i` on. */
  function Output(src: seq<unit>, i: nat): (r: seq<unit>)
    requires i <= |src|
    ensures |r| == |src| - i
    decreases |src| - i
  {
    if i == |src| then []
    else
      var m := Step(src, i);
      var end := Clip(m.next, src);
      (if m.blank then Blanked(src[i..end]) else src[i..end]) + Output(src, end)
  }

  /** `codeOnly`. */
  function Code(src: seq<unit>): (r: seq<unit>)
    ensures |r| == |src|
  {
    Output(src, 0)
  }

  // ----- in place

  method Blank(out: array<unit>, from: nat, end: nat)
    modifies out
    ensures forall k :: 0 <= k < out.Length ==>
      out[k] == if from <= k < end && old(out[k]) != NEWLINE then SPACE else old(out[k])
  {
    var k := from;
    while k < end && k < out.Length
      invariant from <= k && (k <= end || k == from)
      invariant forall j :: 0 <= j < out.Length ==>
        out[j] == if from <= j < k && old(out[j]) != NEWLINE then SPACE else old(out[j])
    {
      if out[k] != NEWLINE { out[k] := SPACE; }
      k := k + 1;
    }
  }

  method BlockCommentEnd(src: seq<unit>, i: nat) returns (k: nat)
    requires i + 2 <= |src|
    ensures k == BlockEnd(src, i + 2, 1)
  {
    var depth: nat := 1;
    k := i + 2;
    while k < |src| && depth > 0
      invariant k <= |src| && BlockEnd(src, k, depth) == BlockEnd(src, i + 2, 1)
      decreases |src| - k
    {
      if src[k] == SLASH && Unit(src, k + 1) == STAR {
        depth := depth + 1;
        k := k + 2;
      } else if src[k] == STAR && Unit(src, k + 1) == SLASH {
        depth := depth - 1;
        k := k + 2;
      } else {
        k := k + 1;
      }
    }
  }

  method StringClose(src: seq<unit>, from: nat) returns (k: nat)
    ensures k == StringEnd(src, from)
  {
    k := from;
    while k < |src| && src[k] != QUOTE
      invariant StringEnd(src, k) == StringEnd(src, from)
      decreases |src| + 2 - k
    {
      k := k + (if src[k] == BACKSLASH then 2 else 1);
    }
  }

  /** The array holds the output so far and the source behind it. */
  ghost predicate Holds(out: array<unit>, src: seq<unit>, i: nat)
    reads out
  {
    out.Length == |src| && (i <= |src| ==> out[..i] + Output(src, i) == Code(src) && out[i..] == src[i..])
    && (i > |src| ==> out[..] == Code(src))
  }

  method CodeOnlyInPlace(src: seq<unit>) returns (r: seq<unit>)
    ensures r == Code(src)
  {
    hide StringEnd, BlockEnd, LineEnd, CharClose, RawEnd, HashesEnd, StartsRaw, StartsString, StartsChar, IsIdent;
    var out := new unit[|src|](k requires 0 <= k < |src| => src[k]);
    var i := 0;
    assert out[..0] == [] && out[0..] == src;
    while i < |src|
      invariant Holds(out, src, i) && fresh(out)
      decreases |src| - i
    {
      ghost var before := out[..];
      ghost var at := i;
      var m: Move;
      if src[i] == SLASH && Unit(src, i + 1) == SLASH {
        m := Move(LineEnd(src, i), true);
      } else if src[i] == SLASH && Unit(src, i + 1) == STAR {
        var k := BlockCommentEnd(src, i);
        m := Move(k, true);
      } else if StartsRaw(src, i) {
        m := RawMove(src, i);
      } else if StartsString(src, i) {
        var k := StringClose(src, if src[i] == QUOTE then i + 1 else i + 2);
        m := Move(k + 1, true);
      } else if StartsChar(src, i) {
        m := CharMove(src, i);
      } else {
        m := Move(i + 1, false);
      }
      assert m == Step(src, i);
      if m.blank {
        Blank(out, i, m.next);
      }
      i := m.next;
      Advanced(out[..], before, src, at, m);
    }
    if i == |src| { assert out[..i] + [] == out[..]; }
    return out[..];
  }

  lemma OutputStep(src: seq<unit>, i: nat)
    requires i < |src|
    ensures var m := Step(src, i); var end := Clip(m.next, src);
      Output(src, i) == (if m.blank then Blanked(src[i..end]) else src[i..end]) + Output(src, end)
  {
    hide Step;
  }

  /** One step of the array: the piece passed is blanked or kept. */
  lemma Advanced(now: seq<unit>, before: seq<unit>, src: seq<unit>, i: nat, m: Move)
    requires |now| == |before| == |src| && i < |src| && m == Step(src, i)
    requires before[..i] + Output(src, i) == Code(src) && before[i..] == src[i..]
    requires forall k :: 0 <= k < |src| ==>
      now[k] == if m.blank && i <= k < m.next && before[k] != NEWLINE then SPACE else before[k]
    ensures m.next <= |src| ==> now[..m.next] + Output(src, m.next) == Code(src) && now[m.next..] == src[m.next..]
    ensures m.next > |src| ==> now == Code(src)
  {
    hide Step, Code, Output;
    var end := Clip(m.next, src);
    var piece := if m.blank then Blanked(src[i..end]) else src[i..end];
    forall k | i <= k < |src| ensures before[k] == src[k] {
      assert before[i..][k - i] == src[i..][k - i];
    }
    assert now[..i] == before[..i];
    assert now[i..end] == piece;
    OutputStep(src, i);
    Reassembled(now, before[..i], piece, Output(src, end), i, end);
    assert now[end..] == src[end..];
  }

  lemma Reassembled(now: seq<unit>, head: seq<unit>, piece: seq<unit>, rest: seq<unit>, i: nat, end: nat)
    requires i <= end <= |now| && now[..i] == head && now[i..end] == piece
    ensures now[..end] + rest == head + (piece + rest)
    ensures end == |now| && rest == [] ==> now == head + (piece + rest)
  {
    assert now[..end] == now[..i] + now[i..end];
    if end == |now| { assert now[..end] == now; }
  }
}
