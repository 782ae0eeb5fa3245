/** The grammar of RFC 8259 as derivation trees: every space, spelling and token of a
    document, and the bytes that a tree stands for. */
module JsonGrammar {
  import opened Prelude
  import opened JsonLex
  import opened LiteStrings
  import opened LiteTokens

  datatype Tree =
    | NullWord
    | TrueWord
    | FalseWord
    | Num(token: seq<byte>)
    | Str(pieces: seq<Piece>)
    | Arr(gap: seq<byte>, elems: seq<Elem>)
    | Obj(gap: seq<byte>, members: seq<Mem>)

  /** A value with the space around it. */
  datatype Elem = Elem(before: seq<byte>, value: Tree, after: seq<byte>)

  /** A key with the space around it, and what stands behind the colon. */
  datatype Mem = Mem(before: seq<byte>, key: seq<Piece>, afterKey: seq<byte>, elem: Elem)

  // ----- bytes

  function Text(t: Tree): seq<byte> {
    match t
    case NullWord => [0x6E, 0x75, 0x6C, 0x6C]
    case TrueWord => [0x74, 0x72, 0x75, 0x65]
    case FalseWord => [0x66, 0x61, 0x6C, 0x73, 0x65]
    case Num(token) => token
    case Str(pieces) => Literal(pieces)
    case Arr(gap, elems) => [0x5B] + ((if elems == [] then gap else ElemsText(elems)) + [0x5D])
    case Obj(gap, members) => [0x7B] + ((if members == [] then gap else MemsText(members)) + [0x7D])
  }

  function ElemText(e: Elem): seq<byte> {
    e.before + (Text(e.value) + e.after)
  }

  /** Elements with a comma between two of them. */
  function ElemsText(es: seq<Elem>): seq<byte>
    requires es != []
  {
    if |es| == 1 then ElemText(es[0]) else ElemText(es[0]) + ([0x2C] + ElemsText(es[1..]))
  }

  function MemText(m: Mem): seq<byte> {
    m.before + (Literal(m.key) + (m.afterKey + ([0x3A] + ElemText(m.elem))))
  }

  function MemsText(ms: seq<Mem>): seq<byte>
    requires ms != []
  {
    if |ms| == 1 then MemText(ms[0]) else MemText(ms[0]) + ([0x2C] + MemsText(ms[1..]))
  }

  // ----- the rules

  predicate IsSpace(t: seq<byte>) {
    forall k :: 0 <= k < |t| ==> t[k] == 0x20 || t[k] == 0x09 || t[k] == 0x0A || t[k] == 0x0D
  }

  ghost predicate Valid(t: Tree) {
    match t
    case NullWord => true
    case TrueWord => true
    case FalseWord => true
    case Num(token) => IsNumberToken(token)
    case Str(pieces) => AllValid(pieces)
    case Arr(gap, elems) => IsSpace(gap) && forall k :: 0 <= k < |elems| ==> ValidElem(elems[k])
    case Obj(gap, members) => IsSpace(gap) && forall k :: 0 <= k < |members| ==> ValidMem(members[k])
  }

  ghost predicate ValidElem(e: Elem) {
    IsSpace(e.before) && Valid(e.value) && IsSpace(e.after)
  }

  ghost predicate ValidMem(m: Mem) {
    IsSpace(m.before) && AllValid(m.key) && IsSpace(m.afterKey) && ValidElem(m.elem)
  }

  // ----- trees at a place in a byte string

  /** Containers stand at most `d` deep in the tree, counting only those with content. */
  predicate NestsWithin(t: Tree, d: nat) {
    match t
    case Arr(_, elems) => elems == [] || (d > 0 && forall k :: 0 <= k < |elems| ==> NestsWithin(elems[k].value, d - 1))
    case Obj(_, members) => members == [] || (d > 0 && forall k :: 0 <= k < |members| ==> NestsWithin(members[k].elem.value, d - 1))
    case _ => true
  }

  lemma ByteAt(s: seq<byte>, i: nat, b: byte)
    ensures At(s, i, [b]) <==> i < |s| && s[i] == b
  {
    if i < |s| { assert s[i..i + 1] == [s[i]]; }
  }

  lemma AtEnd(s: seq<byte>, i: nat, t: seq<byte>)
    requires At(s, i, t)
    ensures i + |t| <= |s|
  {
  }

  lemma SpaceSkipped(s: seq<byte>, i: nat, t: seq<byte>)
    requires IsSpace(t) && At(s, i, t)
    ensures i + |t| <= |s| && SkipWs(s, i) == SkipWs(s, i + |t|)
  {
    forall k | i <= k < i + |t| ensures IsWs(s[k]) {
      AtIndex(s, i, t, k - i);
    }
    SkipWsTo(s, i, i + |t|);
  }

  lemma SkippedSpace(s: seq<byte>, i: nat) returns (t: seq<byte>)
    requires i <= |s|
    ensures IsSpace(t) && At(s, i, t) && i + |t| == SkipWs(s, i)
  {
    t := s[i..SkipWs(s, i)];
  }

  lemma NoSpaceHere(s: seq<byte>, i: nat)
    requires i < |s| && !IsWs(s[i])
    ensures SkipWs(s, i) == i
  {
  }

  /** What stands behind a value in a document. */
  predicate Stops(s: seq<byte>, j: nat) {
    j < |s| ==> s[j] == 0x20 || s[j] == 0x09 || s[j] == 0x0A || s[j] == 0x0D || s[j] == 0x2C || s[j] == 0x5D || s[j] == 0x7D
  }

  lemma NumeralOf(token: seq<byte>) returns (n: Numeral)
    requires IsNumberToken(token)
    ensures n.Valid() && n.Text() == token
  {
    n :| n.Valid() && n.Text() == token;
  }

  lemma TokenHead(n: Numeral)
    requires n.Valid()
    ensures n.Text() != [] && (n.Text()[0] == MINUS || IsDigitByte(n.Text()[0]))
  {
    IntStart(n.int_);
  }

  /** Where `depth` more levels are allowed below the depth of the call. */
  predicate Allowed(t: Tree, depth: nat) {
    depth <= MAX_DEPTH && NestsWithin(t, MAX_DEPTH - depth)
  }

  lemma TextNonempty(t: Tree)
    requires Valid(t)
    ensures Text(t) != []
  {
    if t.Num? {
      var n := NumeralOf(t.token);
      TokenHead(n);
    }
  }

  /** The opening, the inside and the closing of a container. */
  lemma Enclosed(s: seq<byte>, i: nat, opening: byte, inside: seq<byte>, closing: byte)
    requires At(s, i, [opening] + (inside + [closing]))
    ensures i + 1 + |inside| < |s| && s[i] == opening && At(s, i + 1, inside + [closing])
    ensures At(s, i + 1, inside) && s[i + 1 + |inside|] == closing
  {
    AtSplit(s, i, [opening], inside + [closing]);
    AtSplit(s, i + 1, inside, [closing]);
    ByteAt(s, i, opening);
    ByteAt(s, i + 1 + |inside|, closing);
  }

  /** Behind the space in front of a value stands a byte that closes nothing. */
  lemma ElemStart(s: seq<byte>, i: nat, e: Elem)
    requires ValidElem(e) && At(s, i, ElemText(e))
    ensures i <= |s| && SkipWs(s, i) == i + |e.before| < |s| && s[i + |e.before|] != 0x5D && s[i + |e.before|] != 0x7D
  {
    hide Valid, ElemsText, MemsText, IsSpace;
    AtSplit(s, i, e.before, Text(e.value) + e.after);
    AtSplit(s, i + |e.before|, Text(e.value), e.after);
    SpaceSkipped(s, i, e.before);
    TextHead(e.value);
    TextNonempty(e.value);
    AtIndex(s, i + |e.before|, Text(e.value), 0);
    NoSpaceHere(s, i + |e.before|);
  }

  lemma TextHead(t: Tree)
    requires Valid(t)
    ensures Text(t) != [] && !IsWs(Text(t)[0]) && Text(t)[0] != 0x5D && Text(t)[0] != 0x7D
  {
    hide ElemsText, MemsText, Spelled;
    if t.Num? {
      var n := NumeralOf(t.token);
      TokenHead(n);
    }
  }

  lemma ElemsStart(s: seq<byte>, i: nat, es: seq<Elem>)
    requires es != [] && ValidElem(es[0]) && At(s, i, ElemsText(es) + [0x5D])
    ensures i <= |s| && SkipWs(s, i) < |s| && s[SkipWs(s, i)] != 0x5D
  {
    hide ValidElem, ElemText, At;
    AtSplit(s, i, ElemsText(es), [0x5D]);
    if |es| > 1 { AtSplit(s, i, ElemText(es[0]), [0x2C] + ElemsText(es[1..])); }
    ElemStart(s, i, es[0]);
  }

  lemma StopsBehind(s: seq<byte>, j: nat, after: seq<byte>)
    requires IsSpace(after) && At(s, j, after) && Stops(s, j + |after|)
    ensures Stops(s, j)
  {
    if after != [] { AtIndex(s, j, after, 0); }
  }

  /** A first part, a comma, the other parts and the closer. */
  lemma CommaSplit(s: seq<byte>, i: nat, first: seq<byte>, rest: seq<byte>, closer: byte)
    ensures At(s, i, first + ([0x2C] + rest) + [closer]) <==>
      At(s, i, first) && i + |first| < |s| && s[i + |first|] == 0x2C && At(s, i + |first| + 1, rest + [closer])
  {
    hide At;
    AtSplit(s, i + |first| + 1, rest, [closer]);
    AtSplit(s, i + |first|, [0x2C], rest);
    AtSplit(s, i, first, [0x2C] + rest);
    AtSplit(s, i, first + ([0x2C] + rest), [closer]);
    ByteAt(s, i + |first|, 0x2C);
  }

  /** The key, the colon and the value of one member, taken apart. */
  lemma MemSplit(s: seq<byte>, i: nat, m: Mem)
    requires At(s, i, MemText(m))
    ensures var k := i + |m.before|; var c := k + |Literal(m.key)| + |m.afterKey|;
      && At(s, i, m.before) && At(s, k, Literal(m.key)) && At(s, k + |Literal(m.key)|, m.afterKey)
      && c < |s| && s[c] == 0x3A && At(s, c + 1, ElemText(m.elem)) && c + 1 + |ElemText(m.elem)| == i + |MemText(m)|
  {
    hide At, Literal, ElemText;
    var k := i + |m.before|;
    var a := k + |Literal(m.key)|;
    AtSplit(s, i, m.before, Literal(m.key) + (m.afterKey + ([0x3A] + ElemText(m.elem))));
    AtSplit(s, k, Literal(m.key), m.afterKey + ([0x3A] + ElemText(m.elem)));
    AtSplit(s, a, m.afterKey, [0x3A] + ElemText(m.elem));
    AtSplit(s, a + |m.afterKey|, [0x3A], ElemText(m.elem));
    ByteAt(s, a + |m.afterKey|, 0x3A);
  }

  lemma KeyHead(s: seq<byte>, i: nat, ps: seq<Piece>)
    requires At(s, i, Literal(ps))
    ensures i < |s| && s[i] == 0x22
  {
    AtIndex(s, i, Literal(ps), 0);
  }

  lemma MemStart(s: seq<byte>, i: nat, m: Mem)
    requires ValidMem(m) && At(s, i, MemText(m))
    ensures i <= |s| && SkipWs(s, i) == i + |m.before| < |s| && s[i + |m.before|] == 0x22
  {
    hide ValidElem, MemText, IsSpace;
    MemSplit(s, i, m);
    SpaceSkipped(s, i, m.before);
    KeyHead(s, i + |m.before|, m.key);
    NoSpaceHere(s, i + |m.before|);
  }

  lemma MemsStart(s: seq<byte>, i: nat, ms: seq<Mem>)
    requires ms != [] && ValidMem(ms[0]) && At(s, i, MemsText(ms) + [0x7D])
    ensures i <= |s| && SkipWs(s, i) < |s| && s[SkipWs(s, i)] != 0x7D
  {
    hide ValidMem, MemText, At;
    AtSplit(s, i, MemsText(ms), [0x7D]);
    if |ms| > 1 { AtSplit(s, i, MemText(ms[0]), [0x2C] + MemsText(ms[1..])); }
    MemStart(s, i, ms[0]);
  }

  lemma EmptySpace()
    ensures IsSpace([])
  {
  }

  lemma SpaceConcat(gap: seq<byte>, e: Elem)
    requires IsSpace(gap) && ValidElem(e)
    ensures ValidElem(e.(before := gap + e.before))
  {
    hide Valid;
  }

  lemma ElemAt(s: seq<byte>, i: nat, e: Elem)
    requires At(s, i, e.before + Text(e.value)) && At(s, i + |e.before| + |Text(e.value)|, e.after)
    ensures At(s, i, ElemText(e)) && |ElemText(e)| == |e.before| + |Text(e.value)| + |e.after|
  {
    hide At, Text;
    AtSplit(s, i, e.before + Text(e.value), e.after);
    Regroup(e.before, Text(e.value), e.after, [], [], []);
  }

  lemma SpaceConcatMem(gap: seq<byte>, m: Mem)
    requires IsSpace(gap) && ValidMem(m)
    ensures ValidMem(m.(before := gap + m.before))
  {
    hide ValidElem;
  }

  lemma KeyText(t: Tree)
    requires t.Str?
    ensures Text(t) == Literal(t.pieces)
  {
  }

  lemma AtNothing(s: seq<byte>, i: nat)
    requires i <= |s|
    ensures At(s, i, [])
  {
  }

  lemma MemJoins(s: seq<byte>, i: nat, m: Mem)
    requires At(s, i, m.before) && At(s, i + |m.before|, Literal(m.key))
    requires At(s, i + |m.before| + |Literal(m.key)|, m.afterKey)
    requires var c := i + |m.before| + |Literal(m.key)| + |m.afterKey|; At(s, c, [0x3A]) && At(s, c + 1, ElemText(m.elem))
    ensures At(s, i, MemText(m))
    ensures |MemText(m)| == |m.before| + |Literal(m.key)| + |m.afterKey| + 1 + |ElemText(m.elem)|
  {
    hide At, Literal, ElemText;
    var k := i + |m.before|;
    var a := k + |Literal(m.key)|;
    AtSplit(s, a + |m.afterKey|, [0x3A], ElemText(m.elem));
    AtSplit(s, a, m.afterKey, [0x3A] + ElemText(m.elem));
    AtSplit(s, k, Literal(m.key), m.afterKey + ([0x3A] + ElemText(m.elem)));
    AtSplit(s, i, m.before, Literal(m.key) + (m.afterKey + ([0x3A] + ElemText(m.elem))));
  }

  /** Space behind a member becomes its value's. */
  lemma SpaceBehind(s: seq<byte>, i: nat, m: Mem, after: seq<byte>)
    requires m.elem.after == [] && ValidMem(m) && IsSpace(after)
    requires At(s, i, MemText(m)) && At(s, i + |MemText(m)|, after)
    ensures var n := m.(elem := m.elem.(after := after));
      ValidMem(n) && At(s, i, MemText(n)) && |MemText(n)| == |MemText(m)| + |after|
  {
    hide At, Literal, Text, Valid, AllValid, IsSpace;
    var n := m.(elem := m.elem.(after := after));
    AtSplit(s, i, MemText(m), after);
    var v := Text(m.elem.value);
    assert v + [] == v;
    Regroup(m.before, Literal(m.key), m.afterKey, [0x3A], m.elem.before, v);
    assert MemText(m) + after == MemText(n);
  }

  lemma EndSkipped(s: seq<byte>)
    ensures SkipWs(s, |s|) == |s|
  {
  }

  lemma SpaceConcatElem(gap: seq<byte>, before: seq<byte>, t: Tree, after: seq<byte>)
    requires IsSpace(gap) && IsSpace(before) && Valid(t) && IsSpace(after)
    ensures ValidElem(Elem(gap + before, t, after))
  {
    hide Valid;
  }
}
