/** Printing and reading back. Reading a printed value succeeds exactly when its
    objects have distinct keys and it nests at most 64 deep; the value that comes
    back is then `Mangled(v)`, in which every non-ASCII character standing after the
    first escaped character of its string has become the Latin-1 reading of its
    UTF-8 bytes. Hence the exact round-trip condition. */
module JsonRoundTrip {
  import opened Prelude
  import opened JsonLex
  import opened Json
  import opened JsonWriter
  import Utf8
  import Decimal

  // ----- texts inside byte strings

  /** The UTF-8 bytes of `t` occur in `b` at index `i`. */
  predicate AtText(b: seq<byte>, i: nat, t: string) {
    At(b, i, Utf8.Encode(t))
  }

  function Len(t: string): nat {
    |Utf8.Encode(t)|
  }

  lemma AtTextSplit(b: seq<byte>, i: nat, t: string, u: string)
    ensures Len(t + u) == Len(t) + Len(u)
    ensures AtText(b, i, t + u) <==> AtText(b, i, t) && AtText(b, i + Len(t), u)
  {
    hide At, Utf8.Encode;
    Utf8.EncodeConcat(t, u);
    AtSplit(b, i, Utf8.Encode(t), Utf8.Encode(u));
  }

  lemma AtAscii(b: seq<byte>, i: nat, t: string)
    requires Utf8.IsAscii(t) && AtText(b, i, t)
    ensures Len(t) == |t| && i + |t| <= |b|
    ensures forall k :: 0 <= k < |t| ==> b[i + k] == t[k] as int
    ensures b[i..i + |t|] == Utf8.Codes(t)
  {
    Utf8.EncodeAscii(t);
    forall k | 0 <= k < |t| ensures b[i + k] == t[k] as int {
      AtIndex(b, i, Utf8.Encode(t), k);
    }
  }

  lemma AtChar(b: seq<byte>, i: nat, c: char)
    requires c as int < 0x80 && AtText(b, i, [c])
    ensures Len([c]) == 1 && i < |b| && b[i] == c as int
  {
    AtAscii(b, i, [c]);
  }

  // ----- what reading back does to a text

  function MangledText(s: string): (r: string)
    ensures s == [] <==> r == []
    ensures s != [] ==> r[0] == s[0]
  {
    if s == [] then []
    else [s[0]] + if NeedsEscape(s[0]) then Utf8.Latin1(Utf8.Encode(s[1..])) else MangledText(s[1..])
  }

  /** No non-ASCII character stands after an escaped one. */
  predicate Survives(s: string) {
    forall i, j :: 0 <= i < j < |s| && NeedsEscape(s[i]) ==> s[j] as int < 0x80
  }

  lemma {:induction false} MangledTextFixed(s: string)
    ensures MangledText(s) == s <==> Survives(s)
  {
    if s != [] {
      var t := s[1..];
      assert MangledText(s)[1..] == s[1..] <==> MangledText(s) == s;
      assert forall k :: 0 <= k < |t| ==> t[k] == s[k + 1];
      if NeedsEscape(s[0]) {
        Utf8.Latin1OfEncode(t);
        if Survives(s) {
          forall k | 0 <= k < |t| ensures t[k] as int < 0x80 { assert s[k + 1] == t[k]; }
        }
        if Utf8.IsAscii(t) {
          forall j | 0 < j < |s| ensures s[j] as int < 0x80 { assert s[j] == t[j - 1]; }
        }
      } else {
        MangledTextFixed(t);
        if Survives(t) {
          forall i, j | 0 <= i < j < |s| && NeedsEscape(s[i]) ensures s[j] as int < 0x80 {
            assert s[i] == t[i - 1] && s[j] == t[j - 1];
          }
        }
        if Survives(s) {
          forall i, j | 0 <= i < j < |t| && NeedsEscape(t[i]) ensures t[j] as int < 0x80 {
            assert s[i + 1] == t[i] && s[j + 1] == t[j];
          }
        }
      }
    }
  }

  /** Mangling never makes two different texts equal. */
  lemma {:induction false} MangledTextInjective(s: string, t: string)
    requires MangledText(s) == MangledText(t)
    ensures s == t
  {
    if s != [] {
      assert t != [] && s[0] == t[0];
      assert MangledText(s)[1..] == MangledText(t)[1..];
      if NeedsEscape(s[0]) {
        var a, b := Utf8.Encode(s[1..]), Utf8.Encode(t[1..]);
        assert Utf8.Latin1(a) == MangledText(s)[1..] == Utf8.Latin1(b);
        assert a == b by {
          forall k | 0 <= k < |a| ensures a[k] == b[k] {
            assert Utf8.Latin1(a)[k] as int == a[k] && Utf8.Latin1(b)[k] as int == b[k];
          }
        }
        Utf8.EncodeInjective(s[1..], t[1..]);
      } else {
        MangledTextInjective(s[1..], t[1..]);
      }
      assert s == [s[0]] + s[1..] && t == [t[0]] + t[1..];
    }
  }

  // ----- reading a printed string

  predicate IsRawByte(x: byte) {
    x != QUOTE && x != BACKSLASH && x >= 0x20
  }

  lemma {:induction false} RawSkip(b: seq<byte>, start: nat, pos: nat, escaped: bool, out: string, k: nat)
    requires start <= pos && pos + k <= |b|
    requires forall n :: pos <= n < pos + k ==> IsRawByte(b[n])
    ensures ReadBody(b, start, pos, escaped, out)
         == ReadBody(b, start, pos + k, escaped, if escaped then out + Utf8.Latin1(b[pos..pos + k]) else out)
    decreases k
  {
    if k == 0 {
      assert out + Utf8.Latin1(b[pos..pos]) == out;
    } else {
      var next := if escaped then out + [b[pos] as char] else out;
      RawSkip(b, start, pos + 1, escaped, next, k - 1);
      assert Utf8.Latin1(b[pos..pos + k]) == [b[pos] as char] + Utf8.Latin1(b[pos + 1..pos + k]);
      Regroup(out, [b[pos] as char], Utf8.Latin1(b[pos + 1..pos + k]), "", "", "");
    }
  }

  /** A printed character that needed no escape is a run of raw bytes. */
  lemma PlainBytes(b: seq<byte>, i: nat, c: char)
    requires !NeedsEscape(c) && AtText(b, i, EscapeChar(c))
    ensures Len(EscapeChar(c)) == |Utf8.EncodeChar(c)| && i + Len(EscapeChar(c)) <= |b|
    ensures b[i..i + Len(EscapeChar(c))] == Utf8.EncodeChar(c)
    ensures forall n :: i <= n < i + Len(EscapeChar(c)) ==> IsRawByte(b[n])
  {
    hide Utf8.Encode;
    Utf8.EncodeOne(c);
    var g := Utf8.EncodeChar(c);
    forall n | i <= n < i + |g| ensures IsRawByte(b[n]) {
      AtIndex(b, i, g, n - i);
    }
  }

  lemma EscapeShape(c: char)
    requires NeedsEscape(c)
    ensures var e := EscapeChar(c);
      && Utf8.IsAscii(e) && e[0] == '\\'
      && (|e| == 2 ==> e[1] != 'u' && ShortEscape(e[1] as int) == Some(c))
      && (|e| != 2 ==> c as int < 0x20 && e == "\\u" + HexDigits(c as int))
  {
  }

  /** A printed escape reads back as its character. */
  lemma ReadPrintedEscape(b: seq<byte>, i: nat, c: char)
    requires NeedsEscape(c) && AtText(b, i, EscapeChar(c))
    ensures Len(EscapeChar(c)) >= 2 && i + Len(EscapeChar(c)) <= |b|
    ensures b[i] == BACKSLASH
    ensures ReadEscape(b, i + 1) == Ok((c, i + Len(EscapeChar(c))))
  {
    hide Utf8.Encode, Hex4, AtText, EscapeChar, NeedsEscape, ShortEscape, HexDigits;
    var e := EscapeChar(c);
    EscapeShape(c);
    AtAscii(b, i, e);
    assert b[i + 0] == e[0] as int && b[i + 1] == e[1] as int;
    if |e| != 2 {
      assert e[1] == 'u';
      HexDigitsRead(b, i, c, e);
      ReadControlHex(b, i + 2, c as int);
    }
  }

  lemma HexDigitsRead(b: seq<byte>, i: nat, c: char, e: string)
    requires c as int < 0x20 && e == "\\u" + HexDigits(c as int)
    requires i + 6 <= |b| && forall k :: 0 <= k < 6 ==> b[i + k] == e[k] as int
    ensures HexDigit(b[i + 2]) == Some(0) && HexDigit(b[i + 3]) == Some(0)
    ensures HexDigit(b[i + 4]) == Some(c as int / 0x10) && HexDigit(b[i + 5]) == Some(c as int % 0x10)
  {
    hide HexDigit;
    var d := HexDigits(c as int);
    assert e[2] == d[0] && e[3] == d[1] && e[4] == d[2] && e[5] == d[3];
    assert b[i + 2] == e[2] as int && b[i + 3] == e[3] as int && b[i + 4] == e[4] as int && b[i + 5] == e[5] as int;
    assert c as int / 0x1000 == 0 && c as int / 0x100 == 0;
  }

  lemma ReadControlHex(b: seq<byte>, i: nat, n: nat)
    requires n < 0x20 && i + 4 <= |b|
    requires HexDigit(b[i]) == Some(0) && HexDigit(b[i + 1]) == Some(0)
    requires HexDigit(b[i + 2]) == Some(n / 0x10) && HexDigit(b[i + 3]) == Some(n % 0x10)
    ensures Hex4(b, i) == Ok((n, i + 4))
  {
    HexGroupStep(b, i, 4, 0, 0);
    HexGroupStep(b, i + 1, 3, 0, 0);
    HexGroupStep(b, i + 2, 2, 0, n / 0x10);
    HexGroupStep(b, i + 3, 1, n / 0x10, n % 0x10);
    assert n / 0x10 * 0x10 + n % 0x10 == n;
  }

  lemma HexGroupStep(b: seq<byte>, i: nat, k: nat, v: nat, d: nat)
    requires i < |b| && 0 < k <= 4 && v < HexLimit(4 - k)
    requires HexDigit(b[i]) == Some(d)
    ensures v * 16 + d < HexLimit(4 - (k - 1))
    ensures HexGroup(b, i, k, v) == HexGroup(b, i + 1, k - 1, v * 16 + d)
  {
  }

  lemma StepEscape(b: seq<byte>, start: nat, i: nat, escaped: bool, out: string, c: char)
    requires start <= i && NeedsEscape(c) && AtText(b, i, EscapeChar(c))
    requires i <= |b| && Flushed(b, start, i, escaped, out).Ok?
    ensures i + Len(EscapeChar(c)) <= |b|
    ensures ReadBody(b, start, i, escaped, out)
         == ReadBody(b, start, i + Len(EscapeChar(c)), true, Flushed(b, start, i, escaped, out).value + [c])
  {
    hide EscapeChar, Utf8.Encode, AtText, Len, NeedsEscape, ReadEscape, Flushed;
    ReadPrintedEscape(b, i, c);
  }

  lemma StepPlain(b: seq<byte>, start: nat, i: nat, escaped: bool, out: string, c: char)
    requires start <= i && !NeedsEscape(c) && AtText(b, i, EscapeChar(c))
    ensures i + Len(EscapeChar(c)) <= |b|
    ensures b[i..i + Len(EscapeChar(c))] == Utf8.EncodeChar(c)
    ensures ReadBody(b, start, i, escaped, out)
         == ReadBody(b, start, i + Len(EscapeChar(c)), escaped, if escaped then out + Utf8.Latin1(Utf8.EncodeChar(c)) else out)
  {
    PlainBytes(b, i, c);
    RawSkip(b, start, i, escaped, out, Len(EscapeChar(c)));
  }

  lemma Latin1Encode(c: char, rest: string)
    ensures Utf8.Latin1(Utf8.Encode([c] + rest)) == Utf8.Latin1(Utf8.EncodeChar(c)) + Utf8.Latin1(Utf8.Encode(rest))
    ensures NeedsEscape(c) ==> Utf8.Latin1(Utf8.EncodeChar(c)) == [c]
  {
    assert ([c] + rest)[1..] == rest;
    if NeedsEscape(c) {
      assert Utf8.EncodeChar(c) == [c as int];
    }
  }

  /** A plain character before any escape extends the decoded slice. */
  lemma StepHead(b: seq<byte>, start: nat, i: nat, done: string, c: char)
    requires start <= i && !NeedsEscape(c) && AtText(b, i, EscapeChar(c))
    requires i <= |b| && b[start..i] == Utf8.Encode(done)
    ensures i + Len(EscapeChar(c)) <= |b|
    ensures b[start..i + Len(EscapeChar(c))] == Utf8.Encode(done + [c])
    ensures ReadBody(b, start, i, false, "") == ReadBody(b, start, i + Len(EscapeChar(c)), false, "")
  {
    hide EscapeChar, Utf8.EncodeChar, AtText, NeedsEscape, ReadBody, Utf8.Encode;
    StepPlain(b, start, i, false, "", c);
    Utf8.EncodeConcat(done, [c]);
    Utf8.EncodeOne(c);
    var j := i + Len(EscapeChar(c));
    assert b[start..j] == b[start..i] + b[i..j];
  }

  lemma TextUnfolds(t: string)
    requires t != []
    ensures Escaped(t) == EscapeChar(t[0]) + Escaped(t[1..])
    ensures MangledText(t) == [t[0]] + if NeedsEscape(t[0]) then Utf8.Latin1(Utf8.Encode(t[1..])) else MangledText(t[1..])
    ensures Utf8.Latin1(Utf8.Encode(t)) == Utf8.Latin1(Utf8.EncodeChar(t[0])) + Utf8.Latin1(Utf8.Encode(t[1..]))
  {
    assert t == [t[0]] + t[1..];
    Latin1Encode(t[0], t[1..]);
  }

  lemma BodyEnd(b: seq<byte>, start: nat, i: nat, escaped: bool, out: string)
    requires start <= i < |b| && b[i] == QUOTE
    requires Flushed(b, start, i, escaped, out).Ok?
    ensures ReadBody(b, start, i, escaped, out) == Ok((Flushed(b, start, i, escaped, out).value, i + 1))
  {
  }

  lemma FlushedHead(b: seq<byte>, start: nat, i: nat, done: string)
    requires start <= i <= |b| && b[start..i] == Utf8.Encode(done)
    ensures Flushed(b, start, i, false, "") == Ok(done)
  {
    Utf8.DecodeEncode(done);
    assert "" + done == done;
  }

  lemma EmptyTail(b: seq<byte>, start: nat, i: nat, out: string)
    requires start <= i && i + Len(Escaped("")) < |b| && b[i + Len(Escaped(""))] == QUOTE
    ensures ReadBody(b, start, i, true, out) == Ok((out + Utf8.Latin1(Utf8.Encode("")), i + Len(Escaped("")) + 1))
  {
    assert out + Utf8.Latin1([]) == out;
    BodyEnd(b, start, i, true, out);
  }

  lemma EmptyHead(b: seq<byte>, start: nat, i: nat, done: string)
    requires start <= i && i + Len(Escaped("")) < |b| && b[i + Len(Escaped(""))] == QUOTE
    requires b[start..i] == Utf8.Encode(done)
    ensures ReadBody(b, start, i, false, "") == Ok((done + MangledText(""), i + Len(Escaped("")) + 1))
  {
    hide Flushed;
    FlushedHead(b, start, i, done);
    BodyEnd(b, start, i, false, "");
    assert done == done + "";
  }

  lemma StepTail(b: seq<byte>, start: nat, i: nat, out: string, c: char)
    requires start <= i <= |b| && AtText(b, i, EscapeChar(c))
    ensures i + Len(EscapeChar(c)) <= |b|
    ensures ReadBody(b, start, i, true, out)
         == ReadBody(b, start, i + Len(EscapeChar(c)), true, out + Utf8.Latin1(Utf8.EncodeChar(c)))
  {
    hide EscapeChar, Utf8.EncodeChar, AtText, NeedsEscape, ReadBody, Utf8.Encode, Utf8.Latin1, Len;
    if NeedsEscape(c) {
      StepEscape(b, start, i, true, out, c);
      Latin1Encode(c, "");
    } else {
      StepPlain(b, start, i, true, out, c);
    }
  }

  lemma {:induction false} ReadPrintedTail(b: seq<byte>, start: nat, i: nat, out: string, t: string)
    requires start <= i && AtText(b, i, Escaped(t))
    requires i + Len(Escaped(t)) < |b| && b[i + Len(Escaped(t))] == QUOTE
    ensures ReadBody(b, start, i, true, out) == Ok((out + Utf8.Latin1(Utf8.Encode(t)), i + Len(Escaped(t)) + 1))
    decreases t
  {
    hide EscapeChar, Utf8.EncodeChar, AtText, NeedsEscape, ReadBody, Escaped, Utf8.Encode, Utf8.Latin1, Len, MangledText;
    if t == [] {
      EmptyTail(b, start, i, out);
    } else {
      var c, rest := t[0], t[1..];
      var e, g := EscapeChar(c), Utf8.Latin1(Utf8.EncodeChar(c));
      TextUnfolds(t);
      AtTextSplit(b, i, e, Escaped(rest));
      StepTail(b, start, i, out, c);
      ReadPrintedTail(b, start, i + Len(e), out + g, rest);
      Regroup(out, g, Utf8.Latin1(Utf8.Encode(rest)), "", "", "");
    }
  }

  lemma {:induction false} ReadPrintedHead(b: seq<byte>, start: nat, i: nat, done: string, t: string)
    requires start <= i && AtText(b, i, Escaped(t))
    requires i + Len(Escaped(t)) < |b| && b[i + Len(Escaped(t))] == QUOTE
    requires b[start..i] == Utf8.Encode(done)
    ensures ReadBody(b, start, i, false, "") == Ok((done + MangledText(t), i + Len(Escaped(t)) + 1))
    decreases t
  {
    hide EscapeChar, Utf8.EncodeChar, AtText, NeedsEscape, ReadBody, Flushed, Escaped, MangledText, Utf8.Encode, Utf8.Latin1, Len;
    if t == [] {
      EmptyHead(b, start, i, done);
    } else {
      var c, rest := t[0], t[1..];
      var e := EscapeChar(c);
      TextUnfolds(t);
      AtTextSplit(b, i, e, Escaped(rest));
      if NeedsEscape(c) {
        FlushedHead(b, start, i, done);
        StepEscape(b, start, i, false, "", c);
        ReadPrintedTail(b, start, i + Len(e), done + [c], rest);
        Regroup(done, [c], Utf8.Latin1(Utf8.Encode(rest)), "", "", "");
      } else {
        StepHead(b, start, i, done, c);
        ReadPrintedHead(b, start, i + Len(e), done + [c], rest);
        Regroup(done, [c], MangledText(rest), "", "", "");
      }
    }
  }

  lemma ReadPrintedString(b: seq<byte>, i: nat, t: string)
    requires AtText(b, i, Quoted(t))
    ensures i < |b| && b[i] == QUOTE
    ensures ReadString(b, i) == Ok((MangledText(t), i + Len(Quoted(t))))
  {
    hide ReadBody, Utf8.EncodeChar, Escaped, At;
    AtTextSplit(b, i, "\"" + Escaped(t), "\"");
    AtTextSplit(b, i, "\"", Escaped(t));
    AtChar(b, i, '"');
    var end := i + 1 + Len(Escaped(t));
    AtChar(b, end, '"');
    assert b[i + 1..i + 1] == Utf8.Encode("");
    ReadPrintedHead(b, i + 1, i + 1, "", t);
    assert "" + MangledText(t) == MangledText(t);
  }

  // ----- reading a printed number

  lemma AsciiOfDigits(t: string)
    requires Decimal.AllDigits(t)
    ensures Utf8.IsAscii(t)
  {
  }

  lemma ReadPrintedNumber(b: seq<byte>, i: nat, n: i64)
    requires AtText(b, i, Decimal.IntText(n))
    requires var end := i + Len(Decimal.IntText(n)); end == |b| || !IsDigitByte(b[end])
    ensures i < |b| && (IsDigitByte(b[i]) || b[i] == MINUS)
    ensures ReadNumber(b, i) == Ok((Number(n), i + Len(Decimal.IntText(n))))
  {
    hide Utf8.Decode, Decimal.NatText, Decimal.ParseI64, Decimal.NatValue, DigitsEnd, Utf8.EncodeChar;
    var t := Decimal.IntText(n);
    var m: nat := if n < 0 then -(n as int) else n;
    var d := Decimal.NatText(m);
    AsciiOfDigits(d);
    assert Utf8.IsAscii(t);
    AtAscii(b, i, t);
    var end := i + |t|;
    var first := if n < 0 then i + 1 else i;
    forall k | 0 <= k < |d| ensures b[first + k] == d[k] as int {
      assert b[i + (first - i + k)] == t[first - i + k] as int;
    }
    assert IsDigitByte(b[first + 0]) && Decimal.IsDigit(d[0]);
    forall k | first <= k < end ensures IsDigitByte(b[k]) {
      assert Decimal.IsDigit(d[k - first]) && b[first + (k - first)] == d[k - first] as int;
    }
    DigitsEndIs(b, first, end);
    if n < 0 { assert b[i + 0] == t[0] as int; }
    Utf8.EncodeAscii(t);
    Utf8.DecodeEncode(t);
    Decimal.ParseI64IntText(n);
  }

  // ----- what reading back does to a value

  function Mangled(v: JsonValue): JsonValue
    decreases v, 0
  {
    match v
    case String(s) => String(MangledText(s))
    case Array(items) => Array(MangledItems(items, |items|))
    case Object(members) => Object(MangledMembers(members, |members|))
    case _ => v
  }

  function MangledItems(items: seq<JsonValue>, n: nat): (r: seq<JsonValue>)
    requires n <= |items|
    ensures |r| == n
    ensures forall k :: 0 <= k < n ==> r[k] == Mangled(items[k])
    decreases items, n
  {
    if n == 0 then [] else MangledItems(items, n - 1) + [Mangled(items[n - 1])]
  }

  function MangledMembers(members: seq<Member>, n: nat): (r: seq<Member>)
    requires n <= |members|
    ensures |r| == n
    ensures forall k :: 0 <= k < n ==> r[k] == Member(MangledText(members[k].key), Mangled(members[k].value))
    decreases members, n
  {
    if n == 0 then []
    else MangledMembers(members, n - 1) + [Member(MangledText(members[n - 1].key), Mangled(members[n - 1].value))]
  }

  /** Every string and every key anywhere in `v` survives. */
  predicate TextsSurvive(v: JsonValue) {
    match v
    case String(s) => Survives(s)
    case Array(items) => forall k :: 0 <= k < |items| ==> TextsSurvive(items[k])
    case Object(members) =>
      forall k :: 0 <= k < |members| ==> Survives(members[k].key) && TextsSurvive(members[k].value)
    case _ => true
  }

  lemma {:induction false} MangledFixed(v: JsonValue)
    ensures Mangled(v) == v <==> TextsSurvive(v)
  {
    match v
    case String(s) => MangledTextFixed(s);
    case Array(items) =>
      var r := MangledItems(items, |items|);
      forall k | 0 <= k < |items| ensures r[k] == items[k] <==> TextsSurvive(items[k]) {
        MangledFixed(items[k]);
      }
      assert r == items <==> forall k :: 0 <= k < |items| ==> r[k] == items[k];
    case Object(members) =>
      var r := MangledMembers(members, |members|);
      forall k | 0 <= k < |members|
        ensures r[k] == members[k] <==> Survives(members[k].key) && TextsSurvive(members[k].value)
      {
        MangledTextFixed(members[k].key);
        MangledFixed(members[k].value);
      }
      assert r == members <==> forall k :: 0 <= k < |members| ==> r[k] == members[k];
    case _ =>
  }

  /** What the reader can return at nesting level `depth`: distinct keys in every
      object, nothing below level 64. */
  predicate Readable(v: JsonValue, depth: nat) {
    depth <= MAX_DEPTH &&
    match v
    case Array(items) => forall k :: 0 <= k < |items| ==> Readable(items[k], depth + 1)
    case Object(members) =>
      KeysDistinct(members) && forall k :: 0 <= k < |members| ==> Readable(members[k].value, depth + 1)
    case _ => true
  }

  lemma {:induction false} ItemsHeightBound(items: seq<JsonValue>, h: nat)
    ensures ItemsHeight(items) <= h <==> forall k :: 0 <= k < |items| ==> Height(items[k]) <= h
  {
    if items != [] {
      ItemsHeightBound(items[..|items| - 1], h);
    }
  }

  lemma {:induction false} MembersHeightBound(members: seq<Member>, h: nat)
    ensures MembersHeight(members) <= h <==> forall k :: 0 <= k < |members| ==> Height(members[k].value) <= h
  {
    if members != [] {
      MembersHeightBound(members[..|members| - 1], h);
    }
  }

  lemma {:induction false} ReadableIff(v: JsonValue, depth: nat)
    ensures Readable(v, depth) <==> DistinctKeys(v) && depth + Height(v) <= MAX_DEPTH
  {
    match v
    case Array(items) =>
      forall k | 0 <= k < |items|
        ensures Readable(items[k], depth + 1) <==> DistinctKeys(items[k]) && depth + 1 + Height(items[k]) <= MAX_DEPTH
      {
        ReadableIff(items[k], depth + 1);
      }
      if depth < MAX_DEPTH { ItemsHeightBound(items, MAX_DEPTH - depth - 1); }
      if items != [] { assert Readable(v, depth) ==> Readable(items[0], depth + 1); }
    case Object(members) =>
      forall k | 0 <= k < |members|
        ensures Readable(members[k].value, depth + 1)
           <==> DistinctKeys(members[k].value) && depth + 1 + Height(members[k].value) <= MAX_DEPTH
      {
        ReadableIff(members[k].value, depth + 1);
      }
      if depth < MAX_DEPTH { MembersHeightBound(members, MAX_DEPTH - depth - 1); }
      if members != [] { assert Readable(v, depth) ==> Readable(members[0].value, depth + 1); }
    case _ =>
  }
}
