/** UTF-8 as an exact codec between texts and byte strings (section 3 of RFC 3629).
    A Rust `str` is a Dafny `string`; its `as_bytes` is `Encode`, and
    `core::str::from_utf8` is `Decode`. */
module Utf8 {
  import opened Prelude

  function EncodeChar(c: char): (r: seq<byte>)
    ensures 1 <= |r| <= 4
    ensures (c as int < 0x80) <==> r[0] < 0x80
    ensures c as int < 0x80 ==> r == [c as int]
    ensures c as int >= 0x80 ==> forall k :: 0 <= k < |r| ==> r[k] >= 0x80
  {
    var n := c as int;
    if n < 0x80 then [n]
    else if n < 0x800 then [0xC0 + n / 0x40, 0x80 + n % 0x40]
    else if n < 0x1_0000 then [0xE0 + n / 0x1000, 0x80 + n / 0x40 % 0x40, 0x80 + n % 0x40]
    else [0xF0 + n / 0x4_0000, 0x80 + n / 0x1000 % 0x40, 0x80 + n / 0x40 % 0x40, 0x80 + n % 0x40]
  }

  predicate IsTail(b: byte) {
    0x80 <= b <= 0xBF
  }

  /** The octets of a number by the table of section 3 of RFC 3629: how many there are is
      decided by the number, and their free bits are the number's. */
  predicate AreOctetsOf(r: seq<byte>, n: int) {
    if |r| == 1 then r[0] == n <= 0x7F
    else if |r| == 2 then
      && 0x80 <= n <= 0x7FF && 0xC0 <= r[0] <= 0xDF && IsTail(r[1])
      && n == Places(r[0] as int - 0xC0, Tail(r[1]))
    else if |r| == 3 then
      && 0x800 <= n <= 0xFFFF && 0xE0 <= r[0] <= 0xEF && IsTail(r[1]) && IsTail(r[2])
      && n == Places(Places(r[0] as int - 0xE0, Tail(r[1])), Tail(r[2]))
    else
      && |r| == 4 && 0x1_0000 <= n <= 0x10_FFFF && 0xF0 <= r[0] <= 0xF7 && IsTail(r[1]) && IsTail(r[2]) && IsTail(r[3])
      && n == Places(Places(Places(r[0] as int - 0xF0, Tail(r[1])), Tail(r[2])), Tail(r[3]))
  }

  /** Six bits behind the ones there are. */
  function Places(high: int, low: int): int {
    high * 64 + low
  }

  lemma PlacesIff(n: int, high: int, low: int)
    requires 0 <= low < 64
    ensures n == Places(high, low) <==> high == n / 64 && low == n % 64
  {
  }

  lemma TailIs(b: byte, v: int)
    requires 0 <= v < 64
    ensures b == 0x80 + v <==> IsTail(b) && Tail(b) == v
  {
  }

  lemma Twice(n: int)
    ensures n / 64 / 64 == n / 0x1000 && n / 64 / 64 / 64 == n / 0x4_0000
  {
  }

  lemma TwoOctets(c: char, a: byte, b: byte)
    requires 0x80 <= c as int <= 0x7FF
    ensures EncodeChar(c) == [a, b] <==> AreOctetsOf([a, b], c as int)
  {
    hide IsTail, Tail, Places;
    var n := c as int;
    TailIs(b, n % 64);
    if IsTail(b) {
      TailRange(b);
      PlacesIff(n, a as int - 0xC0, Tail(b));
    }
  }

  lemma TailRange(b: byte)
    requires IsTail(b)
    ensures 0 <= Tail(b) < 64
  {
  }

  lemma ThreeOctets(c: char, a: byte, b: byte, d: byte)
    requires 0x800 <= c as int <= 0xFFFF
    ensures EncodeChar(c) == [a, b, d] <==> AreOctetsOf([a, b, d], c as int)
  {
    hide IsTail, Tail, Places;
    var n := c as int;
    TailIs(d, n % 64);
    TailIs(b, n / 64 % 64);
    Twice(n);
    if IsTail(b) && IsTail(d) {
      TailRange(b);
      TailRange(d);
      PlacesIff(n, Places(a as int - 0xE0, Tail(b)), Tail(d));
      PlacesIff(n / 64, a as int - 0xE0, Tail(b));
    }
  }

  lemma FourOctets(c: char, a: byte, b: byte, d: byte, e: byte)
    requires 0x1_0000 <= c as int
    ensures EncodeChar(c) == [a, b, d, e] <==> AreOctetsOf([a, b, d, e], c as int)
  {
    hide IsTail, Tail, Places;
    var n := c as int;
    TailIs(e, n % 64);
    TailIs(d, n / 64 % 64);
    TailIs(b, n / 0x1000 % 64);
    Twice(n);
    if IsTail(b) && IsTail(d) && IsTail(e) {
      TailRange(b);
      TailRange(d);
      TailRange(e);
      var high := Places(a as int - 0xF0, Tail(b));
      PlacesIff(n, Places(high, Tail(d)), Tail(e));
      PlacesIff(n / 64, high, Tail(d));
      PlacesIff(n / 64 / 64, a as int - 0xF0, Tail(b));
    }
  }

  /** A character's bytes are its octets by that table, and no others. */
  lemma OctetsIff(c: char, r: seq<byte>)
    ensures EncodeChar(c) == r <==> AreOctetsOf(r, c as int)
  {
    hide IsTail, Tail, Places;
    var n := c as int;
    if |r| == 1 { assert r == [r[0]]; }
    if |r| == 2 {
      assert r == [r[0], r[1]];
      if 0x80 <= n <= 0x7FF { TwoOctets(c, r[0], r[1]); }
    }
    if |r| == 3 {
      assert r == [r[0], r[1], r[2]];
      if 0x800 <= n <= 0xFFFF { ThreeOctets(c, r[0], r[1], r[2]); }
    }
    if |r| == 4 {
      assert r == [r[0], r[1], r[2], r[3]];
      if 0x1_0000 <= n { FourOctets(c, r[0], r[1], r[2], r[3]); }
    }
  }

  function Encode(s: string): seq<byte> {
    if s == [] then [] else EncodeChar(s[0]) + Encode(s[1..])
  }

  /** Byte length announced by a leading byte; anything that is not a multi-byte
      lead announces 1 and is judged by the decoding of that single byte. */
  function LeadLength(b: byte): (n: nat)
    ensures 1 <= n <= 4
  {
    if 0xC0 <= b <= 0xDF then 2
    else if 0xE0 <= b <= 0xEF then 3
    else if 0xF0 <= b <= 0xF7 then 4
    else 1
  }

  /** The six payload bits of a continuation byte. */
  function Tail(b: byte): int {
    b as int - 0x80
  }

  /** The number the payload bits of a 1..4 byte group spell, valid or not. */
  function GroupValue(g: seq<byte>): int
    requires 1 <= |g| <= 4
  {
    if |g| == 1 then g[0] as int
    else if |g| == 2 then (g[0] as int - 0xC0) * 0x40 + Tail(g[1])
    else if |g| == 3 then (g[0] as int - 0xE0) * 0x1000 + Tail(g[1]) * 0x40 + Tail(g[2])
    else (g[0] as int - 0xF0) * 0x4_0000 + Tail(g[1]) * 0x1000 + Tail(g[2]) * 0x40 + Tail(g[3])
  }

  predicate IsScalar(n: int) {
    0 <= n < 0xD800 || 0xE000 <= n < 0x11_0000
  }

  /** The scalar a whole byte group encodes, if it encodes one: the payload must be
      a scalar value whose shortest encoding is this very group. */
  function DecodeGroup(g: seq<byte>): (r: Option<char>)
    requires 1 <= |g| <= 4
    ensures r.Some? ==> EncodeChar(r.value) == g
  {
    var n := GroupValue(g);
    if IsScalar(n) && EncodeChar(n as char) == g then Some(n as char) else None
  }

  function Decode(b: seq<byte>): Option<string> {
    if b == [] then Some([])
    else
      var n := LeadLength(b[0]);
      if |b| < n then None
      else
        match DecodeGroup(b[..n])
        case None => None
        case Some(c) =>
          match Decode(b[n..])
          case None => None
          case Some(t) => Some([c] + t)
  }

  lemma DecodeGroupOfChar(c: char)
    ensures LeadLength(EncodeChar(c)[0]) == |EncodeChar(c)|
    ensures DecodeGroup(EncodeChar(c)) == Some(c)
  {
    var n := c as int;
    if n < 0x80 {
    } else if n < 0x800 {
      assert GroupValue(EncodeChar(c)) == n;
    } else if n < 0x1_0000 {
      assert n / 0x1000 == n / 0x40 / 0x40;
      assert GroupValue(EncodeChar(c)) == n;
    } else {
      assert n / 0x1000 == n / 0x40 / 0x40;
      assert n / 0x4_0000 == n / 0x1000 / 0x40;
      assert GroupValue(EncodeChar(c)) == n;
    }
  }

  lemma {:induction false} EncodeConcat(s: string, t: string)
    ensures Encode(s + t) == Encode(s) + Encode(t)
  {
    if s == [] {
      assert s + t == t;
    } else {
      assert (s + t)[1..] == s[1..] + t;
      EncodeConcat(s[1..], t);
    }
  }

  lemma EncodeOne(c: char)
    ensures Encode([c]) == EncodeChar(c)
  {
    assert [c][1..] == [];
  }

  lemma {:induction false} DecodeEncode(s: string)
    ensures Decode(Encode(s)) == Some(s)
  {
    if s != [] {
      var g, rest := EncodeChar(s[0]), Encode(s[1..]);
      DecodeGroupOfChar(s[0]);
      assert Encode(s)[..|g|] == g && Encode(s)[|g|..] == rest;
      DecodeEncode(s[1..]);
      assert [s[0]] + s[1..] == s;
    }
  }

  /** What a decoded nonempty text starts with. */
  lemma DecodeSplit(b: seq<byte>)
    requires b != [] && Decode(b).Some?
    ensures var n := LeadLength(b[0]);
      && n <= |b| && DecodeGroup(b[..n]).Some? && Decode(b[n..]).Some?
      && Decode(b).value == [DecodeGroup(b[..n]).value] + Decode(b[n..]).value
  {
    hide DecodeGroup, EncodeChar, LeadLength;
  }

  lemma {:induction false} EncodeDecode(b: seq<byte>)
    ensures Decode(b).Some? ==> Encode(Decode(b).value) == b
  {
    if b == [] {
    } else {
      hide DecodeGroup, EncodeChar, LeadLength, Encode, Decode;
      if Decode(b).Some? {
        var n := LeadLength(b[0]);
        DecodeSplit(b);
        EncodeDecode(b[n..]);
        EncodeCons(DecodeGroup(b[..n]).value, Decode(b[n..]).value);
        assert b == b[..n] + b[n..];
      }
    }
  }

  lemma EncodeCons(c: char, t: string)
    ensures Encode([c] + t) == EncodeChar(c) + Encode(t)
  {
    hide EncodeChar;
    assert ([c] + t)[1..] == t;
  }

  /** `Decode` accepts exactly the encodings, and each has one reading. */
  lemma DecodeIffEncode(b: seq<byte>, s: string)
    ensures Decode(b) == Some(s) <==> Encode(s) == b
  {
    EncodeDecode(b);
    DecodeEncode(s);
  }

  lemma EncodeInjective(s: string, t: string)
    requires Encode(s) == Encode(t)
    ensures s == t
  {
    DecodeEncode(s);
    DecodeEncode(t);
  }

  predicate IsAscii(s: string) {
    forall k :: 0 <= k < |s| ==> s[k] as int < 0x80
  }

  /** The character codes of an ASCII text, which are its bytes. */
  /** A text whose bytes are all ASCII is ASCII. */
  lemma {:induction false} AsciiBytes(s: string)
    requires forall k :: 0 <= k < |Encode(s)| ==> Encode(s)[k] < 0x80
    ensures IsAscii(s)
  {
    if s != [] {
      var g, rest := EncodeChar(s[0]), Encode(s[1..]);
      var e := Encode(s);
      assert e[0] == g[0];
      assert forall k :: 0 <= k < |rest| ==> e[|g| + k] == rest[k];
      AsciiBytes(s[1..]);
      assert forall k :: 0 < k < |s| ==> s[k] == s[1..][k - 1];
    }
  }

  function Codes(s: string): (r: seq<byte>)
    requires IsAscii(s)
    ensures |r| == |s|
    ensures forall k :: 0 <= k < |s| ==> r[k] == s[k] as int
  {
    seq(|s|, k requires 0 <= k < |s| => s[k] as int)
  }

  lemma {:induction false} EncodeAscii(s: string)
    requires IsAscii(s)
    ensures Encode(s) == Codes(s)
  {
    if s != [] {
      EncodeAscii(s[1..]);
      assert Codes(s) == [s[0] as int] + Codes(s[1..]);
    }
  }

  /** The text whose code points are the bytes: what pushing raw bytes `as char` yields. */
  function Latin1(b: seq<byte>): (r: string)
    ensures |r| == |b|
    ensures forall k :: 0 <= k < |b| ==> r[k] as int == b[k]
  {
    seq(|b|, k requires 0 <= k < |b| => b[k] as char)
  }

  /** Reading the UTF-8 bytes of a text as Latin-1 returns the text only for ASCII. */
  lemma {:induction false} Latin1OfEncode(s: string)
    ensures |Encode(s)| >= |s|
    ensures Latin1(Encode(s)) == s <==> IsAscii(s)
  {
    Latin1Length(s);
    if IsAscii(s) {
      EncodeAscii(s);
    }
  }

  lemma {:induction false} Latin1Length(s: string)
    ensures |Encode(s)| >= |s|
    ensures |Encode(s)| == |s| ==> IsAscii(s)
  {
    if s != [] {
      Latin1Length(s[1..]);
      if |Encode(s)| == |s| {
        assert forall k :: 0 < k < |s| ==> s[k] == s[1..][k - 1];
      }
    }
  }
}
