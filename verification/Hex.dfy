/** Hex texts: the reader takes either case and names the first offending byte, the
    writer prints upper case. */
module Hex {
  import opened Prelude
  import opened JsonLex
  import opened Numerals
  import Utf8

  datatype HexError = OddLength | InvalidChar(pos: nat, value: byte)

  function Nibble(b: byte, pos: nat): (r: Result<nat, HexError>)
    ensures r.Ok? ==> r.value < 16
  {
    match HexDigit(b)
    case Some(n) => Ok(n)
    case None => Err(InvalidChar(pos, b))
  }

  /** The pairs from `i` on, after the bytes `out`. */
  function DecodeFrom(b: seq<byte>, i: nat, out: seq<byte>): Result<seq<byte>, HexError>
    requires i <= |b| && (|b| - i) % 2 == 0
    decreases |b| - i
  {
    if i == |b| then Ok(out)
    else
      var hi :- Nibble(b[i], i);
      var lo :- Nibble(b[i + 1], i + 1);
      DecodeFrom(b, i + 2, out + [hi * 16 + lo])
  }

  function DecodeBytes(b: seq<byte>): Result<seq<byte>, HexError> {
    if |b| % 2 != 0 then Err(OddLength) else DecodeFrom(b, 0, [])
  }

  /** `hex::decode`. */
  function Decode(s: string): Result<seq<byte>, HexError> {
    DecodeBytes(Utf8.Encode(s))
  }

  method DecodeText(s: string) returns (r: Result<seq<byte>, HexError>)
    ensures r == Decode(s)
  {
    var b := Utf8.Encode(s);
    if |b| % 2 != 0 { return Err(OddLength); }
    var out: seq<byte> := [];
    var i := 0;
    while i < |b|
      invariant 0 <= i <= |b| && (|b| - i) % 2 == 0
      invariant DecodeFrom(b, i, out) == DecodeFrom(b, 0, [])
    {
      var hi := Nibble(b[i], i);
      if hi.Err? { return Err(hi.error); }
      var lo := Nibble(b[i + 1], i + 1);
      if lo.Err? { return Err(lo.error); }
      out := out + [hi.value * 16 + lo.value];
      i := i + 2;
    }
    return Ok(out);
  }

  function UpperDigit(n: nat): (c: char)
    requires n < 16
    ensures c as int < 0x80 && HexDigit(c as int) == Some(n)
  {
    if n < 10 then (0x30 + n) as char else (0x41 + n - 10) as char
  }

  function EncodeUpper(data: seq<byte>): (s: string)
    ensures |s| == 2 * |data|
  {
    if data == [] then ""
    else EncodeUpper(data[..|data| - 1]) + [UpperDigit(data[|data| - 1] as int / 16), UpperDigit(data[|data| - 1] as int % 16)]
  }

  method EncodeUpperText(data: seq<byte>) returns (s: string)
    ensures s == EncodeUpper(data)
  {
    s := "";
    for k := 0 to |data|
      invariant s == EncodeUpper(data[..k])
    {
      assert data[..k + 1][..k] == data[..k];
      s := s + [UpperDigit(data[k] as int / 16)];
      s := s + [UpperDigit(data[k] as int % 16)];
      assert EncodeUpper(data[..k]) + [UpperDigit(data[k] as int / 16)] + [UpperDigit(data[k] as int % 16)]
          == EncodeUpper(data[..k]) + [UpperDigit(data[k] as int / 16), UpperDigit(data[k] as int % 16)];
    }
    assert data[..|data|] == data;
  }

  /** Where each digit of an encoding stands. */
  lemma {:induction false} EncodedDigits(data: seq<byte>, k: nat)
    requires k < |data|
    ensures EncodeUpper(data)[2 * k] == UpperDigit(data[k] as int / 16)
    ensures EncodeUpper(data)[2 * k + 1] == UpperDigit(data[k] as int % 16)
  {
    if k < |data| - 1 {
      EncodedDigits(data[..|data| - 1], k);
    }
  }

  lemma EncodedIsAscii(data: seq<byte>)
    ensures Utf8.IsAscii(EncodeUpper(data))
  {
    forall j | 0 <= j < |EncodeUpper(data)| ensures EncodeUpper(data)[j] as int < 0x80 {
      EncodedDigits(data, j / 2);
    }
  }

  lemma {:induction false} DecodeFromEncoded(data: seq<byte>, k: nat)
    requires k <= |data| && Utf8.IsAscii(EncodeUpper(data))
    ensures DecodeFrom(Utf8.Codes(EncodeUpper(data)), 2 * k, data[..k]) == Ok(data)
    decreases |data| - k
  {
    if k == |data| {
      assert data[..k] == data;
    } else {
      EncodedDigits(data, k);
      assert data[..k + 1] == data[..k] + [data[k]];
      DecodeFromEncoded(data, k + 1);
    }
  }

  /** Decoding an encoding gives the bytes back. */
  lemma DecodeEncoded(data: seq<byte>)
    ensures Decode(EncodeUpper(data)) == Ok(data)
  {
    EncodedIsAscii(data);
    Utf8.EncodeAscii(EncodeUpper(data));
    DecodeFromEncoded(data, 0);
  }

  /** The code of a hex digit of either case. */
  predicate IsHexByte(b: byte) {
    0x30 <= b <= 0x39 || 0x41 <= b <= 0x46 || 0x61 <= b <= 0x66
  }

  /** Decoding succeeds exactly on an even number of hex digits, and otherwise names
      the first byte that is none. */
  lemma {:induction false} DecodeFromIff(b: seq<byte>, i: nat, out: seq<byte>)
    requires i <= |b| && (|b| - i) % 2 == 0
    ensures DecodeFrom(b, i, out).Ok? <==> forall k :: i <= k < |b| ==> IsHexByte(b[k])
    ensures DecodeFrom(b, i, out).Ok? ==> |DecodeFrom(b, i, out).value| == |out| + (|b| - i) / 2
    ensures DecodeFrom(b, i, out).Err? ==>
      var e := DecodeFrom(b, i, out).error;
      && e.InvalidChar? && i <= e.pos < |b| && e.value == b[e.pos] && !IsHexByte(b[e.pos])
      && forall k :: i <= k < e.pos ==> IsHexByte(b[k])
    decreases |b| - i
  {
    if i < |b| && IsHexByte(b[i]) && IsHexByte(b[i + 1]) {
      DecodeFromIff(b, i + 2, out + [Nibble(b[i], i).value * 16 + Nibble(b[i + 1], i + 1).value]);
    }
  }

  // ----- what a text denotes

  /** Two hex digits at index `i`, of either case, the first one worth sixteen times. */
  predicate IsPair(s: string, i: nat, b: byte) {
    i + 1 < |s| && IsHexDigit(s[i], b / 16) && IsHexDigit(s[i + 1], b % 16)
  }

  lemma DigitIff(c: char, v: nat)
    requires c as int < 0x80
    ensures HexDigit(c as int) == Some(v) <==> IsHexDigit(c, v)
  {
    var t, u := "0123456789abcdef", "0123456789ABCDEF";
    assert t[0] == '0' && t[1] == '1' && t[2] == '2' && t[3] == '3' && t[4] == '4' && t[5] == '5' && t[6] == '6' && t[7] == '7';
    assert t[8] == '8' && t[9] == '9' && t[10] == 'a' && t[11] == 'b' && t[12] == 'c' && t[13] == 'd' && t[14] == 'e' && t[15] == 'f';
    assert u[0] == '0' && u[1] == '1' && u[2] == '2' && u[3] == '3' && u[4] == '4' && u[5] == '5' && u[6] == '6' && u[7] == '7';
    assert u[8] == '8' && u[9] == '9' && u[10] == 'A' && u[11] == 'B' && u[12] == 'C' && u[13] == 'D' && u[14] == 'E' && u[15] == 'F';
  }

  lemma HexDigitIsAscii(c: char, v: nat)
    requires IsHexDigit(c, v)
    ensures c as int < 0x80
  {
    assert forall k :: 0 <= k < 16 ==> "0123456789abcdef"[k] as int < 0x80;
    assert forall k :: 0 <= k < 16 ==> "0123456789ABCDEF"[k] as int < 0x80;
  }

  lemma PairIff(s: string, i: nat, b: byte)
    requires Utf8.IsAscii(s) && i + 1 < |s|
    ensures IsPair(s, i, b) <==> HexDigit(s[i] as int) == Some(b / 16) && HexDigit(s[i + 1] as int) == Some(b % 16)
  {
    hide IsHexDigit, HexDigit;
    DigitIff(s[i], b / 16);
    DigitIff(s[i + 1], b % 16);
  }

  predicate ArePairs(s: string, i: nat, data: seq<byte>) {
    |s| == i + 2 * |data| && forall k :: 0 <= k < |data| ==> IsPair(s, i + 2 * k, data[k])
  }

  lemma {:induction false} PairsRead(s: string, i: nat, out: seq<byte>, data: seq<byte>)
    requires Utf8.IsAscii(s) && i <= |s| && (|s| - i) % 2 == 0
    ensures DecodeFrom(Utf8.Codes(s), i, out) == Ok(out + data) <==> ArePairs(s, i, data)
    decreases |s| - i
  {
    hide HexDigit, IsPair;
    var b := Utf8.Codes(s);
    DecodeFromIff(b, i, out);
    if i == |s| {
      assert out + [] == out;
      assert out + data == out ==> |data| == 0;
    } else if data == [] {
    } else {
      var rest := data[1..];
      assert out + data == out + [data[0]] + rest;
      PairIff(s, i, data[0]);
      PairsRead(s, i + 2, out + [data[0]], rest);
      PairsStep(s, i, data);
      FirstPair(b, i, out, data);
    }
  }

  lemma PairsStep(s: string, i: nat, data: seq<byte>)
    requires data != []
    ensures ArePairs(s, i, data) <==> IsPair(s, i, data[0]) && ArePairs(s, i + 2, data[1..])
  {
    hide IsPair;
    var rest := data[1..];
    if ArePairs(s, i, data) {
      assert IsPair(s, i + 2 * 0, data[0]);
      forall k | 0 <= k < |rest| ensures IsPair(s, i + 2 + 2 * k, rest[k]) {
        assert IsPair(s, i + 2 * (k + 1), data[k + 1]);
      }
    }
    if IsPair(s, i, data[0]) && ArePairs(s, i + 2, rest) {
      forall k | 0 <= k < |data| ensures IsPair(s, i + 2 * k, data[k]) {
        if k > 0 { assert IsPair(s, i + 2 + 2 * (k - 1), rest[k - 1]); }
      }
    }
  }

  /** A decoding that begins with a byte begins with its two digits. */
  lemma FirstPair(b: seq<byte>, i: nat, out: seq<byte>, data: seq<byte>)
    requires i < |b| && (|b| - i) % 2 == 0 && data != []
    ensures DecodeFrom(b, i, out) == Ok(out + data) ==>
      HexDigit(b[i]) == Some(data[0] / 16) && HexDigit(b[i + 1]) == Some(data[0] % 16)
  {
    hide HexDigit;
    if DecodeFrom(b, i, out) == Ok(out + data) {
      var v := HexDigit(b[i]).value * 16 + HexDigit(b[i + 1]).value;
      Extends(b, i + 2, out + [v]);
      assert DecodeFrom(b, i, out) == DecodeFrom(b, i + 2, out + [v]);
      assert (out + data)[|out|] == data[0];
      assert (out + [v])[|out|] == v;
    }
  }

  lemma {:induction false} Extends(b: seq<byte>, i: nat, out: seq<byte>)
    requires i <= |b| && (|b| - i) % 2 == 0
    ensures DecodeFrom(b, i, out).Ok? ==> out <= DecodeFrom(b, i, out).value
    decreases |b| - i
  {
    hide HexDigit;
    if i < |b| && HexDigit(b[i]).Some? && HexDigit(b[i + 1]).Some? {
      Extends(b, i + 2, out + [HexDigit(b[i]).value * 16 + HexDigit(b[i + 1]).value]);
    }
  }

  /** A text decodes to exactly the bytes whose digits it spells, two a byte, in either
      case. */
  lemma DecodeIff(s: string, data: seq<byte>)
    ensures Decode(s) == Ok(data) <==> ArePairs(s, 0, data)
    ensures Decode(s) == Err(OddLength) <==> |Utf8.Encode(s)| % 2 != 0
  {
    hide ArePairs, Utf8.Encode, HexDigit, DecodeFrom;
    var b := Utf8.Encode(s);
    if |b| % 2 == 0 { DecodeFromIff(b, 0, []); }
    if Decode(s) == Ok(data) {
      assert forall k :: 0 <= k < |b| ==> IsHexByte(b[k]) && b[k] < 0x80;
      Utf8.AsciiBytes(s);
    }
    if ArePairs(s, 0, data) { PairsAreAscii(s, data); }
    if Utf8.IsAscii(s) {
      Utf8.EncodeAscii(s);
      if |s| % 2 == 0 {
        PairsRead(s, 0, [], data);
        assert [] + data == data;
      }
    }
  }

  lemma PairsAreAscii(s: string, data: seq<byte>)
    requires ArePairs(s, 0, data)
    ensures Utf8.IsAscii(s) && |s| % 2 == 0
  {
    hide IsHexDigit;
    forall j | 0 <= j < |s| ensures s[j] as int < 0x80 {
      assert IsPair(s, 0 + 2 * (j / 2), data[j / 2]);
      var v := if j % 2 == 0 then data[j / 2] as int / 16 else data[j / 2] as int % 16;
      HexDigitIsAscii(s[j], v);
    }
  }

  /** The digits that are printed are the upper-case ones. */
  lemma PrintedDigits(data: seq<byte>, k: nat)
    requires k < |data|
    ensures EncodeUpper(data)[2 * k] == "0123456789ABCDEF"[data[k] / 16]
    ensures EncodeUpper(data)[2 * k + 1] == "0123456789ABCDEF"[data[k] % 16]
  {
    EncodedDigits(data, k);
    UpperDigitIs(data[k] as int / 16);
    UpperDigitIs(data[k] as int % 16);
  }

  lemma UpperDigitIs(n: nat)
    requires n < 16
    ensures UpperDigit(n) == "0123456789ABCDEF"[n]
  {
    var u := "0123456789ABCDEF";
    assert u[0] == '0' && u[1] == '1' && u[2] == '2' && u[3] == '3' && u[4] == '4' && u[5] == '5' && u[6] == '6' && u[7] == '7';
    assert u[8] == '8' && u[9] == '9' && u[10] == 'A' && u[11] == 'B' && u[12] == 'C' && u[13] == 'D' && u[14] == 'E' && u[15] == 'F';
  }
}
