/** Fixed-point min-entropy as an exact decimal. A value is a count of 1/256 bit
    steps; its token has at most eight decimals and is the value, not near it. */
module Hmin {
  import opened Prelude
  import opened Decimal
  import opened Text
  import opened JsonLex
  import opened JsonLite
  import opened LiteTokens
  import Utf8

  const STEPS_PER_BIT: nat := 256
  /** 10^8 / 256. */
  const FRAC_SCALE: nat := 390_625

  function Zeros(n: nat): (r: string)
    ensures |r| == n && AllDigits(r) && forall k :: 0 <= k < n ==> r[k] == '0'
  {
    seq(n, _ => '0')
  }

  /** `{:08}`. */
  function Padded(n: nat): (r: string)
    ensures AllDigits(r) && |r| >= 8
  {
    var t := NatText(n);
    if |t| < 8 then Zeros(8 - |t|) + t else t
  }

  /** `trim_end_matches('0')`. */
  function TrimZeros(s: string): (r: string)
    requires AllDigits(s)
    ensures AllDigits(r) && |r| <= |s| && r == s[..|r|]
    ensures r != [] ==> r[|r| - 1] != '0'
    ensures forall k :: |r| <= k < |s| ==> s[k] == '0'
  {
    if s != [] && s[|s| - 1] == '0' then TrimZeros(s[..|s| - 1]) else s
  }

  function FractionText(rem: nat): string {
    TrimZeros(Padded(rem * FRAC_SCALE))
  }

  /** `serialize_hmin`. */
  function Serialize(steps: u32): string {
    var whole, rem := steps / STEPS_PER_BIT, steps % STEPS_PER_BIT;
    if rem == 0 then NatText(whole) else NatText(whole) + "." + FractionText(rem)
  }

  // ----- what a decimal text denotes

  function Whole(token: string): string {
    token[..IndexOf(token, '.', 0)]
  }

  function Fraction(token: string): string {
    var p := IndexOf(token, '.', 0);
    if p < |token| then token[p + 1..] else ""
  }

  /** Digits, and behind a point the digits of a fraction if there is one. */
  predicate IsDecimal(token: string) {
    && Whole(token) != [] && AllDigits(Whole(token)) && AllDigits(Fraction(token))
    && (IndexOf(token, '.', 0) < |token| ==> Fraction(token) != [])
  }

  /** A decimal denotes `Mantissa` / 10^`Places`. */
  function Mantissa(token: string): nat
    requires IsDecimal(token)
  {
    NatValue(Whole(token) + Fraction(token))
  }

  function Places(token: string): nat {
    |Fraction(token)|
  }

  lemma PartsOf(w: string, f: string)
    requires AllDigits(w)
    ensures Whole(w) == w && Fraction(w) == ""
    ensures Whole(w + "." + f) == w && Fraction(w + "." + f) == f
  {
    assert forall k :: 0 <= k < |w| ==> IsDigit(w[k]) && w[k] != '.';
    IndexOfIs(w, '.', 0, |w|);
    var s := w + "." + f;
    assert forall k :: 0 <= k < |w| ==> s[k] == w[k];
    assert s[|w|] == '.';
    IndexOfIs(s, '.', 0, |w|);
    assert s[..|w|] == w && s[|w| + 1..] == f && w[..|w|] == w;
  }

  lemma Horner(v: int, p: int, low: int, d: int)
    ensures (v * p + low) * 10 + d == v * (10 * p) + (low * 10 + d)
  {
  }

  lemma {:induction false} NatValueConcat(a: string, b: string)
    requires AllDigits(a) && AllDigits(b)
    ensures AllDigits(a + b) && NatValue(a + b) == NatValue(a) * Pow10(|b|) + NatValue(b)
  {
    if b == [] {
      assert a + b == a;
    } else {
      var init := b[..|b| - 1];
      assert (a + b)[..|a + b| - 1] == a + init;
      NatValueConcat(a, init);
      var va, vi, d, p := NatValue(a), NatValue(init), b[|b| - 1] as int - 0x30, Pow10(|init|);
      assert NatValue(a + b) == (va * p + vi) * 10 + d;
      Horner(va, p, vi, d);
    }
  }

  lemma {:induction false} ZerosAreZero(s: string)
    requires forall k :: 0 <= k < |s| ==> s[k] == '0'
    ensures AllDigits(s) && NatValue(s) == 0
  {
    if s != [] {
      ZerosAreZero(s[..|s| - 1]);
    }
  }

  lemma {:induction false} Pow10Add(a: nat, b: nat)
    ensures Pow10(a + b) == Pow10(a) * Pow10(b)
  {
    if b > 0 {
      Pow10Add(a, b - 1);
      assert Pow10(a) * Pow10(b - 1) * 10 == Pow10(a) * (10 * Pow10(b - 1));
    }
  }

  lemma Pow10Of8()
    ensures Pow10(8) == 100_000_000
  {
    assert Pow10(4) == 10_000;
    assert Pow10(6) == 1_000_000;
  }

  lemma PaddedValue(n: nat)
    requires n < 100_000_000
    ensures |Padded(n)| == 8 && NatValue(Padded(n)) == n
  {
    hide NatText, NatValue, Pow10;
    Pow10Of8();
    NatTextLength(n, 8);
    var t := NatText(n);
    if |t| < 8 {
      var z := Zeros(8 - |t|);
      ZerosAreZero(z);
      NatValueConcat(z, t);
    }
  }

  lemma Cancel(a: int, b: int, q: nat)
    requires q > 0 && a * q == b * q
    ensures a == b
  {
    if a < b {
      MulLess(a, b, q);
    } else if b < a {
      MulLess(b, a, q);
    }
  }

  lemma {:induction false} MulLess(a: int, b: int, q: nat)
    requires q > 0 && a < b
    ensures a * q < b * q
  {
    if q > 1 {
      MulLess(a, b, q - 1);
      MulNext(a, q - 1);
      MulNext(b, q - 1);
    }
  }

  lemma MulNext(a: int, q: int)
    ensures a * (q + 1) == a * q + a
  {
  }

  /** The fraction text is exact: 256 of it is the remainder, at its own scale. */
  lemma FractionIsExact(rem: nat)
    requires 0 < rem < 256
    ensures var f := FractionText(rem);
      && f != [] && |f| <= 8 && f[|f| - 1] != '0' && AllDigits(f)
      && NatValue(f) * 256 == rem * Pow10(|f|)
  {
    hide Padded, NatValue, Pow10, TrimZeros;
    var n := rem * FRAC_SCALE;
    PaddedValue(n);
    var p := Padded(n);
    var f := TrimZeros(p);
    var z := p[|f|..];
    assert p == f + z;
    ZerosAreZero(z);
    NatValueConcat(f, z);
    Pow10Of8();
    Pow10Add(|f|, |z|);
    var v, pf, q := NatValue(f), Pow10(|f|), Pow10(|z|);
    assert v * q == n;
    assert (v * 256) * q == (v * q) * 256;
    assert (rem * pf) * q == rem * (pf * q);
    Cancel(v * 256, rem * pf, q);
    if f == [] {
      NoDigits();
    }
  }

  lemma NoDigits()
    ensures NatValue([]) == 0
  {
  }

  /** The token's value times 256 is the step count, with no rounding anywhere, and
      its fraction has no trailing zero. */
  lemma SerializeIsExact(steps: u32)
    ensures var token := Serialize(steps);
      && IsDecimal(token) && Places(token) <= 8
      && Mantissa(token) * 256 == steps * Pow10(Places(token))
      && (Places(token) > 0 ==> token[|token| - 1] != '0')
  {
    hide NatText, NatValue, FractionText, Pow10, Whole, Fraction;
    var whole, rem: nat := steps / STEPS_PER_BIT, steps % STEPS_PER_BIT;
    var t := NatText(whole);
    assert steps == whole * 256 + rem;
    if rem == 0 {
      PartsOf(t, "");
      assert t + "" == t;
      Pow10Of0();
      WholeIsDecimal(t);
    } else {
      FractionIsExact(rem);
      var f := FractionText(rem);
      PartsOf(t, f);
      NatValueConcat(t, f);
      var p := Pow10(|f|);
      assert (whole * p + NatValue(f)) * 256 == (whole * p) * 256 + rem * p;
      assert (whole * 256 + rem) * p == (whole * p) * 256 + rem * p;
      var token := t + "." + f;
      assert token[|token| - 1] == f[|f| - 1];
    }
  }

  lemma WholeIsDecimal(t: string)
    requires t != [] && AllDigits(t)
    ensures IsDecimal(t)
  {
    PartsOf(t, "");
    assert forall k :: 0 <= k < |t| ==> IsDigit(t[k]) && t[k] != '.';
  }

  lemma Pow10Of0()
    ensures Pow10(0) == 1
  {
  }

  /** Different step counts have different tokens. */
  lemma SerializeInjective(a: u32, b: u32)
    requires Serialize(a) == Serialize(b)
    ensures a == b
  {
    hide Serialize, IsDecimal, Mantissa, Places, Pow10;
    SerializeIsExact(a);
    SerializeIsExact(b);
    Cancel(a, b, Pow10(Places(Serialize(a))));
  }

  // ----- the token in a document

  lemma DigitBytes(t: string)
    requires t != [] && AllDigits(t)
    ensures Utf8.IsAscii(t) && Digits(Utf8.Codes(t))
  {
  }

  lemma CodesConcat(a: string, b: string)
    requires Utf8.IsAscii(a) && Utf8.IsAscii(b)
    ensures Utf8.IsAscii(a + b) && Utf8.Codes(a + b) == Utf8.Codes(a) + Utf8.Codes(b)
  {
  }

  lemma NumberOfParts(whole: seq<byte>, frac: seq<byte>)
    requires IsInt(whole) && (frac == [] || IsFrac(frac))
    ensures IsNumberToken(whole + frac)
  {
    var n := Numeral([], whole, frac, []);
    assert n.Text() == whole + frac;
    assert n.Valid();
  }

  /** The token is a number of section 6 of RFC 8259. */
  lemma SerializeIsNumber(steps: u32)
    ensures Utf8.IsAscii(Serialize(steps)) && IsNumberToken(Utf8.Codes(Serialize(steps)))
    ensures Serialize(steps) != [] && IsDigit(Serialize(steps)[0])
  {
    hide NatText, NatValue, FractionText, Pow10, Utf8.Codes, IsInt, IsFrac, IsNumberToken, Utf8.IsAscii;
    var whole, rem: nat := steps / STEPS_PER_BIT, steps % STEPS_PER_BIT;
    var t := NatText(whole);
    WholeIsInt(whole);
    if rem == 0 {
      NumberOfParts(Utf8.Codes(t), []);
      assert Utf8.Codes(t) + [] == Utf8.Codes(t);
    } else {
      var f := FractionText(rem);
      FractionIsExact(rem);
      PointThenDigits(f);
      CodesConcat(t, "." + f);
      assert t + ("." + f) == Serialize(steps);
      NumberOfParts(Utf8.Codes(t), Utf8.Codes("." + f));
    }
  }

  lemma WholeIsInt(whole: nat)
    ensures Utf8.IsAscii(NatText(whole)) && IsInt(Utf8.Codes(NatText(whole)))
  {
    var t := NatText(whole);
    DigitBytes(t);
    hide NatText;
    assert t[0] == '0' ==> Utf8.Codes(t) == [ZERO];
  }

  lemma PointThenDigits(f: string)
    requires f != [] && AllDigits(f)
    ensures Utf8.IsAscii("." + f) && IsFrac(Utf8.Codes("." + f))
  {
    DigitBytes(f);
    assert Utf8.Codes("." + f)[1..] == Utf8.Codes(f);
  }

  /** Reading the token back gives exactly the token. */
  lemma SerializeParses(steps: u32)
    ensures Parse(Serialize(steps)) == Ok(Number(Serialize(steps)))
  {
    hide Serialize, ReadNumber, IsNumberToken, Maximal, Utf8.Encode, Utf8.Codes;
    var t := Serialize(steps);
    SerializeIsNumber(steps);
    Utf8.EncodeAscii(t);
    var s := Utf8.Codes(t);
    assert s[0..|s|] == s && |s| == |t| > 0 && s[0] == t[0] as int;
    MaximalAtEnd(s);
    TokenIsRead(s, 0, |s|);
    Latin1OfCodes(t);
    DocumentOfNumber(s, t);
  }

  lemma MaximalAtEnd(s: seq<byte>)
    ensures Maximal(s, 0, |s|)
  {
  }

  lemma Latin1OfCodes(t: string)
    requires Utf8.IsAscii(t)
    ensures Utf8.Latin1(Utf8.Codes(t)) == t
  {
  }

  lemma DocumentOfNumber(s: seq<byte>, t: string)
    requires s != [] && IsDigitByte(s[0]) && ReadNumber(s, 0) == Ok((Number(t), |s|))
    ensures ReadDocument(s) == Ok(Number(t))
  {
    hide ReadNumber;
    assert SkipWs(s, 0) == 0 && SkipWs(s, |s|) == |s|;
  }

  // ----- the bound

  datatype HminError = NegativeBitsPerSample | AboveBitsPerSample

  function SaturatingMul(a: nat, b: nat): nat {
    if a * b >= TWO_64 then TWO_64 - 1 else a * b
  }

  predicate WithinBits(steps: u32, bits: i64) {
    bits >= 0 && steps <= SaturatingMul(bits, STEPS_PER_BIT)
  }

  /** `hmin_wire_token`. */
  function WireToken(steps: u32, bits: i64): Result<string, HminError> {
    if bits < 0 then Err(NegativeBitsPerSample)
    else if !WithinBits(steps, bits) then Err(AboveBitsPerSample)
    else Ok(Serialize(steps))
  }

  /** A token is issued exactly when the value lies within the bits per sample, over
      the integers: the saturating product never lets a value through or keeps one out. */
  lemma WireTokenIff(steps: u32, bits: i64)
    ensures WireToken(steps, bits).Ok? <==> 0 <= steps <= 256 * bits
    ensures WireToken(steps, bits).Ok? ==>
      var token := WireToken(steps, bits).value;
      IsDecimal(token) && Mantissa(token) <= (bits as int) * Pow10(Places(token))
    ensures WireToken(steps, bits) == Err(NegativeBitsPerSample) <==> bits < 0
  {
    hide Serialize, IsDecimal, Mantissa, Places, Pow10;
    SerializeIsExact(steps);
    if WireToken(steps, bits).Ok? {
      Below(Mantissa(Serialize(steps)), steps, bits, Pow10(Places(Serialize(steps))));
    }
  }

  lemma Below(m: nat, steps: nat, bits: nat, q: nat)
    requires m * 256 == steps * q && steps <= 256 * bits
    ensures m <= bits * q
  {
    assert steps * q <= 256 * bits * q;
    assert 256 * bits * q == 256 * (bits * q);
  }
}
