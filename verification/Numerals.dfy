/** What a text of digits denotes, place by place, and the readers of decimal texts
    against it: on every text, not only on printed ones. */
module Numerals {
  import opened Prelude
  import opened Decimal

  function Power(base: nat, k: nat): (r: nat)
    ensures base > 0 ==> r > 0
  {
    if k == 0 then 1 else base * Power(base, k - 1)
  }

  /** Every digit counts by its place, the last one once. */
  function Positional(digits: seq<nat>, base: nat): nat {
    if digits == [] then 0 else digits[0] * Power(base, |digits| - 1) + Positional(digits[1..], base)
  }

  lemma {:induction false} PositionalSnoc(digits: seq<nat>, d: nat, base: nat)
    ensures Positional(digits + [d], base) == Positional(digits, base) * base + d
  {
    if digits == [] {
      assert (digits + [d])[1..] == [];
      assert Power(base, 0) == 1;
    } else {
      assert (digits + [d])[1..] == digits[1..] + [d];
      PositionalSnoc(digits[1..], d, base);
      Distributes(digits[0], Power(base, |digits| - 1), Positional(digits[1..], base), base, d);
    }
  }

  lemma Distributes(a: nat, p: nat, rest: nat, base: nat, d: nat)
    ensures a * (base * p) + (rest * base + d) == (a * p + rest) * base + d
  {
  }

  // ----- decimal texts

  predicate IsDecimal(c: char, d: nat) {
    d < 10 && c == "0123456789"[d]
  }

  predicate WritesDecimals(s: string, digits: seq<nat>) {
    |s| == |digits| && forall k :: 0 <= k < |s| ==> IsDecimal(s[k], digits[k])
  }

  /** One or more decimal digits for `n`, leading zeros or not. */
  ghost predicate Spells(s: string, n: nat) {
    s != "" && exists digits :: WritesDecimals(s, digits) && Positional(digits, 10) == n
  }

  /** The same with an optional `+` in front. */
  ghost predicate SpellsUnsigned(s: string, n: nat) {
    Spells(s, n) || (s != "" && s[0] == '+' && Spells(s[1..], n))
  }

  /** With an optional sign in front. */
  ghost predicate SpellsSigned(s: string, n: int) {
    (n >= 0 && SpellsUnsigned(s, n)) || (n <= 0 && s != "" && s[0] == '-' && Spells(s[1..], -n))
  }

  predicate IsHexDigit(c: char, d: nat) {
    d < 16 && (c == "0123456789abcdef"[d] || c == "0123456789ABCDEF"[d])
  }

  predicate WritesHex(s: string, digits: seq<nat>) {
    |s| == |digits| && forall k :: 0 <= k < |s| ==> IsHexDigit(s[k], digits[k])
  }

  /** One or more hex digits for `n`, of either case, leading zeros or not. */
  ghost predicate SpellsHex(s: string, n: nat) {
    s != "" && exists digits :: WritesHex(s, digits) && Positional(digits, 16) == n
  }

  function DigitsOf(s: string): (r: seq<nat>)
    requires AllDigits(s)
    ensures |r| == |s| && forall k :: 0 <= k < |s| ==> r[k] == s[k] as int - 0x30
  {
    seq(|s|, k requires 0 <= k < |s| => s[k] as int - 0x30)
  }

  lemma DecimalIff(c: char, d: nat)
    ensures IsDecimal(c, d) <==> IsDigit(c) && d == c as int - 0x30
  {
    var t := "0123456789";
    assert t[0] == '0' && t[1] == '1' && t[2] == '2' && t[3] == '3' && t[4] == '4';
    assert t[5] == '5' && t[6] == '6' && t[7] == '7' && t[8] == '8' && t[9] == '9';
  }

  lemma WritesIff(s: string, digits: seq<nat>)
    ensures WritesDecimals(s, digits) <==> AllDigits(s) && digits == DigitsOf(s)
  {
    hide IsDecimal;
    forall c, d ensures IsDecimal(c, d) <==> IsDigit(c) && d == c as int - 0x30 {
      DecimalIff(c, d);
    }
  }

  lemma {:induction false} ValueIsPositional(s: string)
    requires AllDigits(s)
    ensures NatValue(s) == Positional(DigitsOf(s), 10)
  {
    if s != [] {
      var t := s[..|s| - 1];
      ValueIsPositional(t);
      PositionalSnoc(DigitsOf(t), s[|s| - 1] as int - 0x30, 10);
      assert DigitsOf(s) == DigitsOf(t) + [s[|s| - 1] as int - 0x30];
    }
  }

  lemma SpellsIff(s: string, n: nat)
    ensures Spells(s, n) <==> s != "" && AllDigits(s) && NatValue(s) == n
  {
    hide WritesDecimals, Positional, NatValue;
    forall digits ensures WritesDecimals(s, digits) <==> AllDigits(s) && digits == DigitsOf(s) {
      WritesIff(s, digits);
    }
    if AllDigits(s) {
      ValueIsPositional(s);
      assert WritesDecimals(s, DigitsOf(s));
    }
  }

  /** Which text is printed for a number: its digits, without a redundant zero. */
  lemma NatTextIff(n: nat, s: string)
    ensures NatText(n) == s <==> Spells(s, n) && (|s| > 1 ==> s[0] != '0')
  {
    hide Spells;
    SpellsIff(s, n);
    if Spells(s, n) && (|s| > 1 ==> s[0] != '0') {
      assert s[0] == '0' ==> s == "0";
      NatTextOfValue(s);
    }
  }

  /** `str::parse` of an unsigned number, on every text. */
  lemma ParseUnsignedIff(s: string, bound: nat, n: nat)
    ensures ParseUnsigned(s, bound) == Some(n) <==> n < bound && SpellsUnsigned(s, n)
  {
    hide Spells;
    SpellsIff(s, n);
    if s != "" && s[0] == '+' {
      SpellsIff(s[1..], n);
      assert !IsDigit(s[0]);
    }
  }

  /** `str::parse` of a signed number, on every text. */
  lemma ParseI64Iff(s: string, n: i64)
    ensures ParseI64(s) == Some(n) <==> SpellsSigned(s, n)
  {
    hide Spells;
    if n >= 0 {
      SpellsIff(s, n);
      if s != "" && s[0] == '+' { SpellsIff(s[1..], n); }
    }
    if n <= 0 && s != "" && s[0] == '-' { SpellsIff(s[1..], -(n as int)); }
    if s != "" { assert s[0] == '+' || s[0] == '-' ==> !IsDigit(s[0]); }
  }
}
