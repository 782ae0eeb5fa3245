/** Decimal texts: what `to_string` prints for an integer and what `str::parse`
    accepts, with the exact ranges. */
module Decimal {
  import opened Prelude

  predicate IsDigit(c: char) {
    '0' <= c <= '9'
  }

  predicate AllDigits(s: string) {
    forall k :: 0 <= k < |s| ==> IsDigit(s[k])
  }

  function DigitChar(d: nat): (c: char)
    requires d < 10
    ensures IsDigit(c) && c as int == 0x30 + d
  {
    (0x30 + d) as char
  }

  /** The number a digit string denotes. */
  function NatValue(s: string): nat
    requires AllDigits(s)
  {
    if s == [] then 0
    else NatValue(s[..|s| - 1]) * 10 + (s[|s| - 1] as int - 0x30)
  }

  function NatText(n: nat): (s: string)
    ensures |s| > 0 && AllDigits(s)
    ensures s[0] == '0' ==> n == 0 && s == "0"
    ensures NatValue(s) == n
  {
    if n < 10 then
      assert [DigitChar(n)][..0] == [];
      [DigitChar(n)]
    else
      var s := NatText(n / 10) + [DigitChar(n % 10)];
      assert s[..|s| - 1] == NatText(n / 10);
      assert s[0] == NatText(n / 10)[0];
      s
  }

  function IntText(n: int): string {
    if n < 0 then "-" + NatText(-n) else NatText(n)
  }

  /** Rust's `str::parse` for an unsigned type with values below `bound`: an
      optional `+`, then at least one digit, nothing else, no overflow. */
  function ParseUnsigned(s: string, bound: nat): (r: Option<nat>)
    ensures r.Some? ==> r.value < bound
  {
    var digits := if |s| > 0 && s[0] == '+' then s[1..] else s;
    if digits == [] || !AllDigits(digits) then None
    else if NatValue(digits) < bound then Some(NatValue(digits))
    else None
  }

  /** Rust's `str::parse::<i64>`. */
  function ParseI64(s: string): Option<i64> {
    var negative := |s| > 0 && s[0] == '-';
    var digits := if negative || (|s| > 0 && s[0] == '+') then s[1..] else s;
    if digits == [] || !AllDigits(digits) then None
    else
      var v: int := NatValue(digits);
      var n := if negative then -v else v;
      if -0x8000_0000_0000_0000 <= n < 0x8000_0000_0000_0000 then Some(n) else None
  }

  lemma ParseUnsignedNatText(n: nat, bound: nat)
    ensures ParseUnsigned(NatText(n), bound) == if n < bound then Some(n) else None
  {
    assert IsDigit(NatText(n)[0]);
  }

  lemma ParseI64IntText(n: i64)
    ensures ParseI64(IntText(n)) == Some(n)
  {
    var text := IntText(n);
    if n < 0 {
      var m: nat := -(n as int);
      var digits := NatText(m);
      assert text[0] == '-' && text[1..] == digits;
    } else {
      assert IsDigit(text[0]);
    }
  }

  lemma NatTextInjective(m: nat, n: nat)
    requires NatText(m) == NatText(n)
    ensures m == n
  {
    assert NatValue(NatText(m)) == NatValue(NatText(n));
  }

  /** A digit string without a redundant leading zero is the text of its value. */
  lemma {:induction false} NatTextOfValue(s: string)
    requires s != [] && AllDigits(s)
    requires s[0] == '0' ==> s == "0"
    ensures NatText(NatValue(s)) == s
  {
    if |s| == 1 {
      assert s[..0] == [];
      assert s == [s[0]];
    } else {
      var t := s[..|s| - 1];
      NatTextOfValue(t);
      assert t != "0";
      assert NatValue(t) != 0;
      var d := s[|s| - 1] as int - 0x30;
      assert NatValue(s) == NatValue(t) * 10 + d;
      assert NatValue(s) / 10 == NatValue(t) && NatValue(s) % 10 == d;
      assert s == t + [s[|s| - 1]];
    }
  }

  // ----- lengths

  function Pow10(k: nat): (r: nat)
    ensures r > 0
  {
    if k == 0 then 1 else 10 * Pow10(k - 1)
  }

  lemma {:induction false} NatTextLength(n: nat, k: nat)
    requires k > 0 && n < Pow10(k)
    ensures |NatText(n)| <= k
    decreases k
  {
    if n >= 10 {
      assert Pow10(k) == 10 * Pow10(k - 1);
      NatTextLength(n / 10, k - 1);
    }
  }
}
