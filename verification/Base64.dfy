/** The base64 reader: one pass with a 32-bit accumulator that keeps shifting, read
    against the group-wise definition of sections 4 and 5 of RFC 4648. */
module Base64 {
  import opened Prelude
  import opened Numerals

  type sextet = n: int | 0 <= n < 64

  // ----- symbols

  /** The value of a character of either alphabet. */
  function SymbolValue(c: char): Option<sextet> {
    if 'A' <= c <= 'Z' then Some(c as int - 0x41)
    else if 'a' <= c <= 'z' then Some(c as int - 0x61 + 26)
    else if '0' <= c <= '9' then Some(c as int - 0x30 + 52)
    else if c == '+' || c == '-' then Some(62)
    else if c == '/' || c == '_' then Some(63)
    else None
  }

  predicate IsSpace(c: char) {
    c == ' ' || c == '\r' || c == '\n' || c == '\t'
  }

  // ----- groups of section 4

  /** Three bytes to four sextets; one or two left over to two or three. */
  function Sextets(b: seq<byte>): (r: seq<sextet>) {
    if |b| >= 3 then
      [b[0] as int / 4, b[0] as int % 4 * 16 + b[1] as int / 16, b[1] as int % 16 * 4 + b[2] as int / 64, b[2] as int % 64]
      + Sextets(b[3..])
    else if |b| == 2 then [b[0] as int / 4, b[0] as int % 4 * 16 + b[1] as int / 16, b[1] as int % 16 * 4]
    else if |b| == 1 then [b[0] as int / 4, b[0] as int % 4 * 16]
    else []
  }

  function Joined(v: sextet, w: sextet, low: nat): (r: int)
    requires low == 2 || low == 4 || low == 6
  {
    if low == 6 then v as int * 4 + w as int / 16
    else if low == 4 then v as int % 16 * 16 + w as int / 4
    else v as int % 4 * 64 + w as int
  }

  /** Four sextets to three bytes; what is left over to as many whole bytes as it holds. */
  function Packed(vs: seq<sextet>): (r: seq<byte>) {
    if |vs| >= 4 then [Joined(vs[0], vs[1], 6), Joined(vs[1], vs[2], 4), Joined(vs[2], vs[3], 2)] + Packed(vs[4..])
    else if |vs| == 3 then [Joined(vs[0], vs[1], 6), Joined(vs[1], vs[2], 4)]
    else if |vs| == 2 then [Joined(vs[0], vs[1], 6)]
    else []
  }

  lemma {:induction false} PackedSextets(b: seq<byte>)
    ensures Packed(Sextets(b)) == b
  {
    if |b| >= 3 {
      PackedSextets(b[3..]);
      var vs := Sextets(b);
      assert vs[4..] == Sextets(b[3..]);
      assert Joined(vs[0], vs[1], 6) == b[0] as int;
      assert Joined(vs[1], vs[2], 4) == b[1] as int;
      assert Joined(vs[2], vs[3], 2) == b[2] as int;
      assert b == [b[0], b[1], b[2]] + b[3..];
    }
  }

  /** How many bits are waiting after `n` sextets: 6n modulo 8. */
  function Waiting(n: nat): (bits: nat)
    ensures bits < 8
  {
    if n % 4 == 0 then 0 else if n % 4 == 1 then 6 else if n % 4 == 2 then 4 else 2
  }

  lemma WaitingNext(n: nat)
    ensures Waiting(n) in {0, 2, 4, 6}
    ensures Waiting(n) == 0 ==> Waiting(n + 1) == 6
    ensures Waiting(n) > 0 ==> Waiting(n + 1) == Waiting(n) - 2
  {
  }

  /** One more sextet completes a byte unless it starts a group. */
  lemma {:induction false} PackedSnoc(vs: seq<sextet>, v: sextet)
    ensures Waiting(|vs|) == 0 ==> Packed(vs + [v]) == Packed(vs)
    ensures Waiting(|vs|) > 0 ==>
      vs != [] && Waiting(|vs|) in {2, 4, 6} && Packed(vs + [v]) == Packed(vs) + [Joined(vs[|vs| - 1], v, Waiting(|vs|))]
  {
    WaitingNext(|vs|);
    if |vs| >= 4 {
      PackedSnoc(vs[4..], v);
      assert (vs + [v])[4..] == vs[4..] + [v];
      WaitingShift(|vs| - 4);
    }
  }

  lemma WaitingShift(n: nat)
    ensures Waiting(n + 4) == Waiting(n)
  {
  }

  // ----- the text

  datatype DecodeError = InvalidCharacter(c: char)

  /** The sextets of the text from `i` on, after the sextets `vs`: `=` ends it, spaces
      are skipped. */
  function Values(t: string, i: nat, vs: seq<sextet>): Result<seq<sextet>, DecodeError>
    requires i <= |t|
    decreases |t| - i
  {
    if i == |t| || t[i] == '=' then Ok(vs)
    else if IsSpace(t[i]) then Values(t, i + 1, vs)
    else
      match SymbolValue(t[i])
      case None => Err(InvalidCharacter(t[i]))
      case Some(v) => Values(t, i + 1, vs + [v])
  }

  function Decode(t: string): Result<seq<byte>, DecodeError> {
    match Values(t, 0, [])
    case Err(e) => Err(e)
    case Ok(vs) => Ok(Packed(vs))
  }

  /** `(buf << 6) | v` in 32 bits. */
  function Shifted(buf: u32, v: sextet): u32 {
    (buf as int * 64 + v as int) % 0x1_0000_0000
  }

  /** `buf >> bits`, low byte. */
  function LowByte(buf: u32, bits: nat): (r: byte)
    requires bits == 0 || bits == 2 || bits == 4
  {
    (if bits == 0 then buf as int else if bits == 2 then buf as int / 4 else buf as int / 16) % 256
  }

  /** The bits of `buf` that still count are the low bits of the last sextet; whatever
      the shift pushed out above them never matters. */
  predicate Holds(buf: u32, bits: nat, vs: seq<sextet>) {
    && bits == Waiting(|vs|)
    && (bits == 6 ==> vs != [] && buf as int % 64 == vs[|vs| - 1] as int)
    && (bits == 4 ==> vs != [] && buf as int % 16 == vs[|vs| - 1] as int % 16)
    && (bits == 2 ==> vs != [] && buf as int % 4 == vs[|vs| - 1] as int % 4)
  }

  /** Dropping the bits above 32 is taking off a multiple of 2^32. */
  lemma Truncated(buf: u32, v: sextet) returns (h: int)
    ensures Shifted(buf, v) as int == buf as int * 64 + v as int - h * 0x1_0000_0000
  {
    h := (buf as int * 64 + v as int) / 0x1_0000_0000;
  }

  lemma LowBits(k: int, r: int, m: int)
    requires 0 <= r < 256 && m == 256 * k + r
    ensures m % 256 == r
  {
  }

  lemma Quotient16(m: int, q: int, low: int)
    requires m == 16 * q + low && 0 <= low < 16
    ensures m / 16 == q
  {
  }

  lemma Quotient4(m: int, q: int, low: int)
    requires m == 4 * q + low && 0 <= low < 4
    ensures m / 4 == q
  {
  }

  lemma Take6(buf: u32, p: int, v: sextet)
    requires buf as int % 64 == p
    ensures LowByte(Shifted(buf, v), 4) == p * 4 + v as int / 16
  {
    var h := Truncated(buf, v);
    var k := buf as int / 64 - h * 0x10_0000;
    var m, r := Shifted(buf, v) as int, p * 4 + v as int / 16;
    Quotient16(m, 256 * k + r, v as int % 16);
    LowBits(k, r, 256 * k + r);
  }

  lemma Take4(buf: u32, p: int, v: sextet)
    requires buf as int % 16 == p
    ensures LowByte(Shifted(buf, v), 2) == p * 16 + v as int / 4
  {
    var h := Truncated(buf, v);
    var k := buf as int / 16 - h * 0x40_0000;
    var m, r := Shifted(buf, v) as int, p * 16 + v as int / 4;
    Quotient4(m, 256 * k + r, v as int % 4);
    LowBits(k, r, 256 * k + r);
  }

  lemma Take2(buf: u32, p: int, v: sextet)
    requires buf as int % 4 == p
    ensures LowByte(Shifted(buf, v), 0) == p * 64 + v as int
  {
    var h := Truncated(buf, v);
    var k := buf as int / 4 - h * 0x100_0000;
    LowBits(k, p * 64 + v as int, Shifted(buf, v) as int);
  }

  /** The byte taken out of the truncated buffer is the byte of the two sextets. */
  lemma TakenByte(buf: u32, bits: nat, vs: seq<sextet>, v: sextet)
    requires Holds(buf, bits, vs) && bits > 0
    ensures bits in {2, 4, 6} && vs != []
    ensures LowByte(Shifted(buf, v), bits - 2) == Joined(vs[|vs| - 1], v, bits)
  {
    WaitingNext(|vs|);
    hide LowByte, Shifted, Waiting;
    var p := vs[|vs| - 1] as int;
    if bits == 6 {
      Take6(buf, p, v);
    } else if bits == 4 {
      Take4(buf, p % 16, v);
    } else {
      Take2(buf, p % 4, v);
    }
  }

  lemma ShiftedLow(buf: u32, v: sextet)
    ensures Shifted(buf, v) as int % 64 == v as int
    ensures Shifted(buf, v) as int % 16 == v as int % 16
    ensures Shifted(buf, v) as int % 4 == v as int % 4
  {
    var h := Truncated(buf, v);
    var k, m := buf as int - h * 0x400_0000, Shifted(buf, v) as int;
    hide Shifted;
    Remainder64(m, k, v as int);
    Remainder16(m, 4 * k + v as int / 16, v as int % 16);
    Remainder4(m, 16 * k + v as int / 4, v as int % 4);
  }

  lemma Remainder64(m: int, q: int, low: int)
    requires m == 64 * q + low && 0 <= low < 64
    ensures m % 64 == low
  {
  }

  lemma Remainder16(m: int, q: int, low: int)
    requires m == 16 * q + low && 0 <= low < 16
    ensures m % 16 == low
  {
  }

  lemma Remainder4(m: int, q: int, low: int)
    requires m == 4 * q + low && 0 <= low < 4
    ensures m % 4 == low
  {
  }

  lemma HoldsNext(buf: u32, bits: nat, vs: seq<sextet>, v: sextet)
    requires Holds(buf, bits, vs)
    ensures Holds(Shifted(buf, v), if bits == 0 then 6 else bits - 2, vs + [v])
  {
    hide Shifted;
    ShiftedLow(buf, v);
    WaitingNext(|vs|);
  }

  method DecodeBase64(t: string) returns (r: Result<seq<byte>, DecodeError>)
    ensures r == Decode(t)
  {
    hide Packed, Holds, Shifted, LowByte, Waiting, Joined, SymbolValue;
    var out: seq<byte> := [];
    var buf: u32, bits: nat := 0, 0;
    ghost var vs: seq<sextet> := [];
    StartHolds();
    for i := 0 to |t|
      invariant Values(t, i, vs) == Values(t, 0, [])
      invariant out == Packed(vs) && Holds(buf, bits, vs)
    {
      var c := t[i];
      if c == '=' { break; }
      if IsSpace(c) { continue; }
      var v := SymbolValue(c);
      if v.None? { return Err(InvalidCharacter(c)); }
      HoldsBits(buf, bits, vs);
      PackedSnoc(vs, v.value);
      HoldsNext(buf, bits, vs, v.value);
      if bits > 0 { TakenByte(buf, bits, vs, v.value); }
      buf := Shifted(buf, v.value);
      bits := bits + 6;
      if bits >= 8 {
        bits := bits - 8;
        out := out + [LowByte(buf, bits)];
      }
      vs := vs + [v.value];
    }
    return Ok(out);
  }

  lemma StartHolds()
    ensures Holds(0, 0, []) && Packed([]) == []
  {
  }

  lemma HoldsBits(buf: u32, bits: nat, vs: seq<sextet>)
    requires Holds(buf, bits, vs)
    ensures bits == Waiting(|vs|) && bits in {0, 2, 4, 6}
  {
    WaitingNext(|vs|);
  }

  // ----- the alphabets

  /** The alphabets of sections 4 and 5 of RFC 4648. */
  const STANDARD: string := "ABCDEFGHIJKLMNOPQRSTUVWXYZ" + "abcdefghijklmnopqrstuvwxyz" + "0123456789" + "+/"
  const URL_SAFE: string := "ABCDEFGHIJKLMNOPQRSTUVWXYZ" + "abcdefghijklmnopqrstuvwxyz" + "0123456789" + "-_"

  /** The character stands for the value in one of the two alphabets. */
  predicate IsSymbol(c: char, v: sextet) {
    c == STANDARD[v] || c == URL_SAFE[v]
  }

  predicate IsBlank(c: char) {
    c in " \t\r\n"
  }

  /** Neither in an alphabet, nor a blank, nor the padding. */
  ghost predicate IsForeign(c: char) {
    (forall v: sextet :: !IsSymbol(c, v)) && !IsBlank(c) && c != '='
  }

  lemma BlankIff(c: char)
    ensures IsSpace(c) <==> IsBlank(c)
  {
    assert " \t\r\n" == [' ', '\t', '\r', '\n'];
  }

  lemma Letters(v: nat)
    requires v < 26
    ensures "ABCDEFGHIJKLMNOPQRSTUVWXYZ"[v] as int == 0x41 + v && "abcdefghijklmnopqrstuvwxyz"[v] as int == 0x61 + v
  {
    var t, u := "ABCDEFGHIJKLMNOPQRSTUVWXYZ", "abcdefghijklmnopqrstuvwxyz";
    assert forall k :: 0 <= k < 26 ==> t[k] as int == 0x41 + k;
    assert forall k :: 0 <= k < 26 ==> u[k] as int == 0x61 + k;
  }

  lemma Numbers(v: nat)
    requires v < 10
    ensures "0123456789"[v] as int == 0x30 + v
  {
    var t := "0123456789";
    assert forall k :: 0 <= k < 10 ==> t[k] as int == 0x30 + k;
  }

  /** What stands at a place of the alphabets. */
  lemma AlphabetAt(v: sextet)
    ensures v < 26 ==> STANDARD[v] == URL_SAFE[v] && STANDARD[v] as int == 0x41 + v
    ensures 26 <= v < 52 ==> STANDARD[v] == URL_SAFE[v] && STANDARD[v] as int == 0x61 + (v - 26)
    ensures 52 <= v < 62 ==> STANDARD[v] == URL_SAFE[v] && STANDARD[v] as int == 0x30 + (v - 52)
    ensures v == 62 ==> STANDARD[v] == '+' && URL_SAFE[v] == '-'
    ensures v == 63 ==> STANDARD[v] == '/' && URL_SAFE[v] == '_'
  {
    if v < 26 {
      Letters(v);
    } else if v < 52 {
      Letters(v as int - 26);
    } else if v < 62 {
      Numbers(v as int - 52);
    }
  }

  /** The reader's values are the places in the alphabets. */
  lemma SymbolIff(c: char, v: sextet)
    ensures SymbolValue(c) == Some(v) <==> IsSymbol(c, v)
  {
    AlphabetAt(v);
    hide STANDARD, URL_SAFE;
  }

  lemma NoSymbolIff(c: char)
    ensures SymbolValue(c) == None <==> forall v: sextet :: !IsSymbol(c, v)
  {
    hide SymbolValue, IsSymbol;
    forall v: sextet ensures SymbolValue(c) == Some(v) <==> IsSymbol(c, v) {
      SymbolIff(c, v);
    }
    if SymbolValue(c).Some? { assert IsSymbol(c, SymbolValue(c).value); }
  }

  // ----- what the sextets denote

  /** The bytes hold the bits of the sextets, as many whole bytes as there are. */
  predicate HoldBits(b: seq<byte>, vs: seq<sextet>) {
    |b| == |vs| * 6 / 8 && Positional(b, 256) == Positional(vs, 64) / Power(2, |vs| * 6 % 8)
  }

  /** The bytes hold the bits of the sextets from the front, and drop what does not fill
      a byte. */
  lemma {:induction false} PackedIsNumber(vs: seq<sextet>)
    ensures HoldBits(Packed(vs), vs)
  {
    hide Packed, Positional, Power, HoldBits;
    if vs == [] {
      NoBits();
    } else {
      var init, v := vs[..|vs| - 1], vs[|vs| - 1];
      assert vs == init + [v];
      PackedIsNumber(init);
      MoreBits(init, v);
    }
  }

  lemma NoBits()
    ensures HoldBits(Packed([]), [])
  {
  }

  lemma MoreBits(init: seq<sextet>, v: sextet)
    requires HoldBits(Packed(init), init)
    ensures HoldBits(Packed(init + [v]), init + [v])
  {
    hide Packed, Positional, Power, Waiting;
    PackedSnoc(init, v);
    PositionalSnoc(init, v, 64);
    WaitingIs(|init|);
    Powers();
    if Waiting(|init|) > 0 {
      PositionalSnoc(Packed(init), Joined(init[|init| - 1], v, Waiting(|init|)), 256);
      LowSextet(init);
      Filled(Positional(init, 64), init[|init| - 1], v, Waiting(|init|), Positional(Packed(init), 256));
    } else {
      AllHeld(Positional(init, 64), v as int);
    }
  }

  lemma AllHeld(n: nat, x: nat)
    requires x < 64
    ensures (n * 64 + x) / 64 == n
  {
  }

  lemma WaitingIs(n: nat)
    ensures Waiting(n) == n * 6 % 8
    ensures (n + 1) * 6 / 8 == n * 6 / 8 + (if Waiting(n) == 0 then 0 else 1)
    ensures (n + 1) * 6 % 8 == if Waiting(n) == 0 then 6 else Waiting(n) - 2
  {
  }

  lemma Powers()
    ensures Power(2, 0) == 1 && Power(2, 2) == 4 && Power(2, 4) == 16 && Power(2, 6) == 64
  {
    assert Power(2, 1) == 2 && Power(2, 3) == 8 && Power(2, 5) == 32;
  }

  lemma LowSextet(vs: seq<sextet>)
    requires vs != []
    ensures Positional(vs, 64) % 64 == vs[|vs| - 1] as int
  {
    hide Positional;
    var init, last := vs[..|vs| - 1], vs[|vs| - 1];
    assert vs == init + [last];
    PositionalSnoc(init, last, 64);
    Remainder64(Positional(vs, 64), Positional(init, 64), last as int);
  }

  /** Six more bits behind the number `n` fill a byte behind the bytes so far. */
  lemma Filled6(n: nat, bytes: nat, last: nat, x: nat)
    requires n == bytes * 64 + last
    ensures bytes * 256 + (last * 4 + x / 16) == (n * 64 + x) / 16
  {
    assert n * 64 + x == n * 4 * 16 + x;
    DivideOut(n * 4, 16, x);
  }

  lemma Filled4(n: nat, bytes: nat, low: nat, x: nat)
    requires n == bytes * 16 + low
    ensures bytes * 256 + (low * 16 + x / 4) == (n * 64 + x) / 4
  {
    assert n * 64 + x == n * 16 * 4 + x;
    DivideOut(n * 16, 4, x);
  }

  lemma Filled2(n: nat, bytes: nat, low: nat, x: nat)
    requires n == bytes * 4 + low
    ensures bytes * 256 + (low * 64 + x) == (n * 64 + x) / 1
  {
  }

  lemma DivideOut(n: nat, d: nat, x: nat)
    requires d == 16 || d == 4
    ensures (n * d + x) / d == n + x / d
  {
  }

  lemma Remainders(n: nat)
    ensures n == n / 64 * 64 + n % 64 && n == n / 16 * 16 + n % 16 && n == n / 4 * 4 + n % 4
  {
  }

  lemma LowPart(q: nat, r: nat)
    ensures (q * 64 + r) % 16 == r % 16 && (q * 64 + r) % 4 == r % 4
  {
    Remainder16(q * 64 + r, 4 * q + r / 16, r % 16);
    Remainder4(q * 64 + r, 16 * q + r / 4, r % 4);
  }

  /** One more sextet fills the byte that was begun. */
  lemma Filled(n: nat, last: sextet, v: sextet, waiting: nat, bytes: nat)
    requires waiting in {2, 4, 6} && n % 64 == last as int
    requires bytes == n / (if waiting == 6 then 64 else if waiting == 4 then 16 else 4)
    ensures bytes * 256 + Joined(last, v, waiting)
         == (n * 64 + v as int) / (if waiting == 6 then 16 else if waiting == 4 then 4 else 1)
  {
    Remainders(n);
    LowPart(n / 64, n % 64);
    if waiting == 6 {
      Filled6(n, bytes, last as int, v as int);
    } else if waiting == 4 {
      Filled4(n, bytes, last as int % 16, v as int);
    } else {
      Filled2(n, bytes, last as int % 4, v as int);
    }
  }

  /** Equal numbers of as many digits have equal digits. */
  lemma {:induction false} PositionalInjective(a: seq<byte>, b: seq<byte>)
    requires |a| == |b| && Positional(a, 256) == Positional(b, 256)
    ensures a == b
  {
    if a != [] {
      var i, j := a[..|a| - 1], b[..|b| - 1];
      assert a == i + [a[|a| - 1]] && b == j + [b[|b| - 1]];
      PositionalSnoc(i, a[|a| - 1], 256);
      PositionalSnoc(j, b[|b| - 1], 256);
      PositionalInjective(i, j);
    }
  }

  // ----- round trip

  /** The text without its whitespace. */
  function Dense(t: string): string {
    if t == [] then []
    else if IsBlank(t[0]) then Dense(t[1..])
    else [t[0]] + Dense(t[1..])
  }

  function Symbols(vs: seq<sextet>, urlSafe: bool): (r: string)
    ensures |r| == |vs| && forall k :: 0 <= k < |vs| ==> r[k] == if urlSafe then URL_SAFE[vs[k]] else STANDARD[vs[k]]
  {
    seq(|vs|, k requires 0 <= k < |vs| => if urlSafe then URL_SAFE[vs[k]] else STANDARD[vs[k]])
  }

  /** The padding section 4 asks for. */
  function Padding(n: nat): string {
    if n % 3 == 1 then "==" else if n % 3 == 2 then "=" else ""
  }

  function Encode(b: seq<byte>, urlSafe: bool, padded: bool): string {
    Symbols(Sextets(b), urlSafe) + (if padded then Padding(|b|) else "")
  }

  /** Each symbol of the text is one of the two characters for the value. */
  predicate AreSymbolsOf(t: string, vs: seq<sextet>) {
    |t| == |vs| && forall k :: 0 <= k < |vs| ==> IsSymbol(t[k], vs[k])
  }

  lemma {:induction false} ValuesOfSymbols(t: string, rest: string, vs: seq<sextet>, i: nat)
    requires AreSymbolsOf(t, vs) && i <= |t| && (rest == [] || rest[0] == '=')
    ensures Values(t + rest, i, vs[..i]) == Ok(vs)
    decreases |t| - i
  {
    hide SymbolValue, IsSymbol;
    if i == |t| {
      assert vs[..i] == vs;
    } else {
      var c := (t + rest)[i];
      assert c == t[i];
      SymbolIff(c, vs[i]);
      SymbolIsPlain(c, vs[i]);
      assert vs[..i] + [vs[i]] == vs[..i + 1];
      ValuesOfSymbols(t, rest, vs, i + 1);
    }
  }

  /** Whitespace never changes the sextets. */
  lemma {:induction false} ValuesIgnoreSpaces(t: string, i: nat, d: string, j: nat, vs: seq<sextet>)
    requires i <= |t| && j <= |d| && Dense(t[i..]) == d[j..]
    ensures Values(t, i, vs) == Values(d, j, vs)
    decreases |t| - i
  {
    if i == |t| {
      assert d[j..] == [];
    } else {
      assert t[i..][0] == t[i] && t[i..][1..] == t[i + 1..];
      BlankIff(t[i]);
      hide SymbolValue, IsSpace, IsBlank;
      if IsSpace(t[i]) {
        ValuesIgnoreSpaces(t, i + 1, d, j, vs);
      } else {
        assert d[j] == d[j..][0] == t[i];
        assert d[j..][1..] == d[j + 1..];
        assert ([t[i]] + Dense(t[i + 1..]))[1..] == Dense(t[i + 1..]);
        if SymbolValue(t[i]).Some? {
          ValuesIgnoreSpaces(t, i + 1, d, j + 1, vs + [SymbolValue(t[i]).value]);
        }
      }
    }
  }

  /** Every text that is an encoding once its whitespace is taken out decodes to the
      bytes: symbols of either alphabet, even mixed, then nothing or a padding. */
  lemma DecodeInverts(t: string, b: seq<byte>, symbols: string, rest: string)
    requires Dense(t) == symbols + rest && AreSymbolsOf(symbols, Sextets(b))
    requires rest == [] || rest[0] == '='
    ensures Decode(t) == Ok(b)
  {
    hide Values, Packed, Sextets, Dense;
    assert t[0..] == t && Dense(t)[0..] == Dense(t);
    ValuesIgnoreSpaces(t, 0, Dense(t), 0, []);
    assert Sextets(b)[..0] == [];
    ValuesOfSymbols(symbols, rest, Sextets(b), 0);
    PackedSextets(b);
  }

  /** The canonical encoders are among those texts, with whitespace put anywhere. */
  lemma EncodedDecodes(t: string, b: seq<byte>, urlSafe: bool, padded: bool)
    requires Dense(t) == Encode(b, urlSafe, padded)
    ensures Decode(t) == Ok(b)
  {
    hide Decode, Dense, Sextets;
    DecodeInverts(t, b, Symbols(Sextets(b), urlSafe), if padded then Padding(|b|) else "");
  }

  /** Two byte strings never share an encoding. */
  lemma EncodeInjective(b: seq<byte>, c: seq<byte>, urlSafe: bool, padded: bool)
    requires Encode(b, urlSafe, padded) == Encode(c, urlSafe, padded)
    ensures b == c
  {
    hide Decode, Encode, Dense;
    var t := Encode(b, urlSafe, padded);
    EncodedIsDense(b, urlSafe, padded);
    EncodedDecodes(t, b, urlSafe, padded);
    EncodedDecodes(t, c, urlSafe, padded);
  }

  lemma {:induction false} AlreadyDense(t: string)
    requires forall k :: 0 <= k < |t| ==> !IsBlank(t[k])
    ensures Dense(t) == t
  {
    hide IsBlank;
    if t != [] {
      AlreadyDense(t[1..]);
    }
  }

  lemma EncodedIsDense(b: seq<byte>, urlSafe: bool, padded: bool)
    ensures Dense(Encode(b, urlSafe, padded)) == Encode(b, urlSafe, padded)
  {
    var vs, t := Sextets(b), Encode(b, urlSafe, padded);
    forall k | 0 <= k < |t| ensures !IsBlank(t[k]) {
      if k < |vs| {
        SymbolIsPlain(t[k], vs[k]);
      } else {
        assert t[k] == '=';
      }
    }
    AlreadyDense(t);
  }

  lemma SymbolIsPlain(c: char, v: sextet)
    requires IsSymbol(c, v)
    ensures !IsBlank(c) && !IsSpace(c) && c != '='
  {
    hide IsSymbol, IsBlank;
    SymbolIff(c, v);
    BlankIff(c);
  }

  // ----- every text

  /** The first foreign character stands at `k`, before any padding. */
  ghost predicate FirstForeign(t: string, i: nat, k: nat) {
    i <= k < |t| && IsForeign(t[k]) && forall j :: i <= j < k ==> t[j] != '=' && !IsForeign(t[j])
  }

  lemma ForeignIff(c: char)
    ensures IsForeign(c) <==> c != '=' && !IsSpace(c) && SymbolValue(c) == None
  {
    hide IsSymbol, SymbolValue, IsBlank, IsSpace;
    BlankIff(c);
    NoSymbolIff(c);
  }

  /** Decoding fails exactly when a foreign character stands before the first `=`, and
      names the first of them. */
  lemma {:induction false} FailsIff(t: string, i: nat, vs: seq<sextet>, c: char)
    requires i <= |t|
    ensures Values(t, i, vs) == Err(InvalidCharacter(c)) <==> exists k: nat :: FirstForeign(t, i, k) && t[k] == c
    decreases |t| - i
  {
    hide IsForeign, SymbolValue, IsSpace;
    if i < |t| {
      ForeignIff(t[i]);
      if t[i] != '=' && !IsForeign(t[i]) {
        var next := if IsSpace(t[i]) then vs else vs + [SymbolValue(t[i]).value];
        FailsIff(t, i + 1, next, c);
        ForeignBehind(t, i, c);
      } else if IsForeign(t[i]) {
        assert FirstForeign(t, i, i);
      }
    }
  }

  lemma ForeignBehind(t: string, i: nat, c: char)
    requires i < |t| && t[i] != '=' && !IsForeign(t[i])
    ensures (exists k: nat :: FirstForeign(t, i, k) && t[k] == c) <==> exists k: nat :: FirstForeign(t, i + 1, k) && t[k] == c
  {
    hide IsForeign;
    if k: nat :| FirstForeign(t, i, k) && t[k] == c { assert FirstForeign(t, i + 1, k); }
    if k: nat :| FirstForeign(t, i + 1, k) && t[k] == c { assert FirstForeign(t, i, k); }
  }

  /** The text is, blanks aside, symbols for `vs` and then nothing or a padding. */
  ghost predicate Spells(t: string, vs: seq<sextet>) {
    exists symbols, rest :: Dense(t) == symbols + rest && AreSymbolsOf(symbols, vs) && (rest == "" || rest[0] == '=')
  }

  /** Any text that decodes, canonical or not, decodes to the bits of its symbols. */
  lemma DecodeIff(t: string, b: seq<byte>)
    ensures Decode(t) == Ok(b) <==> exists vs: seq<sextet> :: Spells(t, vs) && HoldBits(b, vs)
  {
    hide Values, Packed, Spells, HoldBits;
    if Decode(t) == Ok(b) {
      var vs := Values(t, 0, []).value;
      ReadIsSpelled(t, vs);
      BitsIff(b, vs);
    }
    if vs: seq<sextet> :| Spells(t, vs) && HoldBits(b, vs) {
      SpelledIsRead(t, vs);
      BitsIff(b, vs);
    }
  }

  lemma BitsIff(b: seq<byte>, vs: seq<sextet>)
    ensures HoldBits(b, vs) <==> b == Packed(vs)
  {
    hide Packed, Positional, Power;
    PackedIsNumber(vs);
    if HoldBits(b, vs) { PositionalInjective(b, Packed(vs)); }
  }

  lemma ReadIsSpelled(t: string, vs: seq<sextet>)
    requires Values(t, 0, []) == Ok(vs)
    ensures Spells(t, vs)
  {
    hide Values, Dense, AreSymbolsOf, Spells, IsBlank;
    var d := Dense(t);
    assert t[0..] == t && d[0..] == d;
    ValuesIgnoreSpaces(t, 0, d, 0, []);
    DenseHasNoBlank(t);
    ValuesSpelled(d, 0, []);
    assert vs[0..] == vs;
    SpelledByValues(t, vs);
  }

  lemma SpelledByValues(t: string, vs: seq<sextet>)
    requires exists symbols, rest :: Dense(t) == symbols + rest && AreSymbolsOf(symbols, vs) && (rest == "" || rest[0] == '=')
    ensures Spells(t, vs)
  {
  }

  lemma SpelledIsRead(t: string, vs: seq<sextet>)
    requires Spells(t, vs)
    ensures Values(t, 0, []) == Ok(vs)
  {
    hide Values, Dense, AreSymbolsOf;
    var symbols, rest :| Dense(t) == symbols + rest && AreSymbolsOf(symbols, vs) && (rest == "" || rest[0] == '=');
    assert t[0..] == t && Dense(t)[0..] == Dense(t);
    ValuesIgnoreSpaces(t, 0, Dense(t), 0, []);
    assert vs[..0] == [];
    ValuesOfSymbols(symbols, rest, vs, 0);
  }

  lemma {:induction false} DenseHasNoBlank(t: string)
    ensures forall k :: 0 <= k < |Dense(t)| ==> !IsBlank(Dense(t)[k])
  {
    hide IsBlank;
    if t != "" { DenseHasNoBlank(t[1..]); }
  }

  /** Values that were read were spelled, up to the padding. */
  lemma {:induction false} ValuesSpelled(d: string, i: nat, vs: seq<sextet>)
    requires i <= |d| && forall k :: 0 <= k < |d| ==> !IsBlank(d[k])
    requires Values(d, i, vs).Ok?
    ensures vs <= Values(d, i, vs).value
    ensures var more := Values(d, i, vs).value[|vs|..];
      exists symbols, rest :: d[i..] == symbols + rest && AreSymbolsOf(symbols, more) && (rest == "" || rest[0] == '=')
    decreases |d| - i
  {
    hide IsBlank, IsSymbol, SymbolValue, IsSpace;
    if i == |d| || d[i] == '=' {
      assert d[i..] == "" + d[i..] && AreSymbolsOf("", []);
    } else {
      BlankIff(d[i]);
      var v := SymbolValue(d[i]).value;
      SymbolIff(d[i], v);
      ValuesSpelled(d, i + 1, vs + [v]);
      var all := Values(d, i, vs).value;
      var more := all[|vs| + 1..];
      var symbols, rest :| d[i + 1..] == symbols + rest && AreSymbolsOf(symbols, more) && (rest == "" || rest[0] == '=');
      assert all[|vs|] == (vs + [v])[|vs|] == v;
      assert all[|vs|..] == [v] + more;
      assert d[i..] == [d[i]] + symbols + rest;
      assert AreSymbolsOf([d[i]] + symbols, all[|vs|..]);
    }
  }
}
