/** The tokens of the lossless reader are exact: numbers against the grammar of
    section 6 of RFC 8259, string literals against section 7, and the depth bound. */
module LiteTokens {
  import opened Prelude
  import opened JsonLex
  import opened JsonLite
  import Utf8

  // ----- the number grammar

  predicate Digits(t: seq<byte>) {
    t != [] && forall k :: 0 <= k < |t| ==> IsDigitByte(t[k])
  }

  predicate IsInt(t: seq<byte>) {
    t == [ZERO] || (Digits(t) && t[0] != ZERO)
  }

  predicate IsFrac(t: seq<byte>) {
    |t| >= 1 && t[0] == DOT && Digits(t[1..])
  }

  predicate IsE(x: byte) {
    x == 0x65 || x == 0x45
  }

  predicate IsExp(t: seq<byte>) {
    |t| >= 1 && IsE(t[0])
    && (Digits(t[1..]) || (|t| >= 2 && (t[1] == PLUS || t[1] == MINUS) && Digits(t[2..])))
  }

  /** `[minus] int [frac] [exp]`; an absent part is empty. */
  datatype Numeral = Numeral(sign: seq<byte>, int_: seq<byte>, frac: seq<byte>, exp: seq<byte>) {
    predicate Valid() {
      && (sign == [] || sign == [MINUS])
      && IsInt(int_)
      && (frac == [] || IsFrac(frac))
      && (exp == [] || IsExp(exp))
    }

    function Text(): seq<byte> {
      sign + int_ + frac + exp
    }

    /** The byte `x` cannot continue the numeral. */
    predicate StopByte(x: byte) {
      if exp != [] then !IsDigitByte(x)
      else if frac != [] then !IsDigitByte(x) && !IsE(x)
      else x != DOT && !IsE(x) && (int_ == [ZERO] || !IsDigitByte(x))
    }
  }

  ghost predicate IsNumberToken(t: seq<byte>) {
    exists n: Numeral :: n.Valid() && n.Text() == t
  }

  lemma DigitsEndAfter(s: seq<byte>, i: nat, t: seq<byte>)
    requires At(s, i, t) && Digits(t)
    requires i + |t| < |s| ==> !IsDigitByte(s[i + |t|])
    ensures DigitAt(s, i) && DigitsEnd(s, i) == i + |t|
    ensures DigitsEnd(s, i + 1) == i + |t|
  {
    forall k | i <= k < i + |t| ensures IsDigitByte(s[k]) {
      AtIndex(s, i, t, k - i);
    }
    DigitsEndIs(s, i, i + |t|);
    DigitsEndIs(s, i + 1, i + |t|);
  }

  lemma ScanInt(s: seq<byte>, i: nat, t: seq<byte>)
    requires At(s, i, t) && IsInt(t)
    requires i + |t| < |s| ==> t == [ZERO] || !IsDigitByte(s[i + |t|])
    ensures IntEnd(s, i) == Some(i + |t|)
  {
    AtIndex(s, i, t, 0);
    if t != [ZERO] { DigitsEndAfter(s, i, t); }
  }

  lemma ScanFrac(s: seq<byte>, i: nat, t: seq<byte>)
    requires At(s, i, t) && IsFrac(t)
    requires i + |t| < |s| ==> !IsDigitByte(s[i + |t|])
    ensures i <= |s| && FracEnd(s, i) == Some(i + |t|)
  {
    AtIndex(s, i, t, 0);
    assert t == t[..1] + t[1..];
    AtSplit(s, i, t[..1], t[1..]);
    DigitsEndAfter(s, i + 1, t[1..]);
  }

  lemma ScanExp(s: seq<byte>, i: nat, t: seq<byte>)
    requires At(s, i, t) && IsExp(t)
    requires i + |t| < |s| ==> !IsDigitByte(s[i + |t|])
    ensures i <= |s| && ExpEnd(s, i) == Some(i + |t|)
  {
    AtIndex(s, i, t, 0);
    AtIndex(s, i, t, 1);
    if Digits(t[1..]) {
      assert t == t[..1] + t[1..];
      AtSplit(s, i, t[..1], t[1..]);
      assert t[1..][0] == t[1];
      DigitsEndAfter(s, i + 1, t[1..]);
    } else {
      assert t == t[..2] + t[2..];
      AtSplit(s, i, t[..2], t[2..]);
      DigitsEndAfter(s, i + 2, t[2..]);
    }
  }

  /** A numeral followed by nothing that continues it is scanned whole. */
  lemma ScanToken(s: seq<byte>, i: nat, n: Numeral)
    requires n.Valid() && At(s, i, n.Text())
    requires i + |n.Text()| < |s| ==> n.StopByte(s[i + |n.Text()|])
    ensures NumberEnd(s, i) == Some(i + |n.Text()|)
  {
    hide IntEnd, FracEnd, ExpEnd, IsInt, IsFrac, IsExp, At;
    AtSplit(s, i, n.sign + n.int_ + n.frac, n.exp);
    AtSplit(s, i, n.sign + n.int_, n.frac);
    AtSplit(s, i, n.sign, n.int_);
    var p := i + |n.sign|;
    var q := p + |n.int_|;
    var r := q + |n.frac|;
    IntStart(n.int_);
    if n.sign != [] { AtIndex(s, i, n.sign, 0); } else { AtIndex(s, p, n.int_, 0); }
    if n.frac != [] { FracStart(n.frac); AtIndex(s, q, n.frac, 0); }
    if n.exp != [] { ExpStart(n.exp); AtIndex(s, r, n.exp, 0); }
    AtEnds(s, r, n.exp);
    ScanInt(s, p, n.int_);
    if n.frac != [] { ScanFrac(s, q, n.frac); } else { NoFrac(s, q); }
    if n.exp != [] { ScanExp(s, r, n.exp); } else { NoExp(s, r); }
  }

  lemma AtEnds(s: seq<byte>, i: nat, t: seq<byte>)
    requires At(s, i, t)
    ensures i + |t| <= |s|
  {
  }

  lemma IntStart(t: seq<byte>)
    requires IsInt(t)
    ensures t != [] && IsDigitByte(t[0])
  {
  }

  lemma NoFrac(s: seq<byte>, i: nat)
    ensures i <= |s| && (i < |s| ==> s[i] != DOT) ==> FracEnd(s, i) == Some(i)
  {
  }

  lemma NoExp(s: seq<byte>, i: nat)
    ensures i <= |s| && (i < |s| ==> !IsE(s[i])) ==> ExpEnd(s, i) == Some(i)
  {
  }

  lemma FracStart(t: seq<byte>)
    requires IsFrac(t)
    ensures t != [] && t[0] == DOT
  {
  }

  lemma ExpStart(t: seq<byte>)
    requires IsExp(t)
    ensures t != [] && IsE(t[0])
  {
  }

  /** What is scanned is a numeral that the next byte does not continue. */
  lemma ScannedNumeral(s: seq<byte>, i: nat) returns (n: Numeral)
    requires NumberEnd(s, i).Some?
    ensures var j := NumberEnd(s, i).value;
      i < j <= |s| && n.Valid() && n.Text() == s[i..j] && (j < |s| ==> n.StopByte(s[j]))
  {
    hide IntEnd, FracEnd, ExpEnd, IsInt, IsFrac, IsExp;
    var first := if i < |s| && s[i] == MINUS then i + 1 else i;
    var ia := IntEnd(s, first).value;
    var ib := FracEnd(s, ia).value;
    var j := ExpEnd(s, ib).value;
    ScannedInt(s, first);
    ScannedFrac(s, ia);
    ScannedExp(s, ib);
    n := Numeral(s[i..first], s[first..ia], s[ia..ib], s[ib..j]);
    assert n.sign == [] || n.sign == [MINUS];
    FourSlices(s, i, first, ia, ib, j);
    assert ia == ib ==> n.frac == [];
    assert ib == j ==> n.exp == [];
  }

  lemma FourSlices(s: seq<byte>, i: nat, a: nat, b: nat, c: nat, j: nat)
    requires i <= a <= b <= c <= j <= |s|
    ensures s[i..a] + s[a..b] + s[b..c] + s[c..j] == s[i..j]
  {
  }

  lemma ScannedInt(s: seq<byte>, i: nat)
    ensures IntEnd(s, i).Some? ==>
              var e := IntEnd(s, i).value;
              i < e <= |s| && IsInt(s[i..e]) && (e < |s| ==> s[i..e] == [ZERO] || !IsDigitByte(s[e]))
  {
    if IntEnd(s, i).Some? {
      var e := IntEnd(s, i).value;
      assert s[i..e][0] == s[i];
      if s[i] != ZERO { assert Digits(s[i..e]); }
    }
  }

  lemma ScannedFrac(s: seq<byte>, i: nat)
    requires i <= |s|
    ensures FracEnd(s, i).Some? ==>
              var e := FracEnd(s, i).value;
              i <= e <= |s| && (i < e ==> IsFrac(s[i..e]) && (e < |s| ==> !IsDigitByte(s[e])))
              && (i == e && e < |s| ==> s[e] != DOT)
  {
    if FracEnd(s, i).Some? && FracEnd(s, i).value > i {
      var e := FracEnd(s, i).value;
      assert s[i..e][1..] == s[i + 1..e];
      assert Digits(s[i + 1..e]);
    }
  }

  lemma ScannedExp(s: seq<byte>, i: nat)
    requires i <= |s|
    ensures ExpEnd(s, i).Some? ==>
              var e := ExpEnd(s, i).value;
              i <= e <= |s| && (i < e ==> IsExp(s[i..e]) && (e < |s| ==> !IsDigitByte(s[e])))
              && (i == e && e < |s| ==> !IsE(s[e]))
  {
    if ExpEnd(s, i).Some? && ExpEnd(s, i).value > i {
      var e := ExpEnd(s, i).value;
      assert s[i..e][1..] == s[i + 1..e];
      if i + 1 < |s| && (s[i + 1] == PLUS || s[i + 1] == MINUS) {
        assert s[i..e][2..] == s[i + 2..e];
        assert Digits(s[i + 2..e]);
        assert s[i..e][1] == s[i + 1];
      } else {
        assert Digits(s[i + 1..e]);
      }
    }
  }

  /** A byte that is no stop byte begins a longer token. */
  lemma LongerToken(n: Numeral, x: byte) returns (u: seq<byte>)
    requires n.Valid() && !n.StopByte(x)
    ensures IsNumberToken(u) && n.Text() + [x] <= u
  {
    var longer: Numeral;
    if n.exp != [] {
      ExpGrows(n.exp, x);
      longer := n.(exp := n.exp + [x]);
    } else if IsE(x) {
      assert [x, ZERO][1..] == [ZERO];
      longer := n.(exp := [x, ZERO]);
    } else if n.frac != [] {
      FracGrows(n.frac, x);
      longer := n.(frac := n.frac + [x]);
    } else if x == DOT {
      assert [x, ZERO][1..] == [ZERO];
      longer := n.(frac := [x, ZERO]);
    } else {
      IntGrows(n.int_, x);
      longer := n.(int_ := n.int_ + [x]);
    }
    u := longer.Text();
    PrefixOf(n, longer, x);
  }

  lemma PrefixOf(n: Numeral, longer: Numeral, x: byte)
    requires n.exp == [] || longer == n.(exp := n.exp + [x])
    requires n.exp != [] || longer == n.(exp := [x, ZERO]) || longer == n.(frac := n.frac + [x])
      || (n.frac == [] && (longer == n.(frac := [x, ZERO]) || longer == n.(int_ := n.int_ + [x])))
    ensures n.Text() + [x] <= longer.Text()
  {
    var t, l := n.Text() + [x], longer.Text();
    assert l[..|t|] == t;
  }

  lemma IntGrows(t: seq<byte>, x: byte)
    requires IsInt(t) && t != [ZERO] && IsDigitByte(x)
    ensures IsInt(t + [x])
  {
    assert Digits(t + [x]);
  }

  lemma FracGrows(t: seq<byte>, x: byte)
    requires IsFrac(t) && IsDigitByte(x)
    ensures IsFrac(t + [x])
  {
    assert (t + [x])[1..] == t[1..] + [x];
    assert Digits(t[1..] + [x]);
  }

  lemma ExpGrows(t: seq<byte>, x: byte)
    requires IsExp(t) && IsDigitByte(x)
    ensures IsExp(t + [x])
  {
    assert (t + [x])[1..] == t[1..] + [x];
    if Digits(t[1..]) {
      assert Digits(t[1..] + [x]);
    } else {
      assert (t + [x])[2..] == t[2..] + [x];
      assert Digits(t[2..] + [x]);
    }
  }

  /** No token starts with `s[i..j]` and the byte after it. */
  ghost predicate Maximal(s: seq<byte>, i: nat, j: nat)
    requires i <= j <= |s|
  {
    j < |s| ==> forall u :: IsNumberToken(u) ==> !(s[i..j + 1] <= u)
  }

  /** The number scanner accepts up to `j` exactly when the slice is a number token
      that the next byte cannot extend. */
  lemma NumberEndIff(s: seq<byte>, i: nat, j: nat)
    requires i <= j <= |s|
    ensures NumberEnd(s, i) == Some(j) <==> IsNumberToken(s[i..j]) && Maximal(s, i, j)
  {
    hide NumberEnd, Numeral.Valid, Numeral.StopByte, Numeral.Text;
    if NumberEnd(s, i) == Some(j) {
      var n := ScannedNumeral(s, i);
      if j < |s| {
        forall u | IsNumberToken(u) ensures !(s[i..j + 1] <= u) {
          StoppedTokenEnds(s, i, j, n, u);
        }
      }
    }
    if IsNumberToken(s[i..j]) && Maximal(s, i, j) {
      var n: Numeral :| n.Valid() && n.Text() == s[i..j];
      if j < |s| { MaximalStops(s, i, j, n); }
      ScanToken(s, i, n);
    }
  }

  lemma MaximalStops(s: seq<byte>, i: nat, j: nat, n: Numeral)
    requires i <= j < |s| && n.Valid() && n.Text() == s[i..j] && Maximal(s, i, j)
    ensures n.StopByte(s[j])
  {
    assert s[i..j + 1] == s[i..j] + [s[j]];
    if !n.StopByte(s[j]) {
      var u := LongerToken(n, s[j]);
    }
  }

  lemma StoppedTokenEnds(s: seq<byte>, i: nat, j: nat, n: Numeral, u: seq<byte>)
    requires i <= j < |s| && n.Valid() && n.Text() == s[i..j] && n.StopByte(s[j])
    requires IsNumberToken(u)
    ensures !(s[i..j + 1] <= u)
  {
    hide NumberEnd;
    if s[i..j + 1] <= u {
      var t := s[i..j];
      var w := s[i..j + 1];
      assert u[0..|t|] == u[..|w|][..|t|] == w[..|t|] == t;
      assert u[|t|] == u[..|w|][|t|] == s[j];
      ScanToken(u, 0, n);
      var v: Numeral :| v.Valid() && v.Text() == u;
      assert u[0..|u|] == u;
      ScanToken(u, 0, v);
    }
  }

  /** An accepted number is its source slice, verbatim. */
  lemma NumberIsSlice(s: seq<byte>, i: nat)
    ensures ReadNumber(s, i).Ok? ==>
              var (v, j) := ReadNumber(s, i).value;
              && i < j <= |s| && v.Number? && Utf8.Encode(v.raw) == s[i..j]
              && IsNumberToken(s[i..j]) && Maximal(s, i, j)
  {
    hide NumberEnd;
    if ReadNumber(s, i).Ok? {
      var j := NumberEnd(s, i).value;
      NumberEndIff(s, i, j);
      Utf8.EncodeDecode(s[i..j]);
    }
  }

  /** A maximal number token is read, and read as itself. */
  lemma TokenIsRead(s: seq<byte>, i: nat, j: nat)
    requires i <= j <= |s| && IsNumberToken(s[i..j]) && Maximal(s, i, j)
    ensures ReadNumber(s, i) == Ok((Number(Utf8.Latin1(s[i..j])), j))
  {
    hide NumberEnd;
    NumberEndIff(s, i, j);
    TokenIsAscii(s[i..j]);
    var t := Utf8.Latin1(s[i..j]);
    Utf8.EncodeAscii(t);
    assert Utf8.Codes(t) == s[i..j];
    Utf8.DecodeEncode(t);
  }

  lemma TokenIsAscii(t: seq<byte>)
    requires IsNumberToken(t)
    ensures forall k :: 0 <= k < |t| ==> t[k] < 0x80
  {
    var n: Numeral :| n.Valid() && n.Text() == t;
    PartsAscii(n);
  }

  lemma PartsAscii(n: Numeral)
    requires n.Valid()
    ensures forall k :: 0 <= k < |n.Text()| ==> n.Text()[k] < 0x80
  {
    TailAscii(n.frac);
    TailAscii(n.exp);
    assert forall k :: 0 <= k < |n.int_| ==> n.int_[k] < 0x80;
    var t, u := n.sign + n.int_, n.sign + n.int_ + n.frac;
    assert forall k :: 0 <= k < |t| ==> t[k] < 0x80;
    assert forall k :: 0 <= k < |u| ==> u[k] < 0x80;
  }

  lemma TailAscii(t: seq<byte>)
    requires t == [] || IsFrac(t) || IsExp(t)
    ensures forall k :: 0 <= k < |t| ==> t[k] < 0x80
  {
    forall k | 0 <= k < |t| ensures t[k] < 0x80 {
      if k > 0 { assert t[k] == t[1..][k - 1]; }
      if k > 1 { assert t[k] == t[2..][k - 2]; }
    }
  }
}
