/** The `str` operations the line-based formats use. */
module Text {
  import opened Prelude

  /** `char::is_whitespace`: the Unicode White_Space property. */
  predicate IsWhitespace(c: char) {
    var n := c as int;
    || 9 <= n <= 13 || n == 0x20 || n == 0x85 || n == 0xA0 || n == 0x1680
    || 0x2000 <= n <= 0x200A || n == 0x2028 || n == 0x2029 || n == 0x202F || n == 0x205F || n == 0x3000
  }

  /** The 25 characters that have the property. */
  const WHITE_SPACE: seq<int> :=
    [0x09, 0x0A, 0x0B, 0x0C, 0x0D, 0x20, 0x85, 0xA0, 0x1680,
     0x2000, 0x2001, 0x2002, 0x2003, 0x2004, 0x2005, 0x2006, 0x2007, 0x2008, 0x2009, 0x200A,
     0x2028, 0x2029, 0x202F, 0x205F, 0x3000]

  lemma WhitespaceIff(c: char)
    ensures IsWhitespace(c) <==> c as int in WHITE_SPACE
  {
  }

  predicate AllWhitespace(s: string) {
    forall k :: 0 <= k < |s| ==> IsWhitespace(s[k])
  }

  /** The UTF-16 code unit of a character of the basic plane. */
  function Utf16(c: char): u16
    requires c as int < 0x1_0000
  {
    c as int
  }

  /** The same letter, in either case. */
  predicate SameLetter(a: char, b: char) {
    || a == b
    || ('A' <= a <= 'Z' && b as int == a as int + 32)
    || ('A' <= b <= 'Z' && a as int == b as int + 32)
  }

  /** Equal texts up to the case of ASCII letters. */
  predicate SameUpToCase(s: string, t: string) {
    |s| == |t| && forall k :: 0 <= k < |s| ==> SameLetter(s[k], t[k])
  }

  function TrimStart(s: string): (r: string)
    ensures r == [] || !IsWhitespace(r[0])
    ensures |r| <= |s| && r == s[|s| - |r|..] && AllWhitespace(s[..|s| - |r|])
  {
    if s != [] && IsWhitespace(s[0]) then
      var r := TrimStart(s[1..]);
      assert s[..|s| - |r|] == [s[0]] + s[1..][..|s| - 1 - |r|];
      r
    else s
  }

  function TrimEnd(s: string): (r: string)
    ensures r == [] || !IsWhitespace(r[|r| - 1])
    ensures |r| <= |s| && r == s[..|r|] && AllWhitespace(s[|r|..])
  {
    if s != [] && IsWhitespace(s[|s| - 1]) then
      var r := TrimEnd(s[..|s| - 1]);
      assert s[|r|..] == s[..|s| - 1][|r|..] + [s[|s| - 1]];
      r
    else s
  }

  function Trim(s: string): (r: string)
    ensures r == [] || (!IsWhitespace(r[0]) && !IsWhitespace(r[|r| - 1]))
  {
    var t := TrimStart(s);
    assert TrimEnd(t) != [] ==> TrimEnd(t)[0] == t[0];
    TrimEnd(t)
  }

  lemma {:induction false} TrimStartIs(s: string, n: nat)
    requires n <= |s| && AllWhitespace(s[..n]) && (n < |s| ==> !IsWhitespace(s[n]))
    ensures TrimStart(s) == s[n..]
  {
    hide IsWhitespace;
    if n > 0 {
      assert s[..n][0] == s[0];
      assert s[1..][..n - 1] == s[..n][1..];
      TrimStartIs(s[1..], n - 1);
    }
  }

  lemma {:induction false} TrimEndIs(s: string, n: nat)
    requires n <= |s| && AllWhitespace(s[n..]) && (n > 0 ==> !IsWhitespace(s[n - 1]))
    ensures TrimEnd(s) == s[..n]
    decreases |s|
  {
    hide IsWhitespace;
    if n < |s| {
      assert s[n..][|s| - 1 - n] == s[|s| - 1];
      assert s[..|s| - 1][n..] == s[n..][..|s| - 1 - n];
      TrimEndIs(s[..|s| - 1], n);
    } else {
      assert s[..n] == s;
    }
  }

  /** Trimming takes off exactly the whitespace around a core that has none at its ends. */
  lemma TrimAround(left: string, core: string, right: string)
    requires AllWhitespace(left) && AllWhitespace(right)
    requires core != [] && !IsWhitespace(core[0]) && !IsWhitespace(core[|core| - 1])
    ensures Trim(left + core + right) == core
  {
    hide IsWhitespace;
    var s := left + core + right;
    assert s[..|left|] == left && s[|left|] == core[0];
    TrimStartIs(s, |left|);
    var u := s[|left|..];
    assert u == core + right;
    assert u[|core|..] == right && u[|core| - 1] == core[|core| - 1];
    TrimEndIs(u, |core|);
    assert u[..|core|] == core;
  }

  /** What trimming takes off. */
  lemma Trimmed(s: string) returns (a: string, b: string)
    ensures s == a + Trim(s) + b && AllWhitespace(a) && AllWhitespace(b)
  {
    hide IsWhitespace, TrimStart, TrimEnd, AllWhitespace;
    var t := TrimStart(s);
    a := s[..|s| - |t|];
    var u := TrimEnd(t);
    b := t[|u|..];
    assert Trim(s) == u;
    ThreeParts(s, |s| - |t|, |u|);
  }

  lemma ThreeParts(s: string, m: nat, n: nat)
    requires m + n <= |s|
    ensures s == s[..m] + s[m..][..n] + s[m..][n..]
  {
    var t := s[m..];
    assert t == t[..n] + t[n..];
    assert s == s[..m] + t;
  }

  lemma TrimSpace(a: string, b: string)
    requires AllWhitespace(a) && AllWhitespace(b)
    ensures Trim(a + b) == ""
  {
    hide IsWhitespace;
    assert AllWhitespace(a + b);
    TrimStartSpace(a + b);
  }

  lemma {:induction false} TrimStartSpace(s: string)
    requires AllWhitespace(s)
    ensures TrimStart(s) == ""
  {
    hide IsWhitespace;
    if s != "" { TrimStartSpace(s[1..]); }
  }

  /** Index of the first `c` at or after `i`, or the length. */
  function IndexOf(s: string, c: char, i: nat): (r: nat)
    requires i <= |s|
    ensures i <= r <= |s|
    ensures r < |s| ==> s[r] == c
    ensures forall k :: i <= k < r ==> s[k] != c
    decreases |s| - i
  {
    if i < |s| && s[i] != c then IndexOf(s, c, i + 1) else i
  }

  lemma IndexOfIs(s: string, c: char, i: nat, r: nat)
    requires i <= r <= |s|
    requires forall k :: i <= k < r ==> s[k] != c
    requires r < |s| ==> s[r] == c
    ensures IndexOf(s, c, i) == r
  {
    var q := IndexOf(s, c, i);
    assert !(q < r) && !(r < q);
  }

  // ----- splitting

  /** `split(p)`. */
  function Split(s: string, p: string): (r: seq<string>)
    requires p != []
    ensures r != []
    decreases |s|
  {
    var e := Find(s, p, 0);
    if e == |s| then [s] else [s[..e]] + Split(s[e + |p|..], p)
  }

  /** The pieces with `p` between them. */
  function Join(pieces: seq<string>, p: string): string {
    if pieces == [] then ""
    else if |pieces| == 1 then pieces[0]
    else pieces[0] + (p + Join(pieces[1..], p))
  }

  predicate Free(piece: string, c: char) {
    forall k :: 0 <= k < |piece| ==> piece[k] != c
  }

  lemma FindBehind(piece: string, p: string, rest: string)
    requires p != [] && Free(piece, p[0])
    ensures Find(piece + (p + rest), p, 0) == |piece|
  {
    var s := piece + (p + rest);
    assert forall k :: 0 <= k < |piece| ==> s[k] == piece[k];
    NotInside(s, p, 0, |piece|);
    assert s[|piece|..|piece| + |p|] == p;
    FindIs(s, p, 0, |piece|);
  }

  lemma FindNowhere(piece: string, p: string)
    requires p != [] && Free(piece, p[0])
    ensures Find(piece, p, 0) == |piece|
  {
    NotInside(piece, p, 0, |piece|);
  }

  /** Splitting undoes joining. */
  lemma {:induction false} SplitJoin(pieces: seq<string>, p: string)
    requires pieces != [] && p != [] && forall k :: 0 <= k < |pieces| ==> Free(pieces[k], p[0])
    ensures Split(Join(pieces, p), p) == pieces
    decreases |pieces|
  {
    hide Find, Free;
    if |pieces| == 1 {
      FindNowhere(pieces[0], p);
    } else {
      var rest := Join(pieces[1..], p);
      var s := pieces[0] + (p + rest);
      FindBehind(pieces[0], p, rest);
      assert s[..|pieces[0]|] == pieces[0] && s[|pieces[0]| + |p|..] == rest;
      SplitJoin(pieces[1..], p);
      assert [pieces[0]] + pieces[1..] == pieces;
    }
  }

  lemma {:induction false} JoinSnoc(pieces: seq<string>, x: string, p: string)
    requires pieces != []
    ensures Join(pieces + [x], p) == Join(pieces, p) + (p + x)
    decreases |pieces|
  {
    if |pieces| == 1 {
      assert (pieces + [x])[1..] == [x];
    } else {
      assert (pieces + [x])[1..] == pieces[1..] + [x];
      JoinSnoc(pieces[1..], x, p);
      var rest := Join(pieces[1..], p);
      assert pieces[0] + (p + (rest + (p + x))) == pieces[0] + (p + rest) + (p + x);
    }
  }

  /** Joining undoes splitting at one character, and no piece holds it. */
  lemma {:induction false} JoinSplit(s: string, c: char)
    ensures Join(Split(s, [c]), [c]) == s
    ensures forall k :: 0 <= k < |Split(s, [c])| ==> Free(Split(s, [c])[k], c)
    decreases |s|
  {
    var e := Find(s, [c], 0);
    forall k | 0 <= k < e ensures s[k] != c {
      assert !At(s, k, [c]);
      assert s[k..k + 1] == [s[k]];
    }
    if e < |s| {
      var rest := s[e + 1..];
      JoinSplit(rest, c);
      assert Split(s, [c]) == [s[..e]] + Split(rest, [c]);
      assert ([s[..e]] + Split(rest, [c]))[1..] == Split(rest, [c]);
      assert s[e..e + 1] == [c];
      assert s == s[..e] + ([c] + rest);
    }
  }
}
