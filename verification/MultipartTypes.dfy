/** The content types of the upload's parts, as a receiver reads them, and one whole
    message byte for byte. */
module MultipartTypes {
  import opened Prelude
  import opened Multipart
  import opened MultipartReceiver
  import Utf8

  const TYPE_PREFIX: string := "Content-Type: "

  /** The type that a content's second header line names, if it has such a line. */
  function ReadType(c: seq<byte>): Option<seq<byte>> {
    match FirstAt(c, 0, [0x0D, 0x0A, 0x0D, 0x0A])
    case None => None
    case Some(q) =>
      match FirstAt(c[..q], 0, [0x0D, 0x0A])
      case None => None
      case Some(e) => TypeOfLine(FirstLine(c[..q][e + 2..]))
  }

  /** The bytes up to the first line end, or all. */
  function FirstLine(b: seq<byte>): seq<byte> {
    match FirstAt(b, 0, [0x0D, 0x0A])
    case Some(f) => b[..f]
    case None => b
  }

  function TypeOfLine(line: seq<byte>): Option<seq<byte>> {
    var p := Utf8.Encode(TYPE_PREFIX);
    if At(line, 0, p) then Some(line[|p|..]) else None
  }

  /** What stands in a content behind its first line, up to the next line end. */
  lemma SecondLine(l: seq<byte>, u: seq<byte>, k: nat)
    requires NoCr(l) && u != [] && u[0] != 0x0D && FirstAt(u, 0, CRLF) == Some(k)
    requires At(u, k, BLANK_LINE) || exists q: nat :: k <= q && At(u, q, BLANK_LINE)
    ensures ReadType(l + CRLF + u) == TypeOfLine(u[..k])
  {
    hide FirstAt, TypeOfLine, At;
    var c := l + CRLF + u;
    var q := FirstBlank(l, u, k);
    assert CRLF == [0x0D, 0x0A] && BLANK_LINE == [0x0D, 0x0A, 0x0D, 0x0A];
    var m := q - |l| - 2;
    BlockOf(c, l, u, q);
    FirstLineEnd(l, CRLF + u[..m]);
    assert l + (CRLF + u[..m]) == c[..q];
    assert c[..q][|l| + 2..] == u[..m];
    LineOf(u, k, m);
  }

  lemma BlockOf(c: seq<byte>, l: seq<byte>, u: seq<byte>, q: nat)
    requires c == l + CRLF + u && |l| + 2 <= q <= |c|
    ensures c[..q] == l + CRLF + u[..q - |l| - 2]
  {
  }

  /** No blank line begins before the second line. */
  lemma NoneBefore(l: seq<byte>, u: seq<byte>, q: nat)
    requires NoCr(l) && u != [] && u[0] != 0x0D && q < |l| + 2
    ensures !At(l + CRLF + u, q, BLANK_LINE)
  {
    var c := l + CRLF + u;
    if q < |l| {
      assert c[q] == l[q];
      NotAt(c, q, BLANK_LINE, 0);
    } else if q == |l| {
      assert c[q + 2] == u[0];
      NotAt(c, q, BLANK_LINE, 2);
    } else {
      assert c[q] == 0x0A;
      NotAt(c, q, BLANK_LINE, 0);
    }
  }

  lemma SameBehind(l: seq<byte>, u: seq<byte>, j: nat)
    ensures At(l + CRLF + u, |l| + 2 + j, BLANK_LINE) <==> At(u, j, BLANK_LINE)
  {
    var c, n := l + CRLF + u, |l| + 2;
    if j + 4 <= |u| { assert c[n + j..n + j + 4] == u[j..j + 4]; }
  }

  lemma BlankIsBreak(u: seq<byte>, j: nat)
    requires At(u, j, BLANK_LINE)
    ensures At(u, j, CRLF)
  {
    assert BLANK_LINE == CRLF + CRLF;
    AtSplit(u, j, CRLF, CRLF);
  }

  /** The first blank line comes no earlier than the line end behind the second line. */
  lemma FirstBlank(l: seq<byte>, u: seq<byte>, k: nat) returns (q: nat)
    requires NoCr(l) && u != [] && u[0] != 0x0D && FirstAt(u, 0, CRLF) == Some(k)
    requires exists i: nat :: k <= i && At(u, i, BLANK_LINE)
    ensures FirstAt(l + CRLF + u, 0, BLANK_LINE) == Some(q) && |l| + 2 + k <= q
    ensures q - |l| - 2 < |u| && At(u, q - |l| - 2, BLANK_LINE)
  {
    hide At, NoCr;
    var c, n := l + CRLF + u, |l| + 2;
    var i: nat :| k <= i && At(u, i, BLANK_LINE);
    SameBehind(l, u, i);
    WithinLength(c, n + i);
    q := FirstAt(c, 0, BLANK_LINE).value;
    if q < n { NoneBefore(l, u, q); }
    var j := q - n;
    SameBehind(l, u, j);
    WithinLength(u, j);
    BlankIsBreak(u, j);
  }

  lemma WithinLength(s: seq<byte>, i: nat)
    requires At(s, i, BLANK_LINE)
    ensures i < |s|
  {
  }

  lemma LineOf(u: seq<byte>, k: nat, m: nat)
    requires FirstAt(u, 0, CRLF) == Some(k) && k <= m < |u| && At(u, m, BLANK_LINE)
    ensures FirstLine(u[..m]) == u[..k]
  {
    var b := u[..m];
    AtIndex(u, k, CRLF, 1);
    AtIndex(u, m, BLANK_LINE, 0);
    assert m != k + 1;
    forall q | 0 <= q < k ensures !At(b, q, CRLF) {
      assert !At(u, q, CRLF);
      if q + 2 <= m { assert b[q..q + 2] == u[q..q + 2]; }
    }
    if m == k {
      forall q | 0 <= q <= |b| ensures !At(b, q, CRLF) { }
      assert b == u[..k];
    } else {
      assert b[k..k + 2] == u[k..k + 2];
      FirstAtIs(b, 0, CRLF, k);
      assert b[..k] == u[..k];
    }
  }

  /** The first line end behind a line that has none before `t`. */
  lemma LineEndBehind(w: seq<byte>, t: seq<byte>, rest: seq<byte>) returns (k: nat)
    requires NoCr(w)
    ensures |w| <= k <= |w| + |t| && FirstAt(w + t + (CRLF + rest), 0, CRLF) == Some(k)
    ensures k == |w| + |t| <==> !Occurs(t, CRLF)
  {
    var u := w + t + (CRLF + rest);
    var n := |w| + |t|;
    assert u[n..n + 2] == CRLF;
    assert At(u, n, CRLF);
    forall q | 0 <= q < |w| ensures !At(u, q, CRLF) {
      assert u[q] == w[q];
      NotAt(u, q, CRLF, 0);
    }
    forall q | |w| <= q < n ensures At(u, q, CRLF) <==> At(t, q - |w|, CRLF) {
      if q + 2 <= n {
        assert u[q..q + 2] == t[q - |w|..q - |w| + 2];
      } else {
        assert u[q + 1] == 0x0D;
        NotAt(u, q, CRLF, 1);
      }
    }
    k := FirstAt(u, 0, CRLF).value;
    if Occurs(t, CRLF) {
      var i :| 0 <= i <= |t| && At(t, i, CRLF);
      assert At(u, |w| + i, CRLF);
    }
  }

  lemma PrefixShape()
    ensures NoCr(Utf8.Encode(TYPE_PREFIX)) && |Utf8.Encode(TYPE_PREFIX)| == 14 && Utf8.Encode(TYPE_PREFIX)[0] == 0x43
  {
    hide Utf8.Encode;
    var t := TYPE_PREFIX;
    assert Utf8.IsAscii(t);
    Utf8.EncodeAscii(t);
    assert t[0] == 'C' && |t| == 14;
    assert forall k :: 0 <= k < |t| ==> t[k] != '\r';
  }

  /** A receiver reads a file part's content type as it was given exactly when it has no
      line end, whatever its body holds. */
  lemma TypeRead(p: Part)
    requires HeaderAllowed(p) && p.File?
    ensures ReadType(Head(p) + Body(p)) == Some(Utf8.Encode(p.contentType)) <==> !Occurs(Utf8.Encode(p.contentType), [0x0D, 0x0A])
  {
    hide Utf8.Encode, FirstAt, HeaderAllowed, DispositionText, Head, ReadType, Occurs, At;
    HeadLines(p);
    DispositionNoCr(p);
    PrefixShape();
    var l, w, t := Utf8.Encode(DispositionText(p)), Utf8.Encode(TYPE_PREFIX), Utf8.Encode(p.contentType);
    Utf8.EncodeConcat(TYPE_PREFIX, p.contentType);
    var u := w + t + (CRLF + (CRLF + Body(p)));
    WholeContent(l, w, t, Body(p));
    assert OtherLines(p) == CRLF + (w + t);
    var k := LineEndBehind(w, t, CRLF + Body(p));
    BlankBehind(w, t, Body(p));
    assert At(u, |w| + |t|, BLANK_LINE) && k <= |w| + |t|;
    SecondLine(l, u, k);
    TypeInLine(w, t, u, k);
  }

  lemma BlankBehind(w: seq<byte>, t: seq<byte>, body: seq<byte>)
    ensures At(w + t + (CRLF + (CRLF + body)), |w| + |t|, BLANK_LINE)
  {
    var u := w + t + (CRLF + (CRLF + body));
    var n := |w| + |t|;
    assert u[n..n + 4] == BLANK_LINE;
  }

  lemma WholeContent(l: seq<byte>, w: seq<byte>, t: seq<byte>, body: seq<byte>)
    ensures l + (CRLF + (w + t)) + BLANK_LINE + body == l + CRLF + (w + t + (CRLF + (CRLF + body)))
  {
    var u := w + t + (CRLF + (CRLF + body));
    assert BLANK_LINE + body == CRLF + (CRLF + body);
    assert w + t + BLANK_LINE + body == u;
    assert l + (CRLF + (w + t)) + BLANK_LINE + body == l + CRLF + (w + t + BLANK_LINE + body);
  }

  lemma TypeInLine(w: seq<byte>, t: seq<byte>, u: seq<byte>, k: nat)
    requires w == Utf8.Encode(TYPE_PREFIX) && (w + t) <= u && |w| <= k <= |w| + |t|
    ensures TypeOfLine(u[..k]) == Some(t) <==> k == |w| + |t|
  {
    hide Utf8.Encode;
    var line := u[..k];
    assert line[0..|w|] == w;
    assert line[|w|..] == t[..k - |w|] by { assert u[..|w| + |t|] == w + t; }
    assert k == |w| + |t| ==> t[..k - |w|] == t;
  }

  // ----- a whole message

  const FIELD: string :=
    "--X\r\n" + "Content-Disposition: form-data; name=\"a\"\r\n\r\n" + "b" + "\r\n"

  const FILE: string :=
    "--X\r\n" + ("Content-Disposition: form-data; name=\"c\"; filename=\"d\"\r\n" + "Content-Type: e\r\n\r\n") + "f" + "\r\n"

  const WIRE: string :=
    FIELD + FILE + "--X--\r\n"

  /** A field and a file, byte for byte. */
  lemma WireExample()
    ensures Serialize([Part.Field("a", "b"), Part.File("c", "d", "e", [0x66])], "X")
         == Ok(("multipart/form-data; boundary=X", Utf8.Encode(WIRE)))
  {
    hide Utf8.Encode, PartBytes, Message, FirstError;
    var a, b := Part.Field("a", "b"), Part.File("c", "d", "e", [0x66]);
    var parts := [a, b];
    ExampleAccepted(a, b);
    ExampleParts(a, b);
    MessageOfTwo(a, b);
    Utf8.EncodeConcat(FIELD + FILE, "--X--\r\n");
    Utf8.EncodeConcat(FIELD, FILE);
    assert "multipart/form-data; boundary=" + "X" == "multipart/form-data; boundary=X";
  }

  lemma MessageOfTwo(a: Part, b: Part)
    ensures Message([a, b], "X") == PartBytes(a, "X") + PartBytes(b, "X") + Utf8.Encode("--X--\r\n")
  {
    hide Utf8.Encode, PartBytes;
    assert [a, b][1..] == [b] && [b][1..] == [];
    assert "--" + "X" + "--\r\n" == "--X--\r\n";
    assert Message([], "X") == Utf8.Encode("--X--\r\n");
    assert Message([b], "X") == PartBytes(b, "X") + Message([], "X");
    assert Message([a, b], "X") == PartBytes(a, "X") + Message([b], "X");
    Regroup(PartBytes(a, "X"), PartBytes(b, "X"), Utf8.Encode("--X--\r\n"), [], [], []);
  }

  lemma ExampleAccepted(a: Part, b: Part)
    requires a == Part.Field("a", "b") && b == Part.File("c", "d", "e", [0x66])
    ensures ValidBoundary("X") && FirstError([a, b], "X", 0) == None
  {
    var parts := [a, b];
    assert Utf8.Encode("X") == [0x58];
    OneByteIsClear(a);
    OneByteIsClear(b);
    assert HeaderAllowed(a) && HeaderAllowed(b);
    hide HeaderAllowed, PartCollides;
    assert FirstError(parts, "X", 2) == None;
    assert FirstError(parts, "X", 1) == None;
  }

  lemma OneByteIsClear(p: Part)
    requires p == Part.Field("a", "b") || p == Part.File("c", "d", "e", [0x66])
    ensures !PartCollides(p, "X")
  {
    Utf8.EncodeAscii("b");
    Utf8.EncodeAscii("d");
    assert |DashBoundary("X")| >= 2;
    forall k | 0 <= k < |CollisionSpans(p)| ensures !Collides(CollisionSpans(p)[k], "X") {
      assert |CollisionSpans(p)[k]| == 1;
    }
  }

  lemma ExampleParts(a: Part, b: Part)
    requires a == Part.Field("a", "b") && b == Part.File("c", "d", "e", [0x66])
    ensures PartBytes(a, "X") == Utf8.Encode(FIELD)
    ensures PartBytes(b, "X") == Utf8.Encode(FILE)
  {
    hide Utf8.Encode, EscapeQuoted;
    EncodeLineEnds();
    PlainStays('a');
    PlainStays('c');
    PlainStays('d');
    var line := "--X\r\n";
    assert "--" + "X" + "\r\n" == line;
    var h := "Content-Disposition: form-data; name=\"a\"\r\n\r\n";
    assert "Content-Disposition: form-data; name=\"" + "a" + "\"\r\n\r\n" == h;
    FourTexts(line, h, "b", "\r\n");
    var d, t := "Content-Disposition: form-data; name=\"c\"; filename=\"d\"\r\n", "Content-Type: e\r\n\r\n";
    assert "Content-Disposition: form-data; name=\"" + "c" + "\"; filename=\"" + "d" + "\"\r\n" == d;
    assert "Content-Type: " + "e" + "\r\n\r\n" == t;
    Utf8.EncodeConcat(d, t);
    FourTexts(line, d + t, "f", "\r\n");
    Utf8.EncodeAscii("f");
    assert Utf8.Encode("f") == [0x66];
  }

  lemma PlainStays(c: char)
    requires c != '"' && c != '\\'
    ensures EscapeQuoted([c]) == [c]
  {
    assert [c][1..] == "";
    assert EscapeQuoted("") == "";
  }

  lemma FourTexts(a: string, b: string, c: string, d: string)
    ensures Utf8.Encode(a + b + c + d) == Utf8.Encode(a) + Utf8.Encode(b) + Utf8.Encode(c) + Utf8.Encode(d)
  {
    hide Utf8.Encode;
    Utf8.EncodeConcat(a + b + c, d);
    Utf8.EncodeConcat(a + b, c);
    Utf8.EncodeConcat(a, b);
  }
}
