/** The search for a boundary that hides in no part: it stops, it returns the least
    free suffix, and a counting argument bounds how many candidates can be rejected. */
module BoundarySearch {
  import opened Prelude
  import opened Multipart
  import R = MultipartReceiver
  import Utf8
  import Decimal

  const BASE: string := "oxicryptEsvBoundary"

  function Candidate(n: nat): string {
    BASE + Decimal.NatText(n)
  }

  predicate Rejected(parts: seq<Part>, n: nat) {
    exists k :: 0 <= k < |parts| && PartCollides(parts[k], Candidate(n))
  }

  /** All spans of all parts. */
  function Spans(parts: seq<Part>): seq<seq<byte>> {
    if parts == [] then [] else CollisionSpans(parts[0]) + Spans(parts[1..])
  }

  /** Twenty digit lengths for every place in a span where digits could start. */
  function Budget(spans: seq<seq<byte>>): nat {
    if spans == [] then 0 else Budget(spans[..|spans| - 1]) + 20 * (|spans[|spans| - 1]| + 1)
  }

  // ----- every candidate is a valid boundary

  lemma Pow10Of20()
    ensures Decimal.Pow10(20) == 100_000_000_000_000_000_000
  {
    assert Decimal.Pow10(5) == 100_000 by {
      assert Decimal.Pow10(1) == 10 && Decimal.Pow10(2) == 100 && Decimal.Pow10(3) == 1000 && Decimal.Pow10(4) == 10_000;
    }
    assert Decimal.Pow10(10) == 10_000_000_000 by {
      assert Decimal.Pow10(6) == 1_000_000 && Decimal.Pow10(7) == 10_000_000 && Decimal.Pow10(8) == 100_000_000 && Decimal.Pow10(9) == 1_000_000_000;
    }
    assert Decimal.Pow10(15) == 1_000_000_000_000_000 by {
      assert Decimal.Pow10(11) == 100_000_000_000 && Decimal.Pow10(12) == 1_000_000_000_000;
      assert Decimal.Pow10(13) == 10_000_000_000_000 && Decimal.Pow10(14) == 100_000_000_000_000;
    }
    assert Decimal.Pow10(16) == 10_000_000_000_000_000 && Decimal.Pow10(17) == 100_000_000_000_000_000;
    assert Decimal.Pow10(18) == 1_000_000_000_000_000_000 && Decimal.Pow10(19) == 10_000_000_000_000_000_000;
  }

  /** A 64-bit counter prints at most twenty digits. */
  lemma SuffixLength(n: nat)
    requires n < TWO_64
    ensures 1 <= |Decimal.NatText(n)| <= 20
  {
    hide Decimal.Pow10, Decimal.NatText;
    Pow10Of20();
    Decimal.NatTextLength(n, 20);
  }

  lemma CandidateBytes(n: nat)
    ensures Utf8.Encode(Candidate(n)) == Utf8.Encode(BASE) + Utf8.Encode(Decimal.NatText(n))
    ensures |Utf8.Encode(BASE)| == 19
    ensures |Utf8.Encode(Decimal.NatText(n))| == |Decimal.NatText(n)|
    ensures forall k :: 0 <= k < |Decimal.NatText(n)| ==> 0x30 <= Utf8.Encode(Decimal.NatText(n))[k] <= 0x39
  {
    hide Utf8.Encode, Decimal.NatText;
    Utf8.EncodeConcat(BASE, Decimal.NatText(n));
    Utf8.EncodeAscii(BASE);
    assert Utf8.IsAscii(Decimal.NatText(n)) by { assert Decimal.AllDigits(Decimal.NatText(n)); }
    Utf8.EncodeAscii(Decimal.NatText(n));
  }

  /** Every candidate the counter can reach passes `validate_boundary`. */
  lemma CandidateValid(n: nat)
    requires n < TWO_64
    ensures ValidBoundary(Candidate(n))
  {
    hide Utf8.Encode, Decimal.NatText;
    CandidateBytes(n);
    SuffixLength(n);
    Utf8.EncodeAscii(BASE);
    var b, e := Utf8.Encode(BASE), Utf8.Encode(Candidate(n));
    forall k | 0 <= k < |e| ensures IsBchar(e[k]) {
      if k < 19 {
        assert e[k] == b[k] == BASE[k] as int;
        BaseLetters(k);
      } else {
        assert e[k] == Utf8.Encode(Decimal.NatText(n))[k - 19];
      }
    }
  }

  lemma BaseLetters(k: nat)
    requires k < 19
    ensures |BASE| == 19 && 'A' <= BASE[k] <= 'z' && ('a' <= BASE[k] || BASE[k] <= 'Z')
  {
  }

  // ----- counting the rejected candidates

  /** The digits of `n` stand in the span at `place`. */
  predicate DigitsAt(span: seq<byte>, place: nat, n: nat) {
    At(span, place, Utf8.Encode(Decimal.NatText(n)))
  }

  /** A colliding candidate leaves its digits somewhere in the span. */
  lemma CollisionPlace(span: seq<byte>, n: nat) returns (place: nat)
    requires Collides(span, Candidate(n))
    ensures place <= |span| && DigitsAt(span, place, n)
  {
    hide Utf8.Encode, At;
    CandidateBytes(n);
    var c, b, t := Utf8.Encode(Candidate(n)), Utf8.Encode(BASE), Utf8.Encode(Decimal.NatText(n));
    var i: nat := 0;
    if At(span, 0, DashBoundary(Candidate(n))) {
    } else {
      var j :| 0 <= j <= |span| && At(span, j, Delimiter(Candidate(n)));
      AtSplit(span, j, CRLF, DashBoundary(Candidate(n)));
      i := j + 2;
    }
    AtSplit(span, i, DASHES, c);
    AtSplit(span, i + 2, b, t);
    place := i + 2 + |b|;
    InRange(span, place, t);
  }

  lemma InRange(s: seq<byte>, i: nat, t: seq<byte>)
    requires At(s, i, t)
    ensures i + |t| <= |s|
  {
  }

  /** One place and one length hold the digits of one number. */
  lemma SamePlaceSameNumber(span: seq<byte>, place: nat, m: nat, n: nat)
    requires DigitsAt(span, place, m) && DigitsAt(span, place, n)
    requires |Decimal.NatText(m)| == |Decimal.NatText(n)|
    ensures m == n
  {
    hide Utf8.Encode, Decimal.NatText;
    CandidateBytes(m);
    CandidateBytes(n);
    Utf8.EncodeInjective(Decimal.NatText(m), Decimal.NatText(n));
    Decimal.NatTextInjective(m, n);
  }

  /** Where a rejection is charged: a span, a place in it, and a digit count. */
  datatype Charge = Charge(span: nat, place: nat, digits: nat)

  predicate ChargeOf(spans: seq<seq<byte>>, n: nat, c: Charge) {
    && c.span < |spans| && c.place <= |spans[c.span]|
    && 1 <= c.digits <= 20 && c.digits == |Decimal.NatText(n)|
    && DigitsAt(spans[c.span], c.place, n)
  }

  /** The charges as numbers below the budget, one number for each charge. */
  function Code(spans: seq<seq<byte>>, c: Charge): nat
    requires c.span < |spans| && c.place <= |spans[c.span]| && 1 <= c.digits <= 20
  {
    Budget(spans[..c.span]) + 20 * c.place + (c.digits - 1)
  }

  lemma {:induction false} BudgetPrefix(spans: seq<seq<byte>>, i: nat, j: nat)
    requires i < j <= |spans|
    ensures Budget(spans[..i]) + 20 * (|spans[i]| + 1) <= Budget(spans[..j])
    decreases j
  {
    assert spans[..j][..j - 1] == spans[..j - 1];
    assert spans[..j][j - 1] == spans[j - 1];
    if i < j - 1 { BudgetPrefix(spans, i, j - 1); }
  }

  lemma CodeBelowBudget(spans: seq<seq<byte>>, c: Charge)
    requires c.span < |spans| && c.place <= |spans[c.span]| && 1 <= c.digits <= 20
    ensures Code(spans, c) < Budget(spans)
  {
    BudgetPrefix(spans, c.span, |spans|);
    assert spans[..|spans|] == spans;
  }

  lemma CodeInjective(spans: seq<seq<byte>>, c: Charge, d: Charge)
    requires c.span < |spans| && c.place <= |spans[c.span]| && 1 <= c.digits <= 20
    requires d.span < |spans| && d.place <= |spans[d.span]| && 1 <= d.digits <= 20
    requires Code(spans, c) == Code(spans, d)
    ensures c == d
  {
    if c.span < d.span { BudgetPrefix(spans, c.span, d.span); }
    if d.span < c.span { BudgetPrefix(spans, d.span, c.span); }
  }

  lemma {:induction false} SpanOfPart(parts: seq<Part>, k: nat, s: nat) returns (i: nat)
    requires k < |parts| && s < |CollisionSpans(parts[k])|
    ensures i < |Spans(parts)| && Spans(parts)[i] == CollisionSpans(parts[k])[s]
    decreases k
  {
    if k == 0 {
      i := s;
    } else {
      var j := SpanOfPart(parts[1..], k - 1, s);
      i := |CollisionSpans(parts[0])| + j;
    }
  }

  lemma RejectionCharge(parts: seq<Part>, n: nat) returns (c: Charge)
    requires n < TWO_64 && Rejected(parts, n)
    ensures ChargeOf(Spans(parts), n, c)
  {
    hide Utf8.Encode, Decimal.NatText, Collides, DigitsAt;
    var k :| 0 <= k < |parts| && PartCollides(parts[k], Candidate(n));
    var s :| 0 <= s < |CollisionSpans(parts[k])| && Collides(CollisionSpans(parts[k])[s], Candidate(n));
    var i := SpanOfPart(parts, k, s);
    var place := CollisionPlace(Spans(parts)[i], n);
    SuffixLength(n);
    c := Charge(i, place, |Decimal.NatText(n)|);
  }

  /** Distinct numbers below `b` are at most `b` many. */
  lemma {:induction false} Pigeonhole(codes: seq<nat>, b: nat)
    requires forall i :: 0 <= i < |codes| ==> codes[i] < b
    requires forall i, j :: 0 <= i < j < |codes| ==> codes[i] != codes[j]
    ensures |codes| <= b
    decreases b
  {
    if codes != [] {
      if b - 1 in codes {
        var k :| 0 <= k < |codes| && codes[k] == b - 1;
        var rest := codes[..k] + codes[k + 1..];
        forall i | 0 <= i < |rest| ensures rest[i] < b - 1 {
          assert rest[i] == if i < k then codes[i] else codes[i + 1];
        }
        forall i, j | 0 <= i < j < |rest| ensures rest[i] != rest[j] {
          assert rest[i] == if i < k then codes[i] else codes[i + 1];
          assert rest[j] == if j < k then codes[j] else codes[j + 1];
        }
        Pigeonhole(rest, b - 1);
      } else {
        Pigeonhole(codes, b - 1);
      }
    }
  }

  lemma {:induction false} ChargeAll(parts: seq<Part>, n: nat) returns (charges: seq<Charge>)
    requires n <= TWO_64 && forall m :: 0 <= m < n ==> Rejected(parts, m)
    ensures |charges| == n && forall m :: 0 <= m < n ==> ChargeOf(Spans(parts), m, charges[m])
    decreases n
  {
    hide Rejected, ChargeOf;
    if n == 0 {
      charges := [];
    } else {
      var before := ChargeAll(parts, n - 1);
      var c := RejectionCharge(parts, n - 1);
      charges := before + [c];
    }
  }

  /** If the first `n` candidates are all rejected, there are at most `Budget` of them. */
  lemma RejectionsBounded(parts: seq<Part>, n: nat)
    requires n <= TWO_64 && forall m :: 0 <= m < n ==> Rejected(parts, m)
    ensures n <= Budget(Spans(parts))
  {
    hide Rejected, DigitsAt, Decimal.NatText, Budget, Code;
    var spans := Spans(parts);
    var charges := ChargeAll(parts, n);
    var codes := seq(n, i requires 0 <= i < n => Code(spans, charges[i]));
    forall i | 0 <= i < n ensures codes[i] < Budget(spans) {
      CodeBelowBudget(spans, charges[i]);
    }
    forall i, j | 0 <= i < j < n ensures codes[i] != codes[j] {
      if codes[i] == codes[j] {
        CodeInjective(spans, charges[i], charges[j]);
        SamePlaceSameNumber(spans[charges[i].span], charges[i].place, i, j);
      }
    }
    Pigeonhole(codes, Budget(spans));
  }

  // ----- the search

  method AnyPartCollides(parts: seq<Part>, boundary: string) returns (hit: bool)
    ensures hit == exists k :: 0 <= k < |parts| && PartCollides(parts[k], boundary)
  {
    hide PartCollides;
    for k := 0 to |parts|
      invariant forall n :: 0 <= n < k ==> !PartCollides(parts[n], boundary)
    {
      var one := AnySpanCollides(parts[k], boundary);
      if one { return true; }
    }
    return false;
  }

  /** `generate_boundary`. While the budget of the parts is below 2^64 (parts of less
      than 2^59 bytes in all), the 64-bit counter never saturates, and the result is the
      first candidate that collides with nothing. */
  method GenerateBoundary(parts: seq<Part>) returns (boundary: string, ghost suffix: nat)
    requires Budget(Spans(parts)) < TWO_64 - 1
    ensures suffix <= Budget(Spans(parts)) && boundary == Candidate(suffix)
    ensures !Rejected(parts, suffix) && forall m :: 0 <= m < suffix ==> Rejected(parts, m)
    ensures ValidBoundary(boundary)
    ensures forall k :: 0 <= k < |parts| ==> !PartCollides(parts[k], boundary)
  {
    hide Candidate, PartCollides, Budget, ValidBoundary;
    var n: nat := 0;
    while true
      invariant n <= Budget(Spans(parts))
      invariant forall m :: 0 <= m < n ==> Rejected(parts, m)
      decreases Budget(Spans(parts)) - n
    {
      var candidate := Candidate(n);
      var hit := AnyPartCollides(parts, candidate);
      if !hit {
        CandidateValid(n);
        return candidate, n;
      }
      assert Rejected(parts, n);
      RejectionsBounded(parts, n + 1);
      n := SaturatingAdd(n, 1, TWO_64 - 1);
    }
  }

  /** With a boundary free of collisions, serializing fails only on a control character
      in a name or a filename, and then at the first part that has one. */
  lemma {:induction false} FreeBoundaryErrors(parts: seq<Part>, boundary: string, i: nat)
    requires i <= |parts| && forall k :: 0 <= k < |parts| ==> !PartCollides(parts[k], boundary)
    ensures FirstError(parts, boundary, i).None? <==> forall k :: i <= k < |parts| ==> HeaderAllowed(parts[k])
    ensures FirstError(parts, boundary, i).Some? ==>
              exists k :: i <= k < |parts| && FirstError(parts, boundary, i) == Some(InvalidPartHeader(k))
                          && !HeaderAllowed(parts[k]) && forall j :: i <= j < k ==> HeaderAllowed(parts[j])
    decreases |parts| - i
  {
    hide HeaderAllowed, PartCollides;
    if i < |parts| {
      if HeaderAllowed(parts[i]) {
        FreeBoundaryErrors(parts, boundary, i + 1);
        assert FirstError(parts, boundary, i) == FirstError(parts, boundary, i + 1);
      } else {
        assert FirstError(parts, boundary, i) == Some(InvalidPartHeader(i));
      }
    }
  }

  /** Serializing with a generated boundary succeeds exactly when no name or filename
      holds a control character. */
  lemma GeneratedBoundarySerializes(parts: seq<Part>, suffix: nat)
    requires suffix < TWO_64 && !Rejected(parts, suffix)
    ensures Serialize(parts, Candidate(suffix)).Ok? <==> forall k :: 0 <= k < |parts| ==> HeaderAllowed(parts[k])
    ensures Serialize(parts, Candidate(suffix)).Err? ==> Serialize(parts, Candidate(suffix)).error.InvalidPartHeader?
  {
    hide Candidate, HeaderAllowed, PartCollides, ValidBoundary, Message;
    CandidateValid(suffix);
    FreeBoundaryErrors(parts, Candidate(suffix), 0);
  }

  /** A generated boundary is a token, so the header gives it back, and the parts are
      recovered whenever their names and content types hold no line ends. */
  lemma GeneratedIsRecovered(parts: seq<Part>, suffix: nat)
    requires suffix < TWO_64 && !Rejected(parts, suffix)
    requires forall k :: 0 <= k < |parts| ==> HeaderAllowed(parts[k]) && R.ContentTypeSafe(parts[k])
    ensures Serialize(parts, Candidate(suffix)).Ok?
    ensures var (header, m) := Serialize(parts, Candidate(suffix)).value;
      R.ReceiveMessage(header, m) == Some(R.ExpectedAll(parts))
  {
    hide Candidate, HeaderAllowed, ValidBoundary, Message, Serialize, Rejected, R.ReceiveMessage, R.HeadClear, R.BlankOnlyAtEnd, R.ContentTypeSafe;
    GeneratedBoundarySerializes(parts, suffix);
    CandidateValid(suffix);
    forall k | 0 <= k < |parts| ensures R.BlankOnlyAtEnd(parts[k]) && R.HeadClear(parts[k], Candidate(suffix)) {
      R.SafeTypeIsClear(parts[k], Candidate(suffix));
    }
    CandidateIsToken(suffix);
    R.MessageRecovered(parts, Candidate(suffix));
  }

  lemma CandidateIsToken(n: nat)
    ensures forall k :: 0 <= k < |Candidate(n)| ==> R.IsTokenChar(Candidate(n)[k])
  {
    hide Decimal.NatText;
    var t := Decimal.NatText(n);
    forall k | 0 <= k < |Candidate(n)| ensures R.IsTokenChar(Candidate(n)[k]) {
      if k < 19 {
        BaseLetters(k);
        LetterIsToken(BASE[k]);
      } else {
        BaseLetters(0);
        assert Candidate(n)[k] == t[k - 19] && Decimal.IsDigit(t[k - 19]);
        DigitIsToken(t[k - 19]);
      }
    }
  }

  lemma LetterIsToken(c: char)
    requires 'A' <= c <= 'z' && ('a' <= c || c <= 'Z')
    ensures R.IsTokenChar(c)
  {
  }

  lemma DigitIsToken(c: char)
    requires Decimal.IsDigit(c)
    ensures R.IsTokenChar(c)
  {
  }
}
