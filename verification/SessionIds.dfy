/** The test-session and vector-set ids inside a vector-set URL. */
module SessionIds {
  import opened Prelude
  import opened Text
  import opened Decimal
  import opened Numerals

  const SESSIONS := "/testSessions/"
  const VECTOR_SETS := "/vectorSets/"

  /** `split(p).nth(1)`: what stands between the first and the second `p`. */
  function SecondPart(s: string, p: string): Option<string>
    requires p != []
  {
    var a := Find(s, p, 0);
    if a == |s| then None
    else
      var start := a + |p|;
      Some(s[start..Find(s, p, start)])
  }

  /** `split(c).next()`. */
  function FirstPart(s: string, c: char): string {
    s[..IndexOf(s, c, 0)]
  }

  function ParseSessionIds(url: string): Option<(nat, nat)> {
    match SecondPart(url, SESSIONS)
    case None => None
    case Some(rest) =>
      match ParseUnsigned(FirstPart(rest, '/'), TWO_64)
      case None => None
      case Some(ts) =>
        match SecondPart(rest, VECTOR_SETS)
        case None => None
        case Some(tail) =>
          match ParseUnsigned(FirstPart(tail, '/'), TWO_64)
          case None => None
          case Some(vs) => Some((ts, vs))
  }

  // ----- URLs the harness builds

  predicate Starts(s: string, c: char) {
    s != [] && s[0] == c
  }

  lemma PartEndsAtSlash(id: string, tail: string, end: nat)
    requires AllDigits(id) && (tail == [] || tail[0] == '/') && |id| <= end <= |id + tail|
    ensures FirstPart((id + tail)[..end], '/') == id
  {
    var s := (id + tail)[..end];
    IndexOfIs(s, '/', 0, |id|);
    assert s[..|id|] == id;
  }

  /** The part between two markers, when it starts with an id and the next marker can
      only start behind it. */
  lemma PartAfterMarker(prefix: string, p: string, id: string, tail: string)
    requires Starts(p, '/') && |p| >= 2 && AllDigits(id) && (tail == [] || tail[0] == '/')
    requires var s := prefix + p + (id + tail); forall k: nat :: k < |prefix| ==> !At(s, k, p)
    ensures var s := prefix + p + (id + tail); var part := SecondPart(s, p);
      && part.Some? && |id| <= |part.value| <= |id + tail| && part.value == (id + tail)[..|part.value|]
      && FirstPart(part.value, '/') == id
      && (|part.value| < |id + tail| ==> At(id + tail, |part.value|, p))
  {
    hide FirstPart, Find;
    var s, rest := prefix + p + (id + tail), id + tail;
    assert s[|prefix|..|prefix| + |p|] == p;
    FindIs(s, p, 0, |prefix|);
    var start := |prefix| + |p|;
    assert s[start..] == rest;
    IdThenMarker(s, p, id, tail, start);
    var end := Find(s, p, start);
    assert s[start..end] == rest[..end - start];
    PartEndsAtSlash(id, tail, end - start);
    assert end < |s| ==> rest[end - start..end - start + |p|] == s[end..end + |p|];
  }

  lemma IdThenMarker(s: string, p: string, id: string, tail: string, start: nat)
    requires Starts(p, '/') && |p| >= 2 && AllDigits(id)
    requires start <= |s| && s[start..] == id + tail
    ensures Find(s, p, start) >= start + |id|
  {
    forall k | start <= k < start + |id| ensures s[k] != p[0] {
      assert s[k] == s[start..][k - start] == id[k - start];
    }
    NotInside(s, p, start, start + |id|);
  }

  function VectorSetUrl(base: string, ts: nat, vs: nat, tail: string): string {
    base + "/testSessions/" + (NatText(ts) + ("/vectorSets/" + (NatText(vs) + tail)))
  }

  lemma CutBehind(t: string, v: string, tail: string, kept: nat)
    requires kept <= |tail|
    ensures (t + (VECTOR_SETS + (v + tail)))[..|t| + |VECTOR_SETS| + |v| + kept] == t + VECTOR_SETS + (v + tail[..kept])
  {
  }

  /** Both ids come back, for every pair of 64-bit ids, any server prefix that does not
      itself hold the session marker, and any further path segments. */
  lemma IdsReadBack(base: string, ts: nat, vs: nat, tail: string)
    requires ts < TWO_64 && vs < TWO_64 && (tail == [] || tail[0] == '/')
    requires forall k: nat :: k < |base| ==> !At(VectorSetUrl(base, ts, vs, tail), k, SESSIONS)
    ensures ParseSessionIds(VectorSetUrl(base, ts, vs, tail)) == Some((ts, vs))
  {
    hide Find, SecondPart, FirstPart, NatValue, NatText, AllDigits;
    var t, v := NatText(ts), NatText(vs);
    var inner := VECTOR_SETS + (v + tail);
    assert SESSIONS[0] == '/' && VECTOR_SETS[0] == '/' && inner[0] == '/';
    assert VectorSetUrl(base, ts, vs, tail) == base + SESSIONS + (t + inner);
    PartAfterMarker(base, SESSIONS, t, inner);
    var rest := SecondPart(VectorSetUrl(base, ts, vs, tail), SESSIONS).value;
    ParseUnsignedNatText(ts, TWO_64);
    SessionMarkerIsLater(t, v, tail, |rest|);
    var kept := |rest| - |t| - |VECTOR_SETS| - |v|;
    var cut := tail[..kept];
    CutBehind(t, v, tail, kept);
    assert rest == t + VECTOR_SETS + (v + cut);
    DigitsHoldNoMarker(t, VECTOR_SETS, v + cut);
    PartAfterMarker(t, VECTOR_SETS, v, cut);
    ParseUnsignedNatText(vs, TWO_64);
  }

  lemma DigitsHoldNoMarker(id: string, p: string, rest: string)
    requires AllDigits(id) && Starts(p, '/') && |p| >= 2
    ensures var s := id + p + rest; forall k: nat :: k < |id| ==> !At(s, k, p)
  {
    NotInside(id + p + rest, p, 0, |id|);
  }

  /** The session marker cannot start inside `<ts>/vectorSets/<vs>`. */
  lemma SessionMarkerIsLater(t: string, v: string, tail: string, at: nat)
    requires AllDigits(t) && AllDigits(v) && v != []
    requires var s := t + (VECTOR_SETS + (v + tail));
      |t| <= at <= |s| && (at < |s| ==> At(s, at, SESSIONS))
    ensures at >= |t| + |VECTOR_SETS| + |v|
  {
    var s := t + (VECTOR_SETS + (v + tail));
    forall k | |t| <= k < |t| + |VECTOR_SETS| + |v| ensures !(k < |s| && At(s, k, SESSIONS)) {
      AtHead(s, k, SESSIONS);
      if k < |t| + |VECTOR_SETS| {
        assert s[k] == VECTOR_SETS[k - |t|];
        assert s[|t| + 1] == VECTOR_SETS[1] && s[|t| + |VECTOR_SETS|] == v[0];
      } else {
        assert s[k] == v[k - |t| - |VECTOR_SETS|];
      }
    }
  }

  // ----- any URL

  /** What stands behind the first marker, up to the next one or the end. */
  predicate IsPart(s: string, p: string, a: string, part: string, b: string) {
    && s == a + p + (part + b) && (forall k: nat :: k < |a| ==> !At(s, k, p))
    && (forall k: nat :: k < |part| ==> !At(part + b, k, p)) && (b == "" || p <= b)
  }

  ghost predicate HasPart(s: string, p: string, part: string) {
    exists a, b :: IsPart(s, p, a, part, b)
  }

  lemma PartIff(s: string, p: string, part: string)
    requires p != []
    ensures SecondPart(s, p) == Some(part) <==> HasPart(s, p, part)
  {
    hide Find, At;
    if SecondPart(s, p) == Some(part) { PartFound(s, p); }
    if HasPart(s, p, part) {
      var a, b :| IsPart(s, p, a, part, b);
      PartRead(s, p, a, part, b);
    }
  }

  lemma PartFound(s: string, p: string)
    requires p != [] && SecondPart(s, p).Some?
    ensures HasPart(s, p, SecondPart(s, p).value)
  {
    hide Find, At;
    var i := Find(s, p, 0);
    AtEnd(s, i, p);
    var start := i + |p|;
    var end := Find(s, p, start);
    Segments(s, i, start, end);
    AtShift(s, start, p);
    assert s[start..] == s[start..end] + s[end..];
    if end < |s| { AtEnd(s, end, p); }
    assert IsPart(s, p, s[..i], s[start..end], s[end..]);
  }

  lemma AtEnd(s: string, i: nat, p: string)
    requires At(s, i, p)
    ensures i + |p| <= |s| && s[i..i + |p|] == p && p <= s[i..]
  {
    assert s[i..][..|p|] == s[i..i + |p|];
  }

  lemma Segments(s: string, i: nat, j: nat, k: nat)
    requires i <= j <= k <= |s|
    ensures s == s[..i] + s[i..j] + (s[j..k] + s[k..])
  {
    assert s == s[..i] + s[i..] && s[i..] == s[i..j] + s[j..] && s[j..] == s[j..k] + s[k..];
  }

  lemma AtShift(s: string, start: nat, p: string)
    requires start <= |s|
    ensures forall k: nat :: At(s[start..], k, p) <==> At(s, start + k, p)
  {
    forall k: nat ensures At(s[start..], k, p) <==> At(s, start + k, p) {
      if start + k + |p| <= |s| { assert s[start..][k..k + |p|] == s[start + k..start + k + |p|]; }
    }
  }

  lemma PartRead(s: string, p: string, a: string, part: string, b: string)
    requires p != [] && IsPart(s, p, a, part, b)
    ensures SecondPart(s, p) == Some(part)
  {
    hide Find;
    assert s[|a|..|a| + |p|] == p;
    FindIs(s, p, 0, |a|);
    var start := |a| + |p|;
    assert s[start..] == part + b;
    var end := start + |part|;
    forall k: nat | start <= k < end ensures !At(s, k, p) {
      assert !At(part + b, k - start, p);
      if k + |p| <= |s| { assert (part + b)[k - start..k - start + |p|] == s[k..k + |p|]; }
    }
    if b == "" {
      NoneFrom(s, p, start);
    } else {
      assert s[end..end + |p|] == p by { assert s[end..] == b; }
      FindIs(s, p, start, end);
    }
    assert s[start..end] == part;
  }

  lemma NoneFrom(s: string, p: string, i: nat)
    requires p != [] && i <= |s| && forall k: nat :: i <= k < |s| ==> !At(s, k, p)
    ensures Find(s, p, i) == |s|
  {
  }

  /** The text begins with the id, up to a slash or the end. */
  ghost predicate LeadsWith(s: string, id: string) {
    exists rest :: s == id + rest && Free(id, '/') && (rest == "" || rest[0] == '/')
  }

  lemma LeadIff(s: string, id: string)
    ensures FirstPart(s, '/') == id <==> LeadsWith(s, id)
  {
    hide IndexOf;
    var i := IndexOf(s, '/', 0);
    assert s == s[..i] + s[i..];
    if rest :| s == id + rest && Free(id, '/') && (rest == "" || rest[0] == '/') {
      assert forall k :: 0 <= k < |id| ==> s[k] == id[k];
      IndexOfIs(s, '/', 0, |id|);
    }
  }

  /** A text that leads with a number below 2^64. */
  ghost predicate LeadsWithId(s: string, id: nat) {
    id < 0x1_0000_0000_0000_0000 && exists t :: LeadsWith(s, t) && SpellsUnsigned(t, id)
  }

  lemma IdIff(s: string, id: nat)
    ensures ParseUnsigned(FirstPart(s, '/'), TWO_64) == Some(id) <==> LeadsWithId(s, id)
  {
    hide FirstPart, LeadsWith, ParseUnsigned, SpellsUnsigned;
    forall t ensures FirstPart(s, '/') == t <==> LeadsWith(s, t) {
      LeadIff(s, t);
    }
    ParseUnsignedIff(FirstPart(s, '/'), TWO_64, id);
    assert LeadsWith(s, FirstPart(s, '/'));
  }

  /** Any URL at all: the ids are the numbers that lead what stands behind the first
      session marker, and in that behind the first vector-set marker. */
  lemma IdsIff(url: string, ts: nat, vs: nat)
    ensures ParseSessionIds(url) == Some((ts, vs)) <==>
      exists part, tail ::
        && HasPart(url, "/testSessions/", part) && LeadsWithId(part, ts)
        && HasPart(part, "/vectorSets/", tail) && LeadsWithId(tail, vs)
  {
    hide SecondPart, HasPart, FirstPart, LeadsWithId, ParseUnsigned;
    forall part ensures SecondPart(url, SESSIONS) == Some(part) <==> HasPart(url, "/testSessions/", part) {
      PartIff(url, SESSIONS, part);
    }
    if SecondPart(url, SESSIONS).Some? {
      var part := SecondPart(url, SESSIONS).value;
      IdIff(part, ts);
      forall tail ensures SecondPart(part, VECTOR_SETS) == Some(tail) <==> HasPart(part, "/vectorSets/", tail) {
        PartIff(part, VECTOR_SETS, tail);
      }
      if SecondPart(part, VECTOR_SETS).Some? { IdIff(SecondPart(part, VECTOR_SETS).value, vs); }
      assert HasPart(url, "/testSessions/", part);
    }
  }
}
