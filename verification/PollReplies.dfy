/** What one pass of the poll amounts to, read off the reply itself: which statuses are
    said, in any spelling, and which error a reply that says none comes to. */
module PollReplies {
  import opened Prelude
  import opened Text
  import opened JsonLite
  import opened PollStatus
  import opened Poll
  import opened PollTheorems

  // ----- what a status text says

  predicate IsSeparator(c: char) {
    c == '-' || c == '_' || IsWhitespace(c)
  }

  predicate AllSeparators(s: string) {
    forall k :: 0 <= k < |s| ==> IsSeparator(s[k])
  }

  /** The text is these words, in any case, with separators between and around them. */
  ghost predicate Says(raw: string, ws: seq<string>)
    decreases |ws|
  {
    if ws == [] then AllSeparators(raw)
    else exists a, w, rest :: IsNextWord(raw, a, w, rest, ws[0]) && Says(rest, ws[1..])
  }

  predicate IsNextWord(raw: string, a: string, w: string, rest: string, word: string) {
    && raw == a + w + rest && AllSeparators(a) && SameUpToCase(w, word)
    && (rest == "" || IsSeparator(rest[0]))
  }

  predicate IsLowerWord(w: string) {
    w != "" && forall k :: 0 <= k < |w| ==> 'a' <= w[k] <= 'z'
  }

  lemma FoldedSeparator(c: char)
    ensures IsWhitespace(Fold(c)) <==> IsSeparator(c)
  {
  }

  lemma FoldedLetter(c: char, l: char)
    requires 'a' <= l <= 'z'
    ensures Fold(c) == l <==> SameLetter(c, l)
  {
  }

  lemma FoldedWord(w: string, word: string)
    requires IsLowerWord(word)
    ensures Folded(w) == word <==> SameUpToCase(w, word)
  {
    hide Fold, SameLetter;
    forall k | 0 <= k < |w| && k < |word| ensures Fold(w[k]) == word[k] <==> SameLetter(w[k], word[k]) {
      FoldedLetter(w[k], word[k]);
    }
    if SameUpToCase(w, word) {
      assert forall k :: 0 <= k < |w| ==> Folded(w)[k] == word[k];
    }
  }

  lemma FoldedConcat(a: string, b: string)
    ensures Folded(a + b) == Folded(a) + Folded(b)
  {
  }

  lemma FoldedSeparators(a: string)
    ensures AllWhitespace(Folded(a)) <==> AllSeparators(a)
  {
    hide Fold, IsWhitespace, IsSeparator;
    forall k | 0 <= k < |a| ensures IsWhitespace(Folded(a)[k]) <==> IsSeparator(a[k]) {
      FoldedSeparator(a[k]);
    }
  }

  lemma {:induction false} SkipSpace(a: string, t: string)
    requires AllWhitespace(a)
    ensures Words(a + t) == Words(t)
  {
    hide IsWhitespace, WordEnd;
    if a == "" {
      assert a + t == t;
    } else {
      assert (a + t)[1..] == a[1..] + t;
      assert (a + t)[0] == a[0];
      SkipSpace(a[1..], t);
    }
  }

  /** The first word of a text, and what stands around it. */
  lemma {:induction false} FirstWord(s: string) returns (i: nat, e: nat)
    requires Words(s) != []
    ensures i < e <= |s| && AllWhitespace(s[..i]) && Words(s) == [s[i..e]] + Words(s[e..])
    ensures e < |s| ==> IsWhitespace(s[e])
  {
    hide IsWhitespace;
    if IsWhitespace(s[0]) {
      i, e := FirstWord(s[1..]);
      assert s[1..][i..e] == s[i + 1..e + 1] && s[1..][e..] == s[e + 1..];
      assert s[..i + 1] == [s[0]] + s[1..][..i];
      i, e := i + 1, e + 1;
    } else {
      i, e := 0, WordEnd(s, 0);
      assert s[0..e] == s[..e];
    }
  }

  lemma NoWords(s: string)
    ensures Words(s) == [] <==> AllWhitespace(s)
  {
    if AllWhitespace(s) {
      assert s + "" == s;
      SkipSpace(s, "");
    }
    if Words(s) == [] { OnlySpace(s); }
  }

  lemma {:induction false} OnlySpace(s: string)
    requires Words(s) == []
    ensures AllWhitespace(s)
  {
    hide IsWhitespace;
    if s != [] {
      OnlySpace(s[1..]);
      assert forall k :: 0 < k < |s| ==> s[k] == s[1..][k - 1];
    }
  }

  predicate AllLower(ws: seq<string>) {
    forall k :: 0 <= k < |ws| ==> IsLowerWord(ws[k])
  }

  /** The words of the folded text are the words that the text says. */
  lemma {:induction false} SaysIff(raw: string, ws: seq<string>)
    requires AllLower(ws)
    ensures Words(Folded(raw)) == ws <==> Says(raw, ws)
    decreases |ws|
  {
    hide Words, Folded, IsSeparator, IsWhitespace, SameUpToCase, AllSeparators;
    if ws == [] {
      NoWords(Folded(raw));
      FoldedSeparators(raw);
    } else {
      if Words(Folded(raw)) == ws { SaidFirst(raw, ws); }
      if Says(raw, ws) {
        var a, w, rest :| IsNextWord(raw, a, w, rest, ws[0]) && Says(rest, ws[1..]);
        SaysIff(rest, ws[1..]);
        HeardFirst(raw, a, w, rest, ws);
      }
    }
  }

  lemma SaidFirst(raw: string, ws: seq<string>)
    requires ws != [] && AllLower(ws) && Words(Folded(raw)) == ws
    ensures Says(raw, ws)
    decreases |ws|, 0
  {
    hide Words, SameUpToCase, IsSeparator, IsWhitespace, Says;
    var s := Folded(raw);
    var i, e := FirstWord(s);
    var a, w, rest := raw[..i], raw[i..e], raw[e..];
    assert Folded(a) == s[..i] && Folded(w) == s[i..e] && Folded(rest) == s[e..];
    FoldedSeparators(a);
    FoldedWord(w, ws[0]);
    if rest != "" {
      assert s[e] == Fold(raw[e]);
      FoldedSeparator(raw[e]);
    }
    assert ws[1..] == Words(Folded(rest));
    SaysIff(rest, ws[1..]);
    SplitWord(raw, i, e);
    assert IsNextWord(raw, a, w, rest, ws[0]);
    SaysStep(raw, a, w, rest, ws);
  }

  lemma SaysStep(raw: string, a: string, w: string, rest: string, ws: seq<string>)
    requires ws != [] && IsNextWord(raw, a, w, rest, ws[0]) && Says(rest, ws[1..])
    ensures Says(raw, ws)
  {
    hide IsNextWord;
  }

  lemma SplitWord(s: string, i: nat, e: nat)
    requires i <= e <= |s|
    ensures s == s[..i] + s[i..e] + s[e..]
  {
    assert s == s[..e] + s[e..] && s[..e] == s[..i] + s[i..e];
  }

  lemma HeardFirst(raw: string, a: string, w: string, rest: string, ws: seq<string>)
    requires ws != [] && AllLower(ws) && IsNextWord(raw, a, w, rest, ws[0]) && Words(Folded(rest)) == ws[1..]
    ensures Words(Folded(raw)) == ws
  {
    hide Words, Folded, IsSeparator, IsWhitespace, SameUpToCase, Fold;
    FoldedConcat(a + w, rest);
    FoldedConcat(a, w);
    FoldedSeparators(a);
    FoldedWord(w, ws[0]);
    var more := Folded(rest);
    assert Folded(raw) == Folded(a) + (ws[0] + more) by { Regroup(Folded(a), ws[0], more, [], [], []); }
    SkipSpace(Folded(a), ws[0] + more);
    if rest != "" { FoldedSeparator(rest[0]); }
    LowerIsWord(ws[0]);
    WordsOfWord(ws[0], more);
  }

  lemma LowerIsWord(w: string)
    requires IsLowerWord(w)
    ensures IsWord(w)
  {
  }

  /** The text says a documented spelling of the status. */
  ghost predicate IsSaid(raw: string, s: Status) {
    exists ws :: ws in Spelling(s) && Says(raw, ws)
  }

  lemma LiteralsAreLower()
    ensures IsLowerWord("not") && IsLowerWord("yet") && IsLowerWord("processed") && IsLowerWord("uploaded") && IsLowerWord("error")
    ensures IsLowerWord("run") && IsLowerWord("started") && IsLowerWord("successful") && IsLowerWord("failed")
    ensures IsLowerWord("cancelled") && IsLowerWord("canceled")
  {
  }

  lemma SpellingsAreLower(s: Status, ws: seq<string>)
    requires ws in Spelling(s)
    ensures AllLower(ws)
  {
    hide IsLowerWord;
    LiteralsAreLower();
  }

  /** A raw status is recognised exactly when it says a documented spelling. */
  lemma StatusIff(raw: string, s: Status)
    requires !s.Unrecognized?
    ensures Classify(raw) == s <==> IsSaid(raw, s)
  {
    hide Words, Says, Folded, Spelling, Classify;
    ClassifiedByWords(raw, s);
    forall ws | ws in Spelling(s) ensures Words(Folded(raw)) == ws <==> Says(raw, ws) {
      SpellingsAreLower(s, ws);
      SaysIff(raw, ws);
    }
  }

  // ----- members of the payload

  /** The k-th member is the first with the key. */
  predicate IsFirst(v: LiteValue, key: string, k: nat) {
    v.Object? && k < |v.members| && v.members[k].key == key && forall j :: 0 <= j < k ==> v.members[j].key != key
  }

  ghost predicate Has(v: LiteValue, key: string, value: LiteValue) {
    exists k: nat :: IsFirst(v, key, k) && v.members[k].value == value
  }

  predicate Repeats(v: LiteValue, key: string) {
    v.Object? && exists i, j :: 0 <= i < j < |v.members| && v.members[i].key == key && v.members[j].key == key
  }

  lemma {:induction false} FirstIff(members: seq<LiteMember>, key: string, value: LiteValue)
    ensures First(members, key) == Some(value) <==> Has(Object(members), key, value)
  {
    if members != [] {
      var rest := members[1..];
      FirstIff(rest, key, value);
      if members[0].key == key {
        if members[0].value == value { assert IsFirst(Object(members), key, 0); }
      } else {
        if k: nat :| IsFirst(Object(members), key, k) && members[k].value == value {
          assert forall j :: 0 <= j < k - 1 ==> rest[j] == members[j + 1];
          assert IsFirst(Object(rest), key, k - 1);
        }
        if k: nat :| IsFirst(Object(rest), key, k) && rest[k].value == value {
          assert forall j :: 0 < j < k + 1 ==> members[j] == rest[j - 1];
          assert IsFirst(Object(members), key, k + 1);
        }
      }
    }
  }

  lemma {:induction false} SomeCount(members: seq<LiteMember>, key: string)
    ensures KeyCount(members, key) > 0 <==> exists k :: 0 <= k < |members| && members[k].key == key
  {
    if members != [] {
      var rest := members[1..];
      SomeCount(rest, key);
      assert forall k :: 0 <= k < |rest| ==> rest[k] == members[k + 1];
    }
  }

  lemma {:induction false} CountIff(members: seq<LiteMember>, key: string)
    ensures KeyCount(members, key) > 1 <==> Repeats(Object(members), key)
  {
    if members != [] {
      var rest := members[1..];
      CountIff(rest, key);
      SomeCount(rest, key);
      assert forall k :: 0 <= k < |rest| ==> rest[k] == members[k + 1];
      if members[0].key == key && KeyCount(rest, key) > 0 {
        var k :| 0 <= k < |rest| && rest[k].key == key;
        assert members[0].key == key && members[k + 1].key == key;
      }
      if i, j :| 0 <= i < j < |rest| && rest[i].key == key && rest[j].key == key {
        assert members[i + 1].key == key && members[j + 1].key == key;
      }
      if i, j :| 0 <= i < j < |members| && members[i].key == key && members[j].key == key {
        assert rest[j - 1].key == key;
        if i > 0 { assert rest[i - 1].key == key; }
      }
    }
  }

  lemma GetIff(v: LiteValue, key: string, value: LiteValue)
    ensures Get(v, key) == Some(value) <==> Has(v, key, value)
  {
    if v.Object? { FirstIff(v.members, key, value); }
  }

  lemma UniqueIff(v: LiteValue, key: string)
    ensures GetUnique(v, key) == if Repeats(v, key) then Err(key) else Ok(Get(v, key))
  {
    if v.Object? { CountIff(v.members, key); }
  }

  ghost predicate HasText(v: LiteValue, key: string) {
    exists t :: Has(v, key, String(t))
  }

  lemma TextIff(v: LiteValue, key: string, t: string)
    ensures AsString(Get(v, key)) == Some(t) <==> Has(v, key, String(t))
  {
    hide Get, Has;
    GetIff(v, key, String(t));
  }

  lemma SomeText(v: LiteValue, key: string)
    ensures AsString(Get(v, key)).Some? <==> HasText(v, key)
  {
    hide Get, Has;
    forall t ensures AsString(Get(v, key)) == Some(t) <==> Has(v, key, String(t)) {
      TextIff(v, key, t);
    }
  }

  // ----- replies

  /** The payload names one status, `raw`, and at most one id. */
  ghost predicate IsReport(payload: LiteValue, raw: string) {
    !Repeats(payload, "status") && Has(payload, "status", String(raw)) && !Repeats(payload, "id")
  }

  /** The payload names no status, in text or at all, and not two. */
  ghost predicate NoStatus(payload: LiteValue) {
    !Repeats(payload, "status") && !HasText(payload, "status")
  }

  ghost predicate IsDocumented(raw: string) {
    exists s, ws :: ws in Spelling(s) && Says(raw, ws)
  }

  lemma DocumentedIff(raw: string)
    ensures IsDocumented(raw) <==> !Classify(raw).Unrecognized?
    ensures Classify(raw).Unrecognized? ==> Classify(raw) == Unrecognized(raw)
  {
    hide Normalize, Says;
    if IsDocumented(raw) {
      var s, ws :| ws in Spelling(s) && Says(raw, ws);
      StatusIff(raw, s);
    }
    if !Classify(raw).Unrecognized? { StatusIff(raw, Classify(raw)); }
  }

  lemma DecisionIff(raw: string)
    ensures PollDecision(Classify(raw)) == WaitNotYetProcessed <==> IsSaid(raw, NotYetProcessed)
    ensures PollDecision(Classify(raw)) == WaitProcessing <==> IsSaid(raw, Uploaded) || IsSaid(raw, RunStarted)
    ensures PollDecision(Classify(raw)) == Stop(TerminalSuccess) <==> IsSaid(raw, RunSuccessful)
    ensures PollDecision(Classify(raw)) == Stop(TerminalFailed) <==> IsSaid(raw, RunFailed)
    ensures PollDecision(Classify(raw)) == Stop(TerminalCancelled) <==> IsSaid(raw, RunCancelled)
    ensures PollDecision(Classify(raw)) == Stop(TerminalError) <==> IsSaid(raw, Error)
    ensures PollDecision(Classify(raw)) == Unknown <==> !IsDocumented(raw)
  {
    hide Classify, IsSaid, IsDocumented;
    StatusIff(raw, NotYetProcessed);
    StatusIff(raw, Uploaded);
    StatusIff(raw, RunStarted);
    StatusIff(raw, RunSuccessful);
    StatusIff(raw, RunFailed);
    StatusIff(raw, RunCancelled);
    StatusIff(raw, Error);
    DocumentedIff(raw);
  }

  /** What the poll makes of a payload, for every reply of a server. */
  lemma PayloadOutcome(payload: LiteValue, httpStatus: nat, body: string)
    ensures var o := ObservePayload(payload, httpStatus, body);
      && (o == NotYet <==> exists raw :: IsReport(payload, raw) && IsSaid(raw, NotYetProcessed))
      && (o == Processing <==> exists raw :: IsReport(payload, raw) && (IsSaid(raw, Uploaded) || IsSaid(raw, RunStarted)))
      && (forall raw :: o == Final(Err(UnrecognizedStatus(raw))) <==> IsReport(payload, raw) && !IsDocumented(raw))
      && (o == Final(Err(ServerError)) <==> NoStatus(payload) && (HasText(payload, "error") || httpStatus < 200 || httpStatus > 299))
      && (o == Final(Err(MalformedResponse)) <==>
            || Repeats(payload, "status") || (HasText(payload, "status") && Repeats(payload, "id"))
            || (NoStatus(payload) && !HasText(payload, "error") && 200 <= httpStatus <= 299))
      && (o.Final? && o.outcome.Ok? <==> exists raw ::
            && IsReport(payload, raw)
            && (IsSaid(raw, RunSuccessful) || IsSaid(raw, RunFailed) || IsSaid(raw, RunCancelled) || IsSaid(raw, Error)))
  {
    hide Classify, PollDecision, IsSaid, IsDocumented, Repeats, Has, Get, GetUnique, IdText;
    UniqueIff(payload, "status");
    UniqueIff(payload, "id");
    SomeText(payload, "status");
    SomeText(payload, "error");
    forall t ensures AsString(Get(payload, "status")) == Some(t) <==> Has(payload, "status", String(t)) {
      TextIff(payload, "status", t);
    }
    if AsString(Get(payload, "status")).Some? { DecisionIff(AsString(Get(payload, "status")).value); }
  }

  /** The token comes first: a pass whose token is refused is no reply at all. */
  lemma PassOutcome(p: Pass, payload: LiteValue)
    requires p.token.Ok? && p.reply.Response? && IsEnvelope(p.reply.body, payload)
    ensures Observe(p) == ObservePayload(payload, p.reply.status, p.reply.body)
  {
    hide ObservePayload, IsEnvelope, Payload;
    PayloadIff(p.reply.body, payload);
  }
}
