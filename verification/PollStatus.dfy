/** The processing status of a data file: how the raw status text is folded, which
    spellings are recognised, and what the polling loop does next. */
module PollStatus {
  import opened Prelude
  import opened Text

  datatype Status =
    | NotYetProcessed | Uploaded | RunStarted | RunSuccessful | RunFailed | RunCancelled | Error
    | Unrecognized(raw: string)

  datatype Terminal = TerminalSuccess | TerminalFailed | TerminalCancelled | TerminalError

  datatype Decision = WaitNotYetProcessed | WaitProcessing | Stop(terminal: Terminal) | Unknown

  function PollDecision(s: Status): Decision {
    match s
    case NotYetProcessed => WaitNotYetProcessed
    case Uploaded => WaitProcessing
    case RunStarted => WaitProcessing
    case RunSuccessful => Stop(TerminalSuccess)
    case RunFailed => Stop(TerminalFailed)
    case RunCancelled => Stop(TerminalCancelled)
    case Error => Stop(TerminalError)
    case Unrecognized(_) => Unknown
  }

  function Fold(c: char): char {
    if c == '-' || c == '_' then ' '
    else if 'A' <= c <= 'Z' then (c as int + 32) as char
    else c
  }

  function Folded(s: string): (r: string)
    ensures |r| == |s|
    ensures forall k :: 0 <= k < |s| ==> r[k] == Fold(s[k])
  {
    seq(|s|, k requires 0 <= k < |s| => Fold(s[k]))
  }

  /** End of the run of non-whitespace at `i`. */
  function WordEnd(s: string, i: nat): (r: nat)
    requires i <= |s|
    ensures i <= r <= |s|
    ensures forall k :: i <= k < r ==> !IsWhitespace(s[k])
    ensures r < |s| ==> IsWhitespace(s[r])
    decreases |s| - i
  {
    if i < |s| && !IsWhitespace(s[i]) then WordEnd(s, i + 1) else i
  }

  predicate IsWord(w: string) {
    w != [] && forall k :: 0 <= k < |w| ==> !IsWhitespace(w[k])
  }

  predicate AllWords(ws: seq<string>) {
    forall k :: 0 <= k < |ws| ==> IsWord(ws[k])
  }

  /** `split_whitespace`: the maximal runs of non-whitespace, in order. */
  function Words(s: string): (ws: seq<string>)
    ensures AllWords(ws)
    decreases |s|
  {
    if s == [] then []
    else if IsWhitespace(s[0]) then Words(s[1..])
    else [s[..WordEnd(s, 0)]] + Words(s[WordEnd(s, 0)..])
  }

  /** `join(" ")`. */
  function Joined(ws: seq<string>): string {
    if ws == [] then ""
    else if |ws| == 1 then ws[0]
    else ws[0] + " " + Joined(ws[1..])
  }

  function Normalize(raw: string): string {
    Joined(Words(Folded(raw)))
  }

  function Classify(raw: string): Status {
    var n := Normalize(raw);
    if n == "not yet processed" then NotYetProcessed
    else if n == "uploaded" then Uploaded
    else if n == "run started" then RunStarted
    else if n == "run successful" then RunSuccessful
    else if n == "run failed" then RunFailed
    else if n == "run cancelled" || n == "run canceled" then RunCancelled
    else if n == "error" then Error
    else Unrecognized(raw)
  }

  // ----- the fold is exact on words

  lemma WordEndIs(s: string, i: nat, r: nat)
    requires i <= r <= |s|
    requires forall k :: i <= k < r ==> !IsWhitespace(s[k])
    requires r < |s| ==> IsWhitespace(s[r])
    ensures WordEnd(s, i) == r
  {
    var q := WordEnd(s, i);
    assert !(q < r) && !(r < q);
  }

  lemma WordsOfWord(w: string, rest: string)
    requires IsWord(w) && (rest == [] || IsWhitespace(rest[0]))
    ensures Words(w + rest) == [w] + Words(rest)
  {
    var s := w + rest;
    WordEndIs(s, 0, |w|);
    assert s[..|w|] == w && s[|w|..] == rest;
  }

  /** Splitting undoes joining: no word list is lost or merged by the fold. */
  lemma {:induction false} WordsOfJoined(ws: seq<string>)
    requires AllWords(ws)
    ensures Words(Joined(ws)) == ws
  {
    if |ws| == 0 {
    } else if |ws| == 1 {
      WordsOfWord(ws[0], "");
      assert ws[0] + "" == ws[0];
    } else {
      var rest := " " + Joined(ws[1..]);
      assert rest[1..] == Joined(ws[1..]);
      WordsOfJoined(ws[1..]);
      WordsOfWord(ws[0], rest);
      assert ws[0] + " " + Joined(ws[1..]) == ws[0] + rest;
    }
  }

  /** The documented spellings, as word lists. */
  function Spelling(s: Status): set<seq<string>> {
    match s
    case NotYetProcessed => {["not", "yet", "processed"]}
    case Uploaded => {["uploaded"]}
    case RunStarted => {["run", "started"]}
    case RunSuccessful => {["run", "successful"]}
    case RunFailed => {["run", "failed"]}
    case RunCancelled => {["run", "cancelled"], ["run", "canceled"]}
    case Error => {["error"]}
    case Unrecognized(_) => {}
  }

  lemma JoinedTwo(a: string, b: string)
    ensures Joined([a, b]) == a + " " + b
  {
    assert [a, b][1..] == [b];
  }

  lemma JoinedThree(a: string, b: string, c: string)
    ensures Joined([a, b, c]) == a + " " + (b + " " + c)
  {
    assert [a, b, c][1..] == [b, c];
    JoinedTwo(b, c);
  }

  lemma SpellingsJoined()
    ensures Joined(["not", "yet", "processed"]) == "not yet processed"
    ensures Joined(["uploaded"]) == "uploaded"
    ensures Joined(["run", "started"]) == "run started"
    ensures Joined(["run", "successful"]) == "run successful"
    ensures Joined(["run", "failed"]) == "run failed"
    ensures Joined(["run", "cancelled"]) == "run cancelled"
    ensures Joined(["run", "canceled"]) == "run canceled"
    ensures Joined(["error"]) == "error"
  {
    JoinedThree("not", "yet", "processed");
    JoinedTwo("run", "started");
    JoinedTwo("run", "successful");
    JoinedTwo("run", "failed");
    JoinedTwo("run", "cancelled");
    JoinedTwo("run", "canceled");
  }

  lemma JoinedIs(ws: seq<string>, spelling: seq<string>)
    requires AllWords(ws) && AllWords(spelling)
    ensures Joined(ws) == Joined(spelling) <==> ws == spelling
  {
    hide Words, Joined;
    WordsOfJoined(ws);
    WordsOfJoined(spelling);
  }

  lemma LiteralWords()
    ensures IsWord("not") && IsWord("yet") && IsWord("processed") && IsWord("uploaded") && IsWord("error")
    ensures IsWord("run") && IsWord("started") && IsWord("successful") && IsWord("failed")
    ensures IsWord("cancelled") && IsWord("canceled")
  {
  }

  lemma FirstSpellings(ws: seq<string>)
    requires AllWords(ws)
    ensures Joined(ws) == "not yet processed" <==> ws == ["not", "yet", "processed"]
    ensures Joined(ws) == "uploaded" <==> ws == ["uploaded"]
    ensures Joined(ws) == "run started" <==> ws == ["run", "started"]
    ensures Joined(ws) == "run successful" <==> ws == ["run", "successful"]
  {
    hide Joined, IsWord;
    LiteralWords();
    SpellingsJoined();
    JoinedIs(ws, ["not", "yet", "processed"]);
    JoinedIs(ws, ["uploaded"]);
    JoinedIs(ws, ["run", "started"]);
    JoinedIs(ws, ["run", "successful"]);
  }

  lemma OtherSpellings(ws: seq<string>)
    requires AllWords(ws)
    ensures Joined(ws) == "run failed" <==> ws == ["run", "failed"]
    ensures Joined(ws) == "run cancelled" <==> ws == ["run", "cancelled"]
    ensures Joined(ws) == "run canceled" <==> ws == ["run", "canceled"]
    ensures Joined(ws) == "error" <==> ws == ["error"]
  {
    hide Joined, IsWord;
    LiteralWords();
    SpellingsJoined();
    JoinedIs(ws, ["run", "failed"]);
    JoinedIs(ws, ["run", "cancelled"]);
    JoinedIs(ws, ["run", "canceled"]);
    JoinedIs(ws, ["error"]);
  }

  /** A raw status is recognised exactly when its words, with case and separators
      folded, are one of the documented spellings; containing one is not enough. */
  lemma ClassifiedByWords(raw: string, s: Status)
    requires !s.Unrecognized?
    ensures Classify(raw) == s <==> Words(Folded(raw)) in Spelling(s)
  {
    hide Words, Joined, Folded, IsWord;
    FirstSpellings(Words(Folded(raw)));
    OtherSpellings(Words(Folded(raw)));
  }

  // ----- the fold is stable

  predicate FoldFixed(s: string) {
    forall k :: 0 <= k < |s| ==> Fold(s[k]) == s[k]
  }

  lemma {:induction false} WordsFoldFixed(s: string)
    requires FoldFixed(s)
    ensures forall k :: 0 <= k < |Words(s)| ==> FoldFixed(Words(s)[k])
    decreases |s|
  {
    if s == [] {
    } else if IsWhitespace(s[0]) {
      WordsFoldFixed(s[1..]);
    } else {
      var e := WordEnd(s, 0);
      WordsFoldFixed(s[e..]);
    }
  }

  lemma {:induction false} JoinedFoldFixed(ws: seq<string>)
    requires forall k :: 0 <= k < |ws| ==> FoldFixed(ws[k])
    ensures FoldFixed(Joined(ws))
  {
    if |ws| > 1 {
      JoinedFoldFixed(ws[1..]);
    }
  }

  /** Normalising twice is normalising once, so a text and its normal form are always
      classified alike. */
  lemma NormalizeIdempotent(raw: string)
    ensures Normalize(Normalize(raw)) == Normalize(raw)
    ensures FoldFixed(Normalize(raw))
  {
    hide Words, Joined;
    var ws := Words(Folded(raw));
    assert FoldFixed(Folded(raw));
    WordsFoldFixed(Folded(raw));
    JoinedFoldFixed(ws);
    WordsOfJoined(ws);
    assert Folded(Joined(ws)) == Joined(ws);
  }
}
