/** What a run leaves on record, against the script of everything outside: the run is
    determined by it, the disposition is the server's word, and the directory holds that
    word and the files the run was given. */
module SubmissionRecords {
  import opened Prelude
  import opened Submission
  import opened SubmissionSafety
  import opened Text
  import opened Numerals

  // ----- the script determines the run

  lemma WriteDetermined(script: Script, c: nat, s: Step, t: Step, name: string, data: string)
    requires IsWrite(s, name, data) && IsWrite(t, name, data) && StepAt(script, c, s) && StepAt(script, c, t)
    ensures s == t
  {
  }

  lemma FollowsAt(script: Script, c: nat, t: seq<Step>, k: nat)
    requires Follows(script, c, t) && k < |t|
    ensures StepAt(script, c + k, t[k])
  {
  }

  lemma TwoWritesDetermined(script: Script, c: nat, s: seq<Step>, t: seq<Step>, name0: string, data0: string, name1: string, data1: string)
    requires AreTwoWrites(s, name0, data0, name1, data1) && AreTwoWrites(t, name0, data0, name1, data1)
    requires Follows(script, c, s) && Follows(script, c, t)
    ensures s == t
  {
    hide Follows;
    FollowsAt(script, c, s, 0);
    FollowsAt(script, c, t, 0);
    WriteDetermined(script, c, s[0], t[0], name0, data0);
    if |s| == 2 {
      FollowsAt(script, c, s, 1);
      FollowsAt(script, c, t, 1);
      WriteDetermined(script, c + 1, s[1], t[1], name1, data1);
      assert s == [s[0], s[1]] && t == [t[0], t[1]];
    } else {
      assert s == [s[0]] && t == [t[0]];
    }
  }

  lemma AttemptDetermined(script: Script, c: nat, s: seq<Step>, t: seq<Step>, body: string)
    requires IsAttempt(s, body) && IsAttempt(t, body) && Follows(script, c, s) && Follows(script, c, t)
    ensures s == t
  {
    hide Follows;
    FollowsAt(script, c, s, 0);
    FollowsAt(script, c, t, 0);
    assert s[0] == t[0];
    if |s| == 2 {
      FollowsAt(script, c, s, 1);
      FollowsAt(script, c, t, 1);
      WriteDetermined(script, c + 1, s[1], t[1], STATUS_FILE, STATUS_SUBMITTED + "\n");
      assert s == [s[0], s[1]] && t == [t[0], t[1]];
    } else {
      assert s == [s[0]] && t == [t[0]];
    }
  }

  lemma VerdictDetermined(script: Script, c: nat, last: seq<Step>, v: seq<Step>, w: seq<Step>, d: Disposition, e: Disposition)
    requires last != [] && last[0].Posted? && IsConclusion(last, v, d) && IsConclusion(last, w, e)
    requires VerdictFollows(script, c, last, v, d) && VerdictFollows(script, c, last, w, e)
    ensures v == w && d == e
  {
    hide Follows;
    if AttemptAccepted(last) && d.Verdict? {
      FollowsAt(script, c + 1, v, 0);
      FollowsAt(script, c + 1, w, 0);
      WriteDetermined(script, c + 1, v[0], w[0], STATUS_FILE, d.text + "\n");
    }
  }

  lemma AttemptsDetermined(script: Script, c: nat, a: Run, b: Run, body: string)
    requires AreAttempts(a, body) && AreAttempts(b, body) && AttemptsFollow(script, c, a) && AttemptsFollow(script, c, b)
    ensures a.first == b.first && a.reconnected == b.reconnected && a.reauthorized == b.reauthorized
    ensures a.reopenOk == b.reopenOk && a.refreshOk == b.refreshOk
  {
    hide Follows, IsAttempt;
    AttemptDetermined(script, c, a.first, b.first, body);
    AttemptHead(a.first, body);
    if a.first[0].reply == Lost(true) && a.reopenOk {
      AttemptHead(a.reconnected, body);
      AttemptDetermined(script, c + |a.first| + 1, a.reconnected, b.reconnected, body);
    }
    assert a.BeforeRefresh() == b.BeforeRefresh();
    if IsAuthRejection(a.BeforeRefresh()[0].reply) && a.refreshOk {
      AttemptHead(a.reauthorized, body);
      AttemptDetermined(script, c + |a.first| + Ticks(MetDeadSocket(a.first)) + |a.reconnected| + 1, a.reauthorized, b.reauthorized, body);
    }
  }

  lemma AttemptHead(t: seq<Step>, body: string)
    requires IsAttempt(t, body)
    ensures t != [] && t[0].Posted?
  {
  }

  /** One script, one run: whatever happens is decided by the inputs and the answers. */
  lemma RunIsDetermined(script: Script, c: nat, a: Run, b: Run, prompt: string, token: string, response: Option<string>, d: Disposition, e: Disposition)
    requires IsSubmitRun(a, prompt, token, response, d) && RunFollows(script, c, a, d)
    requires IsSubmitRun(b, prompt, token, response, e) && RunFollows(script, c, b, e)
    ensures a == b && d == e
  {
    hide Follows, AreTwoWrites, AttemptsFollow, AreAttempts, IsConclusion, VerdictFollows;
    PartsFollow(script, c, a, d);
    PartsFollow(script, c, b, e);
    TwoWritesDetermined(script, c, a.prepare, b.prepare, PROMPT_FILE, prompt, TOKEN_FILE, token + "\n");
    if IsSubmittingParts(a, response, d) {
      TwoWritesDetermined(script, c + |a.prepare|, a.store, b.store, RESPONSE_FILE, response.value, STATUS_FILE, STATUS_PENDING + "\n");
      AttemptsDetermined(script, c + |a.prepare| + |a.store|, a, b, response.value);
      assert a.Last() == b.Last() && AfterAttempts(a, c) == AfterAttempts(b, c);
      LastIsAttempt(a, response.value, d);
      VerdictDetermined(script, AfterAttempts(a, c), a.Last(), a.verdict, b.verdict, d, e);
    } else {
      NotAsked(script, c, a, d);
      NotAsked(script, c, b, e);
    }
  }

  predicate IsSubmittingParts(run: Run, response: Option<string>, d: Disposition) {
    response.Some? && IsSubmitting(run, response.value, d)
  }

  lemma LastIsAttempt(run: Run, body: string, d: Disposition)
    requires IsSubmitting(run, body, d)
    ensures run.Last() != [] && run.Last()[0].Posted? && run.Last()[0].body == body
  {
  }

  lemma PartsFollow(script: Script, c: nat, run: Run, d: Disposition)
    requires RunFollows(script, c, run, d)
    ensures Follows(script, c, run.prepare) && Follows(script, c + |run.prepare|, run.store)
    ensures AttemptsFollow(script, c + |run.prepare| + |run.store|, run)
    ensures VerdictFollows(script, AfterAttempts(run, c), run.Last(), run.verdict, d)
  {
  }

  lemma NotAsked(script: Script, c: nat, run: Run, d: Disposition)
    requires Unsubmitted(run) && RunFollows(script, c, run, d)
    ensures !run.reopenOk && !run.refreshOk
  {
    hide Follows;
  }

  // ----- the disposition is the outside's word

  /** The reply to a POST is a success, as its own number. */
  predicate IsSuccessReply(r: Reply) {
    r.Replied? && 200 <= r.status <= 299
  }

  /** How a run ends, by what happened to its first two writes, to the computing, to its
      last POST and to the poll. */
  lemma DispositionIs(script: Script, c: nat, run: Run, prompt: string, token: string, response: Option<string>, d: Disposition)
    requires IsSubmitRun(run, prompt, token, response, d) && RunFollows(script, c, run, d)
    ensures d == PersistError <==> exists s :: s in run.prepare && !s.Wrote?
    ensures d == DispatchError <==> response.None? && forall s :: s in run.prepare ==> s.Wrote?
    ensures !d.PersistError? && !d.DispatchError? ==>
      && run.Last() != [] && run.Last()[0].Posted?
      && var reply := run.Last()[0].reply;
         d == if IsSuccessReply(reply) then
                match script.polls(AfterAttempts(run, c)) { case Some(v) => Verdict(v) case None => PollError }
              else if reply.Replied? then SubmitHttp(reply.status) else SubmitError
  {
    hide Follows, AttemptsFollow, AreAttempts;
    PrepareOutcome(run.prepare, PROMPT_FILE, prompt, TOKEN_FILE, token + "\n");
    if run.store != [] { LastIsAttempt(run, response.value, d); }
  }

  lemma PrepareOutcome(t: seq<Step>, name0: string, data0: string, name1: string, data1: string)
    requires AreTwoWrites(t, name0, data0, name1, data1)
    ensures t != [] && (t[|t| - 1].Wrote? <==> forall s :: s in t ==> s.Wrote?)
  {
    assert forall s :: s in t ==> s == t[0] || (|t| == 2 && s == t[1]);
    assert t[|t| - 1] in t;
  }

  /** Which POSTs are made: one more exactly when the first met a dead socket and the
      connection was reopened, one more exactly when the last reply was 401 or 403 and the
      token was refreshed; each reply is the script's. */
  lemma RetriesIff(script: Script, c: nat, run: Run, prompt: string, token: string, response: Option<string>, d: Disposition)
    requires IsSubmitRun(run, prompt, token, response, d) && RunFollows(script, c, run, d) && run.store != []
    ensures var t0 := c + |run.prepare| + |run.store|; var r0 := script.replies(t0);
      var again := r0 == Lost(true) && script.answers(t0 + 1);
      && run.first != [] && run.first[0].Posted? && run.first[0].reply == r0
      && (run.reconnected != [] <==> again)
      && (again ==> run.reconnected[0].Posted? && run.reconnected[0].reply == script.replies(t0 + 2))
    ensures var last := if run.reconnected != [] then run.reconnected[0] else run.first[0];
      var rejected := last.Posted? && (last.reply == Replied(401) || last.reply == Replied(403));
      var asked := AfterReconnected(run, c);
      && (run.reauthorized != [] <==> rejected && script.answers(asked))
      && (run.reauthorized != [] ==> run.reauthorized[0].Posted? && run.reauthorized[0].reply == script.replies(asked + 1))
  {
    hide VerdictFollows, IsConclusion, AreTwoWrites, Follows;
    var t0 := c + |run.prepare| + |run.store|;
    FollowsAt(script, t0, run.first, 0);
    if run.reconnected != [] { FollowsAt(script, t0 + |run.first| + 1, run.reconnected, 0); }
    if run.reauthorized != [] { FollowsAt(script, AfterReconnected(run, c) + 1, run.reauthorized, 0); }
  }

  // ----- the directory holds it

  lemma LastStep(files: Files, steps: seq<Step>, name: string, data: string)
    requires steps != [] && IsWrite(steps[|steps| - 1], name, data) && steps[|steps| - 1].Wrote?
    ensures Content(After(files, steps), name) == Some(data)
  {
  }

  /** The last step of an accepted run writes the word it ended with: the verdict, or the
      submitted mark when the poll brought none. */
  lemma RecordedStatus(files: Files, run: Run, prompt: string, token: string, response: Option<string>, d: Disposition)
    requires IsSubmitRun(run, prompt, token, response, d) && (d.Verdict? || d.PollError?)
    ensures var steps := run.Steps(); var word := if d.Verdict? then d.text else "SUBMITTED";
      && steps != [] && IsWrite(steps[|steps| - 1], "submit-status.txt", word + "\n")
      && (steps[|steps| - 1].Wrote? ==> Content(After(files, steps), "submit-status.txt") == Some(word + "\n"))
  {
    hide After, AreAttempts, AreTwoWrites;
    LastOfRun(run, response.value, d);
    var steps := run.Steps();
    if steps[|steps| - 1].Wrote? { LastStep(files, steps, STATUS_FILE, steps[|steps| - 1].data); }
  }

  lemma LastOfRun(run: Run, body: string, d: Disposition)
    requires IsSubmitting(run, body, d) && (d.Verdict? || d.PollError?)
    ensures var steps := run.Steps();
      steps != [] && IsWrite(steps[|steps| - 1], STATUS_FILE, if d.Verdict? then d.text + "\n" else "SUBMITTED" + "\n")
  {
    var steps, last := run.Steps(), run.Last();
    if d.PollError? {
      assert |last| == 2 && run.verdict == [];
      assert steps[|steps| - 1] == last[1];
    } else {
      assert steps[|steps| - 1] == run.verdict[0];
    }
  }

  lemma ReplayRecordedStatus(files: Files, run: Replay, loginOk: bool, d: Option<Disposition>)
    requires IsReplay(run, files, loginOk, d) && d.Some? && (d.value.Verdict? || d.value.PollError?)
    ensures var steps := run.Steps(); var word := if d.value.Verdict? then d.value.text else "SUBMITTED";
      && steps != [] && IsWrite(steps[|steps| - 1], "submit-status.txt", word + "\n")
      && (steps[|steps| - 1].Wrote? ==> Content(After(files, steps), "submit-status.txt") == Some(word + "\n"))
  {
    hide After;
    var steps := run.Steps();
    if d.value.Verdict? {
      assert steps[|steps| - 1] == run.verdict[0];
    } else {
      assert steps[|steps| - 1] == run.attempt[1];
    }
    if steps[|steps| - 1].Wrote? { LastStep(files, steps, STATUS_FILE, steps[|steps| - 1].data); }
  }

  /** A replay ends like a run: by the reply to its one POST and the answer to its poll. */
  lemma ReplayDispositionIs(script: Script, c: nat, files: Files, run: Replay, loginOk: bool, d: Option<Disposition>)
    requires IsReplay(run, files, loginOk, d) && ReplayFollows(script, c, run, RESPONSE_FILE in files, loginOk, d)
    ensures d.Some? <==> "response.json" in files && script.answers(c)
    ensures d.Some? ==>
      var reply := script.replies(c + 1);
      && run.attempt != [] && run.attempt[0] == Posted(files["response.json"], reply)
      && d.value == if IsSuccessReply(reply) then
                      match script.polls(c + 3) { case Some(v) => Verdict(v) case None => PollError }
                    else if reply.Replied? then SubmitHttp(reply.status) else SubmitError
  {
    hide Follows;
    if d.Some? { FollowsAt(script, c + 1, run.attempt, 0); }
  }

  /** The prompt and the token that the run was given stay in the directory, when they
      were written; nothing else is written before they are. */
  lemma PromptAndTokenKept(files: Files, run: Run, prompt: string, token: string, response: Option<string>, d: Disposition)
    requires IsSubmitRun(run, prompt, token, response, d)
    ensures run.prepare != [] && IsWrite(run.prepare[0], "prompt.json", prompt)
    ensures run.prepare[0].Wrote? ==> Content(After(files, run.Steps()), "prompt.json") == Some(prompt)
    ensures run.prepare[0].Wrote? ==> |run.prepare| == 2 && IsWrite(run.prepare[1], "token.txt", token + "\n")
    ensures run.prepare[0].Wrote? && run.prepare[1].Wrote? ==> Content(After(files, run.Steps()), "token.txt") == Some(token + "\n")
    ensures d == PersistError ==> run.Steps() == run.prepare
  {
    hide After, IsSubmitting;
    var rest := if run.store == [] then [] else [run.store[0]] + Tail(run);
    if run.store != [] { RunSplit(run); } else { PrepareLeaves(run, prompt, token, response, d); }
    assert run.Steps() == run.prepare + rest;
    RestLeaves(run, prompt, token, response, d);
    AfterConcat(files, run.prepare, rest);
    KeepsFile(After(files, run.prepare), rest, "prompt.json");
    KeepsFile(After(files, run.prepare), rest, "token.txt");
    if d == PersistError { PersistErrorStops(run, prompt, token, response); }
    if |run.prepare| == 2 {
      AfterTwo(files, run.prepare[0], run.prepare[1]);
      assert run.prepare == [run.prepare[0], run.prepare[1]];
    }
  }

  lemma PersistErrorStops(run: Run, prompt: string, token: string, response: Option<string>)
    requires IsSubmitRun(run, prompt, token, response, PersistError)
    ensures run.Steps() == run.prepare
  {
  }

  lemma RestLeaves(run: Run, prompt: string, token: string, response: Option<string>, d: Disposition)
    requires IsSubmitRun(run, prompt, token, response, d)
    ensures var rest := if run.store == [] then [] else [run.store[0]] + Tail(run);
      LeavesFile(rest, "prompt.json") && LeavesFile(rest, "token.txt")
  {
    hide IsSubmitting, Accepted;
    PrepareLeaves(run, prompt, token, response, d);
    if run.store != [] {
      StoreTail(run, response.value, d);
      TailIsTail(run, response.value, d);
      var tail := Tail(run);
      forall k | 0 <= k < |tail| ensures tail[k].Posted? || tail[k].name == STATUS_FILE {
        assert IsTailStep(tail[..k], tail[k], response.value);
      }
    }
  }

  /** The computed text stays in the directory byte for byte when it was written, and the
      pending mark is the next write. */
  lemma ResponseKept(files: Files, run: Run, prompt: string, token: string, response: Option<string>, d: Disposition)
    requires IsSubmitRun(run, prompt, token, response, d) && run.store != []
    ensures response.Some? && IsWrite(run.store[0], "response.json", response.value)
    ensures run.store[0].Wrote? ==> |run.store| == 2 && IsWrite(run.store[1], "submit-status.txt", "PENDING\n")
    ensures run.store[0].Wrote? ==> Content(After(files, run.Steps()), "response.json") == response
  {
    hide After, IsConclusion, AreAttempts, Accepted;
    PrepareLeaves(run, prompt, token, response, d);
    var body := response.value;
    RunSplit(run);
    TailIsTail(run, body, d);
    var tail, front := Tail(run), run.prepare + [run.store[0]];
    forall k | 0 <= k < |tail| ensures tail[k].Posted? || tail[k].name != "response.json" {
      assert IsTailStep(tail[..k], tail[k], body);
    }
    assert run.Steps() == front + tail;
    AfterConcat(files, front, tail);
    KeepsFile(After(files, front), tail, "response.json");
    if run.store[0].Wrote? { LastStep(files, front, "response.json", body); }
    assert STATUS_PENDING + "\n" == "PENDING\n";
  }

  // ----- the demo run

  /** What the names of harness errors start with. */
  const HARNESS_ERRORS: seq<string> :=
    ["DISPATCH_ERROR", "FETCH_ERROR", "PARSE_ERROR", "PERSIST_ERROR", "SUBMIT_", "RETRY_TIMEOUT", "POLL_ERROR", "HTTP_"]

  /** The text is no harness error: it can only be a server's word. */
  predicate IsServerWord(text: string) {
    forall k :: 0 <= k < 8 ==> !(HARNESS_ERRORS[k] <= text)
  }

  lemma ErrorTextIff(text: string)
    ensures IsErrorText(text) <==> !IsServerWord(text)
  {
    var h := HARNESS_ERRORS;
    assert h[0] == "DISPATCH_ERROR" && h[1] == "FETCH_ERROR" && h[2] == "PARSE_ERROR" && h[3] == "PERSIST_ERROR";
    assert h[4] == "SUBMIT_" && h[5] == "RETRY_TIMEOUT" && h[6] == "POLL_ERROR" && h[7] == "HTTP_";
  }

  /** A replay recovers a vector set exactly when it ends with a server's word and its
      transcript is written. */
  lemma RecoveredIff(c: Recovery)
    ensures c.Recovered() <==> c.transcriptOk && c.again.Some? && c.again.value.Verdict? && IsServerWord(c.again.value.text)
  {
    hide IsErrorText, IsServerWord;
    if c.again.Some? {
      var d := c.again.value;
      ErrorTextIff(DispositionText(d));
      if !d.Verdict? { ErrorIsShown(d); }
    }
  }

  /** What the disposition reads, for those that are no verdict. */
  lemma ShownAs(status: nat, digits: string)
    requires Spells(digits, status) && (|digits| > 1 ==> digits[0] != '0')
    ensures DispositionText(PersistError) == "PERSIST_ERROR" && DispositionText(DispatchError) == "DISPATCH_ERROR"
    ensures DispositionText(SubmitError) == "SUBMIT_ERROR" && DispositionText(PollError) == "POLL_ERROR"
    ensures DispositionText(SubmitHttp(status)) == "SUBMIT_HTTP_" + digits
  {
    hide Spells;
    NatTextIff(status, digits);
  }

  lemma ErrorIsShown(d: Disposition)
    requires !d.Verdict?
    ensures !IsServerWord(DispositionText(d))
  {
    var h := HARNESS_ERRORS;
    assert h[0] == "DISPATCH_ERROR" && h[3] == "PERSIST_ERROR" && h[4] == "SUBMIT_" && h[6] == "POLL_ERROR";
    if d.SubmitHttp? { assert "SUBMIT_" <= DispositionText(d); }
    if d.SubmitError? { assert "SUBMIT_" <= "SUBMIT_ERROR"; }
  }

  /** The replay goes to the end that its own disposition and transcript say. */
  predicate ReplayRecovered(c: Recovery) {
    && (c.first == SubmitError || c.first == Verdict("SUBMIT_ERROR"))
    && c.transcriptOk && c.again.Some? && c.again.value.Verdict? && IsServerWord(c.again.value.text)
  }

  /** What a demo run reports for a vector set: what its first run ended with, or, once
      the replay recovered it, the server's word as the status file shows it. */
  lemma RecoveryOutcome(c: Recovery, files: Files, prompt: string, token: string, response: Option<string>, d: Disposition)
    requires IsRecovery(c, files, prompt, token, response, d)
    ensures !ReplayRecovered(c) ==> d == c.first
    ensures ReplayRecovered(c) ==>
      && d.Verdict? && c.replay.verdict != []
      && (c.replay.verdict[|c.replay.verdict| - 1].Wrote? ==> d.text == Trim(c.again.value.text + "\n"))
    ensures c.first != SubmitError && c.first != Verdict("SUBMIT_ERROR") ==> c.replay.Steps() == []
  {
    hide After, IsSubmitRun, IsReplay, IsErrorText, DispositionText, Trim, IsServerWord;
    ReplayStartsIff(c.first);
    RecoveredIff(c);
    if ReplayRecovered(c) { ShownIsRecorded(c, files, c.again.value.text); }
  }

  lemma ShownIsRecorded(c: Recovery, files: Files, v: string)
    requires IsReplay(c.replay, After(files, c.run.Steps()), c.loginOk, Some(Verdict(v)))
    ensures var last := c.replay.verdict;
      last != [] && (last[|last| - 1].Wrote? ==> StatusShown(After(files, c.Steps())) == Trim(v + "\n"))
  {
    hide After, Trim;
    var between := After(files, c.run.Steps());
    ReplayRecordedStatus(between, c.replay, c.loginOk, Some(Verdict(v)));
    AfterConcat(files, c.run.Steps(), c.replay.Steps());
    var steps := c.replay.Steps();
    assert steps[|steps| - 1] == c.replay.verdict[|c.replay.verdict| - 1];
  }
}
