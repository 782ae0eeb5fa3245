/** Where submission safety stops: which directories, response writes and crashes lose
    it, each with its exact condition and an input that falls outside. */
module SubmissionLimits {
  import opened Prelude
  import opened Text
  import opened Submission
  import opened SubmissionSafety

  lemma SubmittedIsNotPending()
    ensures Trim(STATUS_SUBMITTED + "\n") == STATUS_SUBMITTED && !(STATUS_SUBMITTED <= STATUS_PENDING)
  {
    assert forall k :: 0 <= k < |STATUS_SUBMITTED| ==> 'A' <= STATUS_SUBMITTED[k] <= 'Z';
    hide Trim, IsWhitespace;
    CapitalsArePlain(STATUS_SUBMITTED);
    TrimNewline(STATUS_SUBMITTED);
    assert STATUS_SUBMITTED[0] == 'S' && STATUS_PENDING[0] == 'P';
  }

  lemma AfterSnoc(files: Files, steps: seq<Step>, s: Step)
    ensures After(files, steps + [s]) == Apply(After(files, steps), s)
  {
    assert (steps + [s])[..|steps|] == steps;
  }

  lemma AfterThree(files: Files, a: Step, b: Step, c: Step)
    ensures After(files, [a, b, c]) == Apply(Apply(Apply(files, a), b), c)
  {
    AfterTwo(files, a, b);
    AfterSnoc(files, [a, b], c);
    assert [a, b] + [c] == [a, b, c];
  }

  // ----- the response write failed

  lemma MarkReveals(s: Step)
    requires IsWrite(s, STATUS_FILE, STATUS_SUBMITTED + "\n") && s.Wrote?
    ensures Reveals(s)
  {
    hide Trim;
    SubmittedIsNotPending();
    assert Leaves(s, STATUS_SUBMITTED + "\n");
  }

  /** Only the writes behind an accepted POST can reveal a status. */
  lemma NothingRevealedIff(run: Run, prompt: string, token: string, response: Option<string>, d: Disposition)
    requires IsSubmitRun(run, prompt, token, response, d) && run.store != []
    ensures NothingRevealed(run.Steps()) <==>
      !AttemptAccepted(run.Last()) || (!Reveals(run.Last()[1]) && (run.verdict == [] || !Reveals(run.verdict[0])))
  {
    hide Reveals, NothingRevealed, IsSubmitting;
    PrepareLeaves(run, prompt, token, response, d);
    Unrevealing(run.prepare);
    QuietStore(run, response.value, d);
    EarlierAttempts(run, response.value, d);
    var a := run.prepare + run.store;
    RevealsConcat(run.prepare, run.store);
    RevealsConcat(a, run.first);
    RevealsConcat(a + run.first, run.reconnected);
    RevealsConcat(a + run.first + run.reconnected, run.reauthorized);
    RevealsConcat(a + run.first + run.reconnected + run.reauthorized, run.verdict);
  }

  lemma Unrevealing(t: seq<Step>)
    requires LeavesFile(t, STATUS_FILE)
    ensures NothingRevealed(t)
  {
    hide Reveals;
    forall k | 0 <= k < |t| ensures !Reveals(t[k]) {
      OtherFile(t[k]);
    }
  }

  lemma QuietStore(run: Run, body: string, d: Disposition)
    requires IsSubmitting(run, body, d)
    ensures NothingRevealed(run.store)
  {
    hide Reveals, AreAttempts, IsConclusion;
    OtherFile(run.store[0]);
    if |run.store| == 2 { PendingReveals(run.store[1]); }
  }

  lemma OtherFile(s: Step)
    requires s.Posted? || s.name != STATUS_FILE
    ensures !Reveals(s)
  {
  }

  lemma AttemptReveals(t: seq<Step>, body: string)
    requires t == [] || IsAttempt(t, body)
    ensures NothingRevealed(t) <==> !AttemptAccepted(t) || !Reveals(t[1])
  {
    hide Reveals;
    if t != [] { OtherFile(t[0]); }
  }

  /** Only the last attempt can have been accepted, and only then is there a verdict. */
  lemma EarlierAttempts(run: Run, body: string, d: Disposition)
    requires IsSubmitting(run, body, d)
    ensures NothingRevealed(run.first) && NothingRevealed(run.reconnected) && NothingRevealed(run.reauthorized) <==>
      !AttemptAccepted(run.Last()) || !Reveals(run.Last()[1])
    ensures !AttemptAccepted(run.Last()) ==> NothingRevealed(run.verdict)
    ensures AttemptAccepted(run.Last()) ==> (NothingRevealed(run.verdict) <==> run.verdict == [] || !Reveals(run.verdict[0]))
  {
    hide Reveals;
    AttemptReveals(run.first, body);
    AttemptReveals(run.reconnected, body);
    AttemptReveals(run.reauthorized, body);
  }

  lemma RevealsConcat(a: seq<Step>, b: seq<Step>)
    ensures NothingRevealed(a + b) <==> NothingRevealed(a) && NothingRevealed(b)
  {
    hide Reveals;
    if NothingRevealed(a + b) {
      assert forall k :: 0 <= k < |a| ==> (a + b)[k] == a[k];
      assert forall k :: 0 <= k < |b| ==> (a + b)[|a| + k] == b[k];
    }
  }

  /** In a directory that looks pending, a run whose `SUBMITTED` mark is written is safe
      at every crash if and only if no POST was accepted or the text left in the cache
      is the computed one or one accepted before. */
  lemma PendingRunSafeIff(files: Files, past: seq<Step>, run: Run, prompt: string, token: string, response: Option<string>, d: Disposition)
    requires IsSubmitRun(run, prompt, token, response, d) && run.store != [] && LooksPending(files)
    requires AttemptAccepted(run.Last()) ==> run.Last()[1].Wrote?
    ensures response.Some?
    ensures EverySafe(files, past, run.Steps()) <==>
      !AttemptAccepted(run.Last()) || Backed(CacheLeft(files, run.store[0]), past, response.value)
  {
    hide EverySafe, Reveals, IsSubmitting, Accepted, LooksPending, Leaves;
    PrepareLeaves(run, prompt, token, response, d);
    NothingRevealedIff(run, prompt, token, response, d);
    LastAttempt(run, response.value, d);
    if AttemptAccepted(run.Last()) { MarkReveals(run.Last()[1]); }
    SubmitRunSafeIff(files, past, run, prompt, token, response, d);
  }

  /** The response could not be written: the run goes on, and an accepted POST leaves
      `SUBMITTED` in a directory without a cached response. */
  lemma UnstoredResponseIsUnsafe(body: string)
    ensures exists run, d ::
      IsSubmitRun(run, "{}", "jwt", Some(body), d) && !ResponseStored(run) && !Safe(After(map[], run.Steps()), run.Steps())
  {
    hide Trim;
    var prepare := [Wrote(PROMPT_FILE, "{}"), Wrote(TOKEN_FILE, "jwt" + "\n")];
    var refused, accepted, mark := Denied(RESPONSE_FILE, body), Posted(body, Replied(200)), Wrote(STATUS_FILE, STATUS_SUBMITTED + "\n");
    var run := Run(prepare, [refused], [accepted, mark], [], [], [], false, false);
    assert IsSubmitRun(run, "{}", "jwt", Some(body), PollError);
    assert run.Steps() == prepare + [refused, accepted, mark];
    AfterTwo(map[], prepare[0], prepare[1]);
    AfterConcat(map[], prepare, [refused, accepted, mark]);
    AfterThree(After(map[], prepare), refused, accepted, mark);
    SubmittedIsNotPending();
  }

  // ----- the directory was used before

  /** With the response written and the empty text never accepted, every crash of a
      submission is safe if and only if the directory looked pending before it. */
  lemma StoredRunSafeIff(files: Files, past: seq<Step>, run: Run, prompt: string, token: string, response: Option<string>, d: Disposition)
    requires IsSubmitRun(run, prompt, token, response, d) && run.store != []
    requires ResponseStored(run) && !Accepted(past, "")
    ensures EverySafe(files, past, run.Steps()) <==> LooksPending(files)
  {
    hide EverySafe, IsSubmitting, IsSubmitRun, Accepted, LooksPending, NothingRevealed;
    PrepareLeaves(run, prompt, token, response, d);
    SubmitRunSafeIff(files, past, run, prompt, token, response, d);
    if LooksPending(files) {
      PendingIsEnough(files, past, run, prompt, token, response, d);
    } else {
      assert Leaves(run.store[0], "");
    }
  }

  /** A second run over an accepted submission that dies right after writing its own
      response leaves the old verdict beside a text the server never saw. */
  lemma ReusedDirectoryIsUnsafe(before: string, after: string)
    requires before != after
    ensures exists files, past, run, d, log ::
      && IsSubmitRun(run, "{}", "jwt", Some(after), d) && ResponseStored(run)
      && Safe(files, past) && IsCrashOf(log, run.Steps()) && !Safe(After(files, log), past + log)
  {
    hide Trim;
    var files := map[RESPONSE_FILE := before, STATUS_FILE := STATUS_SUBMITTED + "\n"];
    var past := [Posted(before, Replied(200))];
    assert past[0].Posted?;
    assert Safe(files, past);
    var prepare := [Wrote(PROMPT_FILE, "{}"), Wrote(TOKEN_FILE, "jwt" + "\n")];
    var stored := Wrote(RESPONSE_FILE, after);
    var run := Run(prepare, [stored, Wrote(STATUS_FILE, STATUS_PENDING + "\n")], [Posted(after, Lost(false))], [], [], [], false, false);
    assert IsSubmitRun(run, "{}", "jwt", Some(after), SubmitError);
    hide IsSubmitRun;
    var log := [prepare[0], prepare[1], stored];
    assert run.Steps()[..3] == log;
    assert IsCrashAt(log, run.Steps(), 3);
    AfterThree(files, prepare[0], prepare[1], stored);
    SubmittedIsNotPending();
    assert past + log == [past[0], prepare[0], prepare[1], stored];
    assert !Accepted(past + log, after);
    assert !Safe(After(files, log), past + log);
  }

  // ----- what a replay sends after a crash

  /** Whatever the server answers, a replay with a login sends `body`, once. */
  ghost predicate ReplaysSend(files: Files, body: string) {
    forall replay, again :: IsReplay(replay, files, true, again) ==> Posts(replay.Steps()) == 1 && PostsOnly(replay.Steps(), body)
  }

  lemma ReplaysSendIff(files: Files, body: string)
    ensures ReplaysSend(files, body) <==> Content(files, RESPONSE_FILE) == Some(body)
  {
    hide Posts;
    if Content(files, RESPONSE_FILE) == Some(body) {
      forall replay, again | IsReplay(replay, files, true, again)
        ensures Posts(replay.Steps()) == 1 && PostsOnly(replay.Steps(), body)
      {
        PostsConcat(replay.attempt, replay.verdict);
        PostsOfPart(replay.attempt);
        PostsOfPart(replay.verdict);
        PostsOnlyConcat(replay.attempt, replay.verdict, body);
      }
    } else if RESPONSE_FILE in files {
      var t := [Posted(files[RESPONSE_FILE], Lost(false))];
      assert IsReplay(Replay(t, []), files, true, Some(SubmitError));
      assert Replay(t, []).Steps()[0] == t[0];
    } else {
      assert IsReplay(Replay([], []), files, true, None);
      NoPosts();
    }
  }

  /** After a crash of a submission, replays send the computed text if and only if the
      process got past the response write and the write left all of it, or stopped
      before it in a directory that already held that text. */
  lemma CrashReplaysIff(files: Files, run: Run, prompt: string, token: string, response: Option<string>, d: Disposition, log: seq<Step>)
    requires IsSubmitRun(run, prompt, token, response, d) && run.store != [] && IsCrashOf(log, run.Steps())
    ensures response.Some?
    ensures var n := |run.prepare|;
      && (n < |log| ==> IsWrite(log[n], RESPONSE_FILE, response.value))
      && (ReplaysSend(After(files, log), response.value) <==>
          if |log| <= n || log[n].Denied? then Content(files, RESPONSE_FILE) == response
          else log[n].Wrote? || log[n].kept >= |response.value|)
  {
    hide IsSubmitRun, IsCrashOf, After, ReplaysSend, Leaves;
    CacheAfter(files, run, prompt, token, response, d, log);
    ReplaysSendIff(After(files, log), response.value);
    var n := |run.prepare|;
    if n < |log| && !log[n].Denied? { PutWhole(log[n]); }
  }

  lemma PutWhole(s: Step)
    requires s.Wrote? || s.CutShort?
    ensures Put(s) == s.data <==> s.Wrote? || s.kept >= |s.data|
  {
    if s.CutShort? && s.kept <= |s.data| {
      assert |s.data[..s.kept]| == s.kept;
      assert s.data[..|s.data|] == s.data;
    }
  }

  /** A death in the middle of writing the response leaves a shorter text, and a replay
      sends that text: safe as a record, but not what was computed. */
  lemma CutResponseIsReplayed(body: string, kept: nat)
    requires kept < |body|
    ensures exists run, d, log, replay, again ::
      && IsSubmitRun(run, "{}", "jwt", Some(body), d) && ResponseStored(run) && IsCrashOf(log, run.Steps())
      && IsReplay(replay, After(map[], log), true, again)
      && replay.Steps() != [] && replay.Steps()[0] == Posted(body[..kept], Replied(200))
  {
    var prepare := [Wrote(PROMPT_FILE, "{}"), Wrote(TOKEN_FILE, "jwt" + "\n")];
    var stored, cut := Wrote(RESPONSE_FILE, body), CutShort(RESPONSE_FILE, body, kept);
    var run := Run(prepare, [stored, Wrote(STATUS_FILE, STATUS_PENDING + "\n")], [Posted(body, Lost(false))], [], [], [], false, false);
    assert IsSubmitRun(run, "{}", "jwt", Some(body), SubmitError);
    var log := [prepare[0], prepare[1], cut];
    assert run.Steps()[..2] == log[..2];
    assert run.Steps()[2] == stored;
    assert IsCrashAt(log, run.Steps(), 2);
    AfterThree(map[], prepare[0], prepare[1], cut);
    var replay := Replay([Posted(body[..kept], Replied(200)), Wrote(STATUS_FILE, STATUS_SUBMITTED + "\n")], []);
    assert IsReplay(replay, After(map[], log), true, Some(PollError));
  }
}
