/** What submission keeps through failures and crashes: a directory never claims a
    submission that the server did not accept for exactly the cached text. */
module SubmissionSafety {
  import opened Prelude
  import opened Text
  import opened Submission

  /** The server accepted a POST of exactly this text. */
  predicate Accepted(steps: seq<Step>, body: string) {
    exists k :: 0 <= k < |steps| && steps[k].Posted? && steps[k].body == body && Is2xx(steps[k].reply)
  }

  /** The status is absent, `PENDING`, or what is left of `PENDING` after a write was cut. */
  predicate LooksPending(files: Files) {
    STATUS_FILE !in files || Trim(files[STATUS_FILE]) <= STATUS_PENDING
  }

  /** A status other than pending is backed by an accepted POST of the cached text. */
  predicate Safe(files: Files, steps: seq<Step>) {
    LooksPending(files) || (RESPONSE_FILE in files && Accepted(steps, files[RESPONSE_FILE]))
  }

  /** A write call that stopped after part of its text. */
  predicate IsTorn(s: Step, whole: Step) {
    whole.Wrote? && s.CutShort? && s.name == whole.name && s.data == whole.data
  }

  /** `log` is what a process did that ran `full` and died somewhere: before some step,
      or in the middle of a write. Not dying is the last case of the first kind. */
  ghost predicate IsCrashOf(log: seq<Step>, full: seq<Step>) {
    exists k :: 0 <= k <= |full| && IsCrashAt(log, full, k)
  }

  predicate IsCrashAt(log: seq<Step>, full: seq<Step>, k: nat)
    requires k <= |full|
  {
    || log == full[..k]
    || (k < |full| && |log| == k + 1 && log[..k] == full[..k] && IsTorn(log[k], full[k]))
  }

  // ----- steps that keep safety

  /** A text that the step, or the step cut short, can leave in its file. */
  predicate Leaves(s: Step, text: string) {
    match s
    case Wrote(_, data) => text <= data
    case CutShort(_, data, kept) => text == if kept <= |data| then data[..kept] else data
    case Denied(_, _) => false
    case Posted(_, _) => false
  }

  /** A status write that can leave something other than a part of `PENDING`. */
  ghost predicate Reveals(s: Step) {
    !s.Posted? && s.name == STATUS_FILE && exists text :: Leaves(s, text) && !(Trim(text) <= STATUS_PENDING)
  }

  /** Every text that the step can leave was accepted before. */
  ghost predicate LeavesAccepted(s: Step, past: seq<Step>) {
    forall text :: Leaves(s, text) ==> Accepted(past, text)
  }

  ghost predicate Allowed(files: Files, steps: seq<Step>, s: Step) {
    s.Posted? || s.Denied?
    || (s.name != RESPONSE_FILE && s.name != STATUS_FILE)
    || (s.name == RESPONSE_FILE && (LooksPending(files) || LeavesAccepted(s, steps)))
    || (s.name == STATUS_FILE && (!Reveals(s) || (RESPONSE_FILE in files && Accepted(steps, files[RESPONSE_FILE]))))
  }

  lemma AcceptedGrows(steps: seq<Step>, more: seq<Step>, body: string)
    requires Accepted(steps, body)
    ensures Accepted(steps + more, body)
  {
    var k :| 0 <= k < |steps| && steps[k].Posted? && steps[k].body == body && Is2xx(steps[k].reply);
    assert (steps + more)[k] == steps[k];
  }

  lemma TrimPlain(t: string)
    requires forall k :: 0 <= k < |t| ==> !IsWhitespace(t[k])
    ensures Trim(t) == t
  {
    hide IsWhitespace;
    assert TrimStart(t) == t && TrimEnd(t) == t;
  }

  lemma TrimNewline(t: string)
    requires t != [] && forall k :: 0 <= k < |t| ==> !IsWhitespace(t[k])
    ensures Trim(t + "\n") == t
  {
    assert IsWhitespace('\n');
    var u := t + "\n";
    assert u[0] == t[0] && u[|u| - 1] == '\n' && u[..|u| - 1] == t;
    hide IsWhitespace;
    assert TrimStart(u) == u;
    assert TrimEnd(t) == t;
    assert TrimEnd(u) == TrimEnd(u[..|u| - 1]);
  }

  lemma CapitalsArePlain(t: string)
    requires forall k :: 0 <= k < |t| ==> 'A' <= t[k] <= 'Z'
    ensures forall k :: 0 <= k < |t| ==> !IsWhitespace(t[k])
  {
  }

  /** However a write of the pending mark is cut, what is left still looks pending. */
  lemma CutPending(kept: nat)
    ensures var mark := STATUS_PENDING + "\n";
      Trim(if kept <= |mark| then mark[..kept] else mark) <= STATUS_PENDING
  {
    hide IsWhitespace, Trim;
    assert forall k :: 0 <= k < |STATUS_PENDING| ==> 'A' <= STATUS_PENDING[k] <= 'Z';
    CutMark(STATUS_PENDING, kept);
  }

  lemma CutMark(word: string, kept: nat)
    requires word != [] && forall k :: 0 <= k < |word| ==> 'A' <= word[k] <= 'Z'
    ensures var mark := word + "\n";
      Trim(if kept <= |mark| then mark[..kept] else mark) <= word
  {
    hide IsWhitespace, Trim;
    var mark := word + "\n";
    if kept <= |word| {
      CapitalsArePlain(word[..kept]);
      TrimPlain(word[..kept]);
      assert mark[..kept] == word[..kept];
    } else {
      CapitalsArePlain(word);
      TrimNewline(word);
      assert mark[..|mark|] == mark;
    }
  }

  lemma PendingReveals(s: Step)
    requires IsWrite(s, STATUS_FILE, STATUS_PENDING + "\n")
    ensures !Reveals(s)
  {
    hide Trim;
    forall text | Leaves(s, text) ensures Trim(text) <= STATUS_PENDING {
      CutPending(|text|);
      assert text == s.data[..|text|];
    }
  }

  /** What a write that was not refused puts into its file. */
  function Put(s: Step): (text: string)
    requires s.Wrote? || s.CutShort?
    ensures Leaves(s, text)
  {
    if s.CutShort? && s.kept <= |s.data| then s.data[..s.kept] else s.data
  }

  lemma StepKeepsSafe(files: Files, steps: seq<Step>, s: Step)
    requires Safe(files, steps) && Allowed(files, steps, s)
    ensures Safe(Apply(files, s), steps + [s])
  {
    hide Trim, Accepted;
    if RESPONSE_FILE in files && Accepted(steps, files[RESPONSE_FILE]) {
      AcceptedGrows(steps, [s], files[RESPONSE_FILE]);
    }
    if s.Wrote? || s.CutShort? {
      assert Apply(files, s) == files[s.name := Put(s)];
      if s.name == RESPONSE_FILE && !LooksPending(files) {
        AcceptedGrows(steps, [s], Put(s));
      }
    }
  }

  /** A cut write can leave no more than the whole one. */
  lemma TornAllowed(files: Files, steps: seq<Step>, s: Step, whole: Step)
    requires IsTorn(s, whole) && Allowed(files, steps, whole)
    ensures Allowed(files, steps, s)
  {
    hide Trim, Accepted;
    assert forall text :: Leaves(s, text) ==> Leaves(whole, text);
  }

  /** Every step of the log is allowed where it stands. */
  ghost predicate AllAllowed(files: Files, past: seq<Step>, log: seq<Step>) {
    log == [] ||
    var init := log[..|log| - 1];
    AllAllowed(files, past, init) && Allowed(After(files, init), past + init, log[|log| - 1])
  }

  lemma {:induction false} LogKeepsSafe(files: Files, past: seq<Step>, log: seq<Step>)
    requires Safe(files, past) && AllAllowed(files, past, log)
    ensures Safe(After(files, log), past + log)
  {
    hide Safe, Allowed;
    if log == [] {
      assert past + log == past;
    } else {
      var init, last := log[..|log| - 1], log[|log| - 1];
      LogKeepsSafe(files, past, init);
      StepKeepsSafe(After(files, init), past + init, last);
      assert past + log == past + init + [last];
    }
  }

  lemma {:induction false} AllowedPrefix(files: Files, past: seq<Step>, log: seq<Step>, k: nat)
    requires k <= |log| && AllAllowed(files, past, log)
    ensures AllAllowed(files, past, log[..k])
  {
    if k == |log| {
      assert log[..k] == log;
    } else {
      assert log[..|log| - 1][..k] == log[..k];
      AllowedPrefix(files, past, log[..|log| - 1], k);
    }
  }

  /** If a whole log is allowed, so is what any crash leaves of it. */
  lemma CrashIsAllowed(files: Files, past: seq<Step>, log: seq<Step>, full: seq<Step>)
    requires AllAllowed(files, past, full) && IsCrashOf(log, full)
    ensures AllAllowed(files, past, log)
  {
    hide Accepted, Allowed;
    var k :| 0 <= k <= |full| && IsCrashAt(log, full, k);
    AllowedPrefix(files, past, full, k);
    if log != full[..k] {
      AllowedPrefix(files, past, full, k + 1);
      assert full[..k + 1][..k] == full[..k];
      assert log[..|log| - 1] == full[..k];
      TornAllowed(After(files, full[..k]), past + full[..k], log[k], full[k]);
    }
  }

  lemma {:induction false} AllowedConcat(files: Files, past: seq<Step>, a: seq<Step>, b: seq<Step>)
    requires AllAllowed(files, past, a) && AllAllowed(After(files, a), past + a, b)
    ensures AllAllowed(files, past, a + b)
  {
    hide Allowed, After;
    if b == [] {
      assert a + b == a;
    } else {
      var init := b[..|b| - 1];
      AllowedConcat(files, past, a, init);
      assert (a + b)[..|a + b| - 1] == a + init;
      AfterConcat(files, a, init);
      assert past + a + init == past + (a + init);
    }
  }

  lemma OneAllowed(files: Files, past: seq<Step>, s: Step)
    requires Allowed(files, past, s)
    ensures AllAllowed(files, past, [s])
  {
    hide Allowed;
    assert [s][..0] == [] && past + [] == past;
    assert AllAllowed(files, past, []);
  }

  // ----- one file through a log

  function Content(files: Files, name: string): Option<string> {
    if name in files then Some(files[name]) else None
  }

  predicate LeavesFile(log: seq<Step>, name: string) {
    forall k :: 0 <= k < |log| ==> log[k].Posted? || log[k].name != name
  }

  lemma {:induction false} KeepsFile(files: Files, log: seq<Step>, name: string)
    requires LeavesFile(log, name)
    ensures Content(After(files, log), name) == Content(files, name)
  {
    if log != [] {
      var init := log[..|log| - 1];
      forall k | 0 <= k < |init| ensures init[k].Posted? || init[k].name != name {
        assert init[k] == log[k];
      }
      KeepsFile(files, init, name);
    }
  }

  /** The call of a crash log's step is the call of the whole run's step. */
  predicate SameCall(s: Step, whole: Step) {
    s == whole || IsTorn(s, whole)
  }

  lemma CrashCalls(log: seq<Step>, full: seq<Step>)
    requires IsCrashOf(log, full)
    ensures |log| <= |full| && forall k :: 0 <= k < |log| ==> SameCall(log[k], full[k])
  {
    var n :| 0 <= n <= |full| && IsCrashAt(log, full, n);
    forall k | 0 <= k < |log| ensures SameCall(log[k], full[k]) {
      if k < n { assert log[k] == log[..n][k] == full[k]; }
    }
  }

  predicate PostsOnly(log: seq<Step>, body: string) {
    forall k :: 0 <= k < |log| && log[k].Posted? ==> log[k].body == body
  }

  lemma AcceptedIn(past: seq<Step>, log: seq<Step>, body: string)
    requires Accepted(past + log, body)
    ensures Accepted(past, body) || Accepted(log, body)
  {
    var k :| 0 <= k < |past + log| && (past + log)[k].Posted? && (past + log)[k].body == body && Is2xx((past + log)[k].reply);
    if k < |past| {
      assert past[k] == (past + log)[k];
    } else {
      assert log[k - |past|] == (past + log)[k];
    }
  }

  lemma AcceptedLater(past: seq<Step>, log: seq<Step>, body: string)
    requires Accepted(log, body)
    ensures Accepted(past + log, body)
  {
    var k :| 0 <= k < |log| && log[k].Posted? && log[k].body == body && Is2xx(log[k].reply);
    assert (past + log)[|past| + k] == log[k];
  }

  /** The cached text is `body`, or was accepted before. */
  predicate Backed(cache: Option<string>, past: seq<Step>, body: string) {
    cache.Some? && (cache.value == body || Accepted(past, cache.value))
  }

  /** The cached text behind the response write `s`. */
  function CacheLeft(files: Files, s: Step): Option<string> {
    if s.Wrote? || s.CutShort? then Some(Put(s)) else Content(files, RESPONSE_FILE)
  }

  // ----- what follows the writing of the response

  predicate IsTailStep(before: seq<Step>, s: Step, body: string) {
    if s.Posted? then s.body == body
    else s.name == STATUS_FILE && (s.data == STATUS_PENDING + "\n" || Accepted(before, body))
  }

  /** POSTs of `body` and status writes, each the pending mark or behind an accepted POST. */
  predicate IsTail(tail: seq<Step>, body: string) {
    forall k :: 0 <= k < |tail| ==> IsTailStep(tail[..k], tail[k], body)
  }

  lemma TailConcat(a: seq<Step>, b: seq<Step>, body: string)
    requires IsTail(a, body) && IsTail(b, body)
    ensures IsTail(a + b, body)
  {
    hide Accepted;
    forall k | 0 <= k < |a + b| ensures IsTailStep((a + b)[..k], (a + b)[k], body) {
      if k < |a| {
        assert (a + b)[..k] == a[..k];
      } else {
        assert (a + b)[..k] == a + b[..k - |a|];
        assert IsTailStep(b[..k - |a|], b[k - |a|], body);
        if Accepted(b[..k - |a|], body) { AcceptedLater(a, b[..k - |a|], body); }
      }
    }
  }

  lemma AttemptIsTail(t: seq<Step>, body: string)
    requires t == [] || IsAttempt(t, body)
    ensures IsTail(t, body)
    ensures AttemptAccepted(t) ==> Accepted(t, body)
  {
    if |t| == 2 {
      assert t[..1][0] == t[0];
    }
  }

  lemma WithVerdict(t: seq<Step>, last: seq<Step>, verdict: seq<Step>, d: Disposition, body: string)
    requires IsTail(t, body) && IsAttempt(last, body) && IsConclusion(last, verdict, d)
    requires AttemptAccepted(last) ==> Accepted(t, body)
    ensures IsTail(t + verdict, body)
  {
    hide Accepted;
    forall k | 0 <= k < |t + verdict| ensures IsTailStep((t + verdict)[..k], (t + verdict)[k], body) {
      if k < |t| {
        assert (t + verdict)[..k] == t[..k];
      } else {
        assert (t + verdict)[..k] == t;
      }
    }
  }

  lemma TailLeaves(tail: seq<Step>, body: string)
    requires IsTail(tail, body)
    ensures LeavesFile(tail, RESPONSE_FILE) && PostsOnly(tail, body)
  {
    hide Accepted;
    forall k | 0 <= k < |tail|
      ensures tail[k].Posted? || tail[k].name != RESPONSE_FILE
      ensures tail[k].Posted? ==> tail[k].body == body
    {
      assert IsTailStep(tail[..k], tail[k], body);
    }
  }

  ghost predicate NothingRevealed(log: seq<Step>) {
    forall k :: 0 <= k < |log| ==> !Reveals(log[k])
  }

  /** A tail is allowed on a backed text, or when its status writes reveal nothing. */
  lemma {:induction false} TailAllowed(files: Files, past: seq<Step>, tail: seq<Step>, body: string)
    requires IsTail(tail, body) && (NothingRevealed(tail) || Backed(Content(files, RESPONSE_FILE), past, body))
    ensures AllAllowed(files, past, tail)
  {
    hide Accepted, Reveals;
    if tail != [] {
      var init, last := tail[..|tail| - 1], tail[|tail| - 1];
      forall k | 0 <= k < |init| ensures IsTailStep(init[..k], init[k], body) {
        assert init[..k] == tail[..k] && init[k] == tail[k];
      }
      assert NothingRevealed(tail) ==> NothingRevealed(init);
      TailAllowed(files, past, init, body);
      TailLeaves(init, body);
      KeepsFile(files, init, RESPONSE_FILE);
      assert IsTailStep(init, last, body);
      if !last.Posted? {
        if last.data == STATUS_PENDING + "\n" {
          PendingReveals(last);
        } else {
          AcceptedLater(past, init, body);
          if RESPONSE_FILE in files && Accepted(past, files[RESPONSE_FILE]) { AcceptedGrows(past, init, files[RESPONSE_FILE]); }
        }
      }
    }
  }

  // ----- the parts of a submitting run

  function Tail(run: Run): seq<Step>
    requires run.store != []
  {
    run.store[1..] + run.first + run.reconnected + run.reauthorized + run.verdict
  }

  lemma RunSplit(run: Run)
    requires run.store != []
    ensures run.Steps() == run.prepare + ([run.store[0]] + Tail(run))
  {
    assert run.store == [run.store[0]] + run.store[1..];
  }

  lemma TailIsTail(run: Run, body: string, d: Disposition)
    requires IsSubmitting(run, body, d)
    ensures run.store != [] && IsTail(Tail(run), body)
  {
    hide Accepted, IsAttempt, IsTail, IsConclusion;
    StoreTail(run, body, d);
    AttemptIsTail(run.first, body);
    AttemptIsTail(run.reconnected, body);
    AttemptIsTail(run.reauthorized, body);
    var a, b, c := run.store[1..], run.store[1..] + run.first, run.store[1..] + run.first + run.reconnected;
    TailConcat(a, run.first, body);
    TailConcat(b, run.reconnected, body);
    TailConcat(c, run.reauthorized, body);
    LastAttempt(run, body, d);
    if AttemptAccepted(run.Last()) {
      if run.reauthorized != [] {
        AcceptedLater(c, run.reauthorized, body);
      } else if run.reconnected != [] {
        AcceptedLater(b, run.reconnected, body);
        assert c + [] == c;
      } else {
        AcceptedLater(a, run.first, body);
        assert b + [] + [] == b;
      }
    }
    WithVerdict(c + run.reauthorized, run.Last(), run.verdict, d, body);
  }

  lemma StoreTail(run: Run, body: string, d: Disposition)
    requires IsSubmitting(run, body, d)
    ensures run.store != [] && IsTail(run.store[1..], body) && IsWrite(run.store[0], RESPONSE_FILE, body)
  {
    hide Accepted;
  }

  lemma LastAttempt(run: Run, body: string, d: Disposition)
    requires IsSubmitting(run, body, d)
    ensures IsAttempt(run.Last(), body) && IsConclusion(run.Last(), run.verdict, d)
  {
  }

  lemma PrepareLeaves(run: Run, prompt: string, token: string, response: Option<string>, d: Disposition)
    requires IsSubmitRun(run, prompt, token, response, d)
    ensures LeavesFile(run.prepare, RESPONSE_FILE) && LeavesFile(run.prepare, STATUS_FILE)
    ensures forall k :: 0 <= k < |run.prepare| ==> !run.prepare[k].Posted?
    ensures run.store == [] ==> run.Steps() == run.prepare
    ensures run.store != [] ==> response.Some? && IsSubmitting(run, response.value, d)
  {
  }

  lemma {:induction false} PrepareAllowed(files: Files, past: seq<Step>, t: seq<Step>)
    requires LeavesFile(t, RESPONSE_FILE) && LeavesFile(t, STATUS_FILE)
    ensures AllAllowed(files, past, t)
  {
    hide Accepted, Reveals;
    if t != [] {
      var init := t[..|t| - 1];
      assert forall k :: 0 <= k < |init| ==> init[k] == t[k];
      PrepareAllowed(files, past, init);
    }
  }

  /** The cached text after any crash of a submitting run: untouched until the response
      write, which leaves what it put. */
  lemma CacheAfter(files: Files, run: Run, prompt: string, token: string, response: Option<string>, d: Disposition, log: seq<Step>)
    requires IsSubmitRun(run, prompt, token, response, d) && run.store != [] && IsCrashOf(log, run.Steps())
    ensures response.Some?
    ensures var n := |run.prepare|;
      && (n < |log| ==> IsWrite(log[n], RESPONSE_FILE, response.value))
      && Content(After(files, log), RESPONSE_FILE) ==
           if |log| <= n then Content(files, RESPONSE_FILE) else CacheLeft(files, log[n])
  {
    hide After, IsSubmitRun, IsSubmitting, IsCrashOf, IsTail, Leaves, Is2xx, Accepted, PostsOnly;
    var n := |run.prepare|;
    PrepareLeaves(run, prompt, token, response, d);
    TailIsTail(run, response.value, d);
    StoreTail(run, response.value, d);
    TailLeaves(Tail(run), response.value);
    RunSplit(run);
    CrashCalls(log, run.Steps());
    forall k | 0 <= k < |log| && k != n ensures log[k].Posted? || log[k].name != RESPONSE_FILE {
      assert SameCall(log[k], run.Steps()[k]);
    }
    if |log| <= n {
      KeepsFile(files, log, RESPONSE_FILE);
    } else {
      assert SameCall(log[n], run.Steps()[n]);
      var a, c := log[..n], log[n + 1..];
      assert log == a + ([log[n]] + c);
      AfterConcat(files, a, [log[n]] + c);
      AfterConcat(After(files, a), [log[n]], c);
      AfterOne(After(files, a), log[n]);
      KeepsFile(files, a, RESPONSE_FILE);
      KeepsFile(Apply(After(files, a), log[n]), c, RESPONSE_FILE);
    }
  }

  // ----- when a run is safe

  /** At every moment of every crash the directory is safe. */
  ghost predicate EverySafe(files: Files, past: seq<Step>, full: seq<Step>) {
    forall log :: IsCrashOf(log, full) ==> Safe(After(files, log), past + log)
  }

  /** The cached response reached the disk whole, if the run came that far. */
  predicate ResponseStored(run: Run) {
    run.store == [] || run.store[0].Wrote?
  }

  /** What a submission needs. In a directory that looks pending: its status writes
      reveal nothing, or the text that it leaves in the cache is the computed one or
      one accepted before. In any other directory: whatever the response write can
      leave was accepted before. */
  ghost predicate MaySubmit(files: Files, past: seq<Step>, run: Run, response: Option<string>) {
    run.store == [] || response.None? ||
    (if LooksPending(files) then NothingRevealed(run.Steps()) || Backed(CacheLeft(files, run.store[0]), past, response.value)
     else LeavesAccepted(run.store[0], past))
  }

  lemma SubmitRunAllowed(files: Files, past: seq<Step>, run: Run, prompt: string, token: string, response: Option<string>, d: Disposition)
    requires IsSubmitRun(run, prompt, token, response, d)
    requires Safe(files, past) && MaySubmit(files, past, run, response)
    ensures AllAllowed(files, past, run.Steps())
  {
    hide AllAllowed, After, IsSubmitRun, IsSubmitting, IsTail, Reveals, Accepted, LooksPending;
    PrepareLeaves(run, prompt, token, response, d);
    PrepareAllowed(files, past, run.prepare);
    if run.store != [] {
      var body, full := response.value, run.Steps();
      var head, tail := run.prepare + [run.store[0]], Tail(run);
      StoreTail(run, body, d);
      TailIsTail(run, body, d);
      TailLeaves(tail, body);
      RunSplit(run);
      assert full == head + tail;
      var f0, g := After(files, run.prepare), After(files, head);
      KeepsFile(files, run.prepare, RESPONSE_FILE);
      KeepsStatus(files, run.prepare);
      StoreAllowed(f0, past, run.prepare, run.store[0]);
      OneAllowed(f0, past + run.prepare, run.store[0]);
      AllowedConcat(files, past, run.prepare, [run.store[0]]);
      AfterConcat(files, run.prepare, [run.store[0]]);
      AfterOne(f0, run.store[0]);
      var cache := CacheLeft(files, run.store[0]);
      assert Content(g, RESPONSE_FILE) == cache;
      if NothingRevealed(full) {
        assert forall k :: 0 <= k < |tail| ==> tail[k] == full[|head| + k];
      } else {
        if !LooksPending(files) { assert Backed(cache, past, body); }
        BackedGrows(cache, past, head, body);
      }
      TailAllowed(g, past + head, tail, body);
      assert past + head == past + run.prepare + [run.store[0]];
      AllowedConcat(files, past, head, tail);
    }
  }

  lemma KeepsStatus(files: Files, t: seq<Step>)
    requires LeavesFile(t, STATUS_FILE)
    ensures LooksPending(After(files, t)) <==> LooksPending(files)
  {
    hide Trim, After;
    KeepsFile(files, t, STATUS_FILE);
  }

  lemma StoreAllowed(files: Files, past: seq<Step>, prepare: seq<Step>, s: Step)
    requires !s.Posted? && s.name == RESPONSE_FILE && (LooksPending(files) || LeavesAccepted(s, past))
    ensures Allowed(files, past + prepare, s)
  {
    hide Accepted, LooksPending, Leaves;
    if !LooksPending(files) {
      forall text | Leaves(s, text) ensures Accepted(past + prepare, text) {
        AcceptedGrows(past, prepare, text);
      }
    }
  }

  lemma BackedGrows(cache: Option<string>, past: seq<Step>, more: seq<Step>, body: string)
    requires Backed(cache, past, body)
    ensures Backed(cache, past + more, body)
  {
    if Accepted(past, cache.value) { AcceptedGrows(past, more, cache.value); }
  }

  /** Whatever the server answers and wherever the process dies, the directory stays
      safe if the submission may be made. */
  lemma SubmitRunIsSafe(files: Files, past: seq<Step>, run: Run, prompt: string, token: string, response: Option<string>, d: Disposition, log: seq<Step>)
    requires IsSubmitRun(run, prompt, token, response, d)
    requires Safe(files, past) && MaySubmit(files, past, run, response)
    requires IsCrashOf(log, run.Steps())
    ensures Safe(After(files, log), past + log)
  {
    hide IsSubmitRun, AllAllowed, After, Accepted, IsCrashOf, MaySubmit, Trim;
    SubmitRunAllowed(files, past, run, prompt, token, response, d);
    CrashIsAllowed(files, past, log, run.Steps());
    LogKeepsSafe(files, past, log);
  }

  lemma NoCrash(full: seq<Step>, k: nat)
    requires k <= |full|
    ensures IsCrashOf(full[..k], full)
  {
    assert IsCrashAt(full[..k], full, k);
  }

  lemma TornCrash(full: seq<Step>, k: nat, s: Step)
    requires k < |full| && IsTorn(s, full[k])
    ensures IsCrashOf(full[..k] + [s], full)
  {
    var log := full[..k] + [s];
    assert log[..k] == full[..k] && log[k] == s;
    assert IsCrashAt(log, full, k);
  }

  /** Some crash in a write leaves any text that the write can leave. */
  lemma CrashLeaving(full: seq<Step>, k: nat, text: string) returns (s: Step)
    requires k < |full| && Leaves(full[k], text)
    ensures !s.Posted? && !s.Denied? && s.name == full[k].name && Put(s) == text
    ensures IsCrashOf(full[..k] + [s], full)
  {
    if full[k].CutShort? {
      s := full[k];
      NoCrash(full, k + 1);
      assert full[..k + 1] == full[..k] + [s];
    } else {
      s := CutShort(full[k].name, full[k].data, |text|);
      TornCrash(full, k, s);
    }
  }

  lemma AfterPut(files: Files, log: seq<Step>, s: Step)
    requires s.Wrote? || s.CutShort?
    ensures After(files, log + [s]) == After(files, log)[s.name := Put(s)]
  {
    assert (log + [s])[..|log|] == log;
  }

  /** If every crash is safe, the start is safe. */
  lemma SafeAtStart(files: Files, past: seq<Step>, full: seq<Step>)
    requires EverySafe(files, past, full)
    ensures Safe(files, past)
  {
    hide Safe, IsCrashOf;
    NoCrash(full, 0);
    assert full[..0] == [] && past + [] == past;
    assert Safe(After(files, []), past + []);
  }

  /** In a directory that does not look pending, a crash inside the response write
      shows any text that the write can leave under the old status. */
  lemma OldStatusNeedsAccepted(files: Files, past: seq<Step>, run: Run, prompt: string, token: string, response: Option<string>, d: Disposition, text: string)
    requires IsSubmitRun(run, prompt, token, response, d) && run.store != []
    requires !LooksPending(files) && EverySafe(files, past, run.Steps()) && Leaves(run.store[0], text)
    ensures Accepted(past, text)
  {
    hide After, IsSubmitRun, IsCrashOf, LooksPending, IsSubmitting, Leaves;
    PrepareLeaves(run, prompt, token, response, d);
    StoreTail(run, response.value, d);
    RunSplit(run);
    var n := |run.prepare|;
    var s := CrashLeaving(run.Steps(), n, text);
    var log := run.Steps()[..n] + [s];
    assert run.Steps()[..n] == run.prepare;
    AfterPut(files, run.prepare, s);
    KeepsStatus(files, run.prepare);
    SameStatus(After(files, run.prepare), After(files, log));
    assert Safe(After(files, log), past + log);
    AcceptedIn(past, log, text);
    assert forall k :: 0 <= k < |log| ==> !log[k].Posted?;
  }

  lemma SameStatus(files: Files, g: Files)
    requires Content(files, STATUS_FILE) == Content(g, STATUS_FILE)
    ensures LooksPending(files) <==> LooksPending(g)
  {
    hide Trim;
  }

  /** In a directory that looks pending, a crash right after a revealing write shows
      that status over the text in the cache. */
  lemma RevealedNeedsBacked(files: Files, past: seq<Step>, run: Run, prompt: string, token: string, response: Option<string>, d: Disposition)
    requires IsSubmitRun(run, prompt, token, response, d) && run.store != []
    requires EverySafe(files, past, run.Steps()) && !NothingRevealed(run.Steps())
    ensures response.Some? && Backed(CacheLeft(files, run.store[0]), past, response.value)
  {
    hide After, IsSubmitRun, IsCrashOf, Accepted, IsSubmitting, Leaves, Trim, IsTail;
    var full := run.Steps();
    PrepareLeaves(run, prompt, token, response, d);
    var body := response.value;
    StoreTail(run, body, d);
    RunSplit(run);
    var n := |run.prepare|;
    assert forall k :: 0 <= k < n ==> full[k] == run.prepare[k];
    assert full[n] == run.store[0];
    assert forall k :: 0 <= k <= n ==> !Reveals(full[k]);
    var i :| 0 <= i < |full| && Reveals(full[i]);
    var text :| Leaves(full[i], text) && !(Trim(text) <= STATUS_PENDING);
    var s := CrashLeaving(full, i, text);
    var log := full[..i] + [s];
    AfterPut(files, full[..i], s);
    assert Safe(After(files, log), past + log);
    CacheAfter(files, run, prompt, token, response, d, log);
    assert log[n] == full[n];
    var c := After(files, log)[RESPONSE_FILE];
    AcceptedIn(past, log, c);
    TailIsTail(run, body, d);
    TailLeaves(Tail(run), body);
    CrashCalls(log, full);
    assert PostsOnly(log, body) by {
      forall k | 0 <= k < |log| && log[k].Posted? ensures log[k].body == body {
        assert SameCall(log[k], full[k]);
        assert k > n;
        assert full[k] == Tail(run)[k - n - 1];
      }
    }
    if Accepted(log, c) { AcceptedOnly(log, body, c); }
  }

  lemma AcceptedOnly(log: seq<Step>, body: string, c: string)
    requires PostsOnly(log, body) && Accepted(log, c)
    ensures c == body
  {
  }

  /** The exact condition: for every directory, past and run, every crash of the run is
      safe if and only if the directory is safe and the submission may be made. */
  lemma SubmitRunSafeIff(files: Files, past: seq<Step>, run: Run, prompt: string, token: string, response: Option<string>, d: Disposition)
    requires IsSubmitRun(run, prompt, token, response, d)
    ensures EverySafe(files, past, run.Steps()) <==> Safe(files, past) && MaySubmit(files, past, run, response)
  {
    hide After, IsSubmitRun, IsCrashOf, Accepted, IsSubmitting, Leaves, Trim, Safe, LooksPending, Backed, NothingRevealed;
    var full := run.Steps();
    if Safe(files, past) && MaySubmit(files, past, run, response) {
      forall log | IsCrashOf(log, full) ensures Safe(After(files, log), past + log) {
        SubmitRunIsSafe(files, past, run, prompt, token, response, d, log);
      }
    }
    if EverySafe(files, past, full) {
      SafeAtStart(files, past, full);
      if run.store != [] {
        if LooksPending(files) {
          if !NothingRevealed(full) { RevealedNeedsBacked(files, past, run, prompt, token, response, d); }
        } else {
          forall text | Leaves(run.store[0], text) ensures Accepted(past, text) {
            OldStatusNeedsAccepted(files, past, run, prompt, token, response, d, text);
          }
        }
      }
    }
  }

  /** With the response written, a directory that looks pending is all a run needs. */
  lemma PendingIsEnough(files: Files, past: seq<Step>, run: Run, prompt: string, token: string, response: Option<string>, d: Disposition)
    requires IsSubmitRun(run, prompt, token, response, d)
    requires LooksPending(files) && ResponseStored(run)
    ensures Safe(files, past) && MaySubmit(files, past, run, response)
  {
    hide After, IsSubmitRun, Accepted, IsSubmitting, Leaves, Trim, NothingRevealed, LooksPending;
    if run.store != [] {
      PrepareLeaves(run, prompt, token, response, d);
      StoreTail(run, response.value, d);
    }
  }

  /** A replay's attempt and verdict, when there is a cached text and a login. */
  lemma ReplayIsTail(run: Replay, files: Files, loginOk: bool, d: Option<Disposition>)
    requires IsReplay(run, files, loginOk, d)
    ensures if RESPONSE_FILE in files && loginOk then IsTail(run.Steps(), files[RESPONSE_FILE]) else run.Steps() == []
  {
    hide Accepted, IsTail, IsAttempt, IsConclusion;
    if RESPONSE_FILE in files && loginOk {
      AttemptIsTail(run.attempt, files[RESPONSE_FILE]);
      WithVerdict(run.attempt, run.attempt, run.verdict, d.value, files[RESPONSE_FILE]);
    }
  }

  /** Replaying keeps safety from any safe directory, wherever the process dies. */
  lemma ReplayIsSafe(files: Files, past: seq<Step>, run: Replay, loginOk: bool, d: Option<Disposition>, log: seq<Step>)
    requires IsReplay(run, files, loginOk, d) && Safe(files, past) && IsCrashOf(log, run.Steps())
    ensures Safe(After(files, log), past + log)
  {
    hide AllAllowed, After, Accepted, IsCrashOf, Safe, Allowed, IsReplay, IsTail, NothingRevealed;
    ReplayIsTail(run, files, loginOk, d);
    assert AllAllowed(files, past, run.Steps()) by {
      if RESPONSE_FILE in files && loginOk {
        TailAllowed(files, past, run.Steps(), files[RESPONSE_FILE]);
      } else {
        NothingAllowed(files, past);
      }
    }
    CrashIsAllowed(files, past, log, run.Steps());
    LogKeepsSafe(files, past, log);
  }

  lemma NothingAllowed(files: Files, past: seq<Step>)
    ensures AllAllowed(files, past, [])
  {
  }

  lemma ReplayWrites(run: Replay, files: Files, loginOk: bool, d: Option<Disposition>, log: seq<Step>)
    requires IsReplay(run, files, loginOk, d) && IsCrashOf(log, run.Steps())
    ensures LeavesFile(log, RESPONSE_FILE)
    ensures RESPONSE_FILE in files ==> PostsOnly(log, files[RESPONSE_FILE])
  {
    hide Accepted, IsTail, IsReplay;
    ReplayIsTail(run, files, loginOk, d);
    CrashCalls(log, run.Steps());
    if RESPONSE_FILE in files && loginOk { TailLeaves(run.Steps(), files[RESPONSE_FILE]); }
    forall i | 0 <= i < |log|
      ensures log[i].Posted? || log[i].name != RESPONSE_FILE
      ensures RESPONSE_FILE in files && log[i].Posted? ==> log[i].body == files[RESPONSE_FILE]
    {
      assert SameCall(log[i], run.Steps()[i]);
    }
  }

  // ----- the life of a directory

  /** What a process was started to do. */
  datatype Job =
    | Submitting(run: Run, prompt: string, token: string, response: Option<string>, d: Disposition)
    | Replaying(replay: Replay, loginOk: bool, again: Option<Disposition>)

  /** One past process: its job, and what it left of its run. */
  datatype Process = Process(job: Job, log: seq<Step>)

  function Logs(ps: seq<Process>): seq<Step> {
    if ps == [] then [] else Logs(ps[..|ps| - 1]) + ps[|ps| - 1].log
  }

  ghost predicate IsProcess(files: Files, past: seq<Step>, p: Process) {
    match p.job
    case Submitting(run, prompt, token, response, d) =>
      IsSubmitRun(run, prompt, token, response, d) && MaySubmit(files, past, run, response) && IsCrashOf(p.log, run.Steps())
    case Replaying(replay, loginOk, again) =>
      IsReplay(replay, files, loginOk, again) && IsCrashOf(p.log, replay.Steps())
  }

  /** Submissions and replays in any order, each started on what the ones before left,
      each dying anywhere. */
  ghost predicate AreProcesses(files: Files, past: seq<Step>, ps: seq<Process>) {
    forall k :: 0 <= k < |ps| ==> IsProcess(After(files, Logs(ps[..k])), past + Logs(ps[..k]), ps[k])
  }

  lemma ProcessIsSafe(files: Files, past: seq<Step>, p: Process)
    requires Safe(files, past) && IsProcess(files, past, p)
    ensures Safe(After(files, p.log), past + p.log)
  {
    hide Safe, After, IsSubmitRun, IsReplay, IsCrashOf, MaySubmit;
    match p.job
    case Submitting(run, prompt, token, response, d) => SubmitRunIsSafe(files, past, run, prompt, token, response, d, p.log);
    case Replaying(replay, loginOk, again) => ReplayIsSafe(files, past, replay, loginOk, again, p.log);
  }

  lemma InitProcesses(files: Files, past: seq<Step>, ps: seq<Process>)
    requires ps != [] && AreProcesses(files, past, ps)
    ensures var init := ps[..|ps| - 1];
      AreProcesses(files, past, init) && IsProcess(After(files, Logs(init)), past + Logs(init), ps[|ps| - 1])
  {
    hide After, IsProcess, Logs;
    var init := ps[..|ps| - 1];
    forall k | 0 <= k < |init| ensures IsProcess(After(files, Logs(init[..k])), past + Logs(init[..k]), init[k]) {
      assert init[..k] == ps[..k] && init[k] == ps[k];
    }
  }

  /** The whole life of a session directory: any submissions and replays in any order,
      each dying anywhere. At every moment a status other than pending is backed by a
      2xx to a POST of exactly the cached text. */
  lemma {:induction false} HistoryIsSafe(files: Files, past: seq<Step>, ps: seq<Process>)
    requires Safe(files, past) && AreProcesses(files, past, ps)
    ensures Safe(After(files, Logs(ps)), past + Logs(ps))
  {
    hide Safe, After, IsProcess, AreProcesses;
    if ps == [] {
      assert past + [] == past;
      AfterNone(files);
    } else {
      var init, p := ps[..|ps| - 1], ps[|ps| - 1];
      InitProcesses(files, past, ps);
      HistoryIsSafe(files, past, init);
      ProcessIsSafe(After(files, Logs(init)), past + Logs(init), p);
      AfterConcat(files, Logs(init), p.log);
      assert past + Logs(init) + p.log == past + Logs(ps);
    }
  }

  /** However many replays run and die, the cached text stays and is all they send. */
  lemma {:induction false} ReplaysSendTheCache(files: Files, past: seq<Step>, ps: seq<Process>)
    requires AreProcesses(files, past, ps) && RESPONSE_FILE in files
    requires forall k :: 0 <= k < |ps| ==> ps[k].job.Replaying?
    ensures Content(After(files, Logs(ps)), RESPONSE_FILE) == Some(files[RESPONSE_FILE])
    ensures PostsOnly(Logs(ps), files[RESPONSE_FILE])
  {
    hide After, IsReplay, IsCrashOf, AreProcesses;
    if ps == [] {
      AfterNone(files);
    } else {
      var init, p := ps[..|ps| - 1], ps[|ps| - 1];
      InitProcesses(files, past, ps);
      assert forall k :: 0 <= k < |init| ==> init[k] == ps[k];
      ReplaysSendTheCache(files, past, init);
      ReplayWrites(p.job.replay, After(files, Logs(init)), p.job.loginOk, p.job.again, p.log);
      KeepsFile(After(files, Logs(init)), p.log, RESPONSE_FILE);
      AfterConcat(files, Logs(init), p.log);
    }
  }

  lemma {:induction false} PostsChangeNothing(files: Files, t: seq<Step>)
    requires forall k :: 0 <= k < |t| ==> t[k].Posted?
    ensures After(files, t) == files
  {
    if t != [] {
      var init := t[..|t| - 1];
      assert forall k :: 0 <= k < |init| ==> init[k] == t[k];
      PostsChangeNothing(files, init);
    }
  }

  /** In a run that was never accepted the tail is the pending mark and POSTs. */
  lemma FailedTail(run: Run, body: string, d: Disposition)
    requires IsSubmitting(run, body, d) && (d.SubmitHttp? || d.SubmitError?)
    requires run.store[0].Wrote?
    ensures |run.store| == 2 && Tail(run) == [run.store[1]] + Tail(run)[1..]
    ensures forall k :: 1 <= k < |Tail(run)| ==> Tail(run)[k].Posted?
  {
  }

  /** A submit that failed, with both writes done, leaves exactly the computed text and
      the pending mark, whatever the directory held before. */
  lemma FailureLeavesPending(files: Files, run: Run, prompt: string, token: string, response: Option<string>, d: Disposition)
    requires IsSubmitRun(run, prompt, token, response, d)
    requires d.SubmitHttp? || d.SubmitError?
    requires run.store[0].Wrote? && run.store[1].Wrote?
    ensures response.Some?
    ensures var after := After(files, run.Steps());
      && RESPONSE_FILE in after && after[RESPONSE_FILE] == response.value
      && STATUS_FILE in after && after[STATUS_FILE] == STATUS_PENDING + "\n"
  {
    hide After, IsAttempt, IsConclusion, AreAttempts;
    var tail, full := Tail(run), run.Steps();
    FailedTail(run, response.value, d);
    RunSplit(run);
    var f0 := After(files, run.prepare);
    AfterConcat(files, run.prepare, [run.store[0]] + tail);
    assert [run.store[0]] + tail == [run.store[0], run.store[1]] + tail[1..];
    AfterConcat(f0, [run.store[0], run.store[1]], tail[1..]);
    AfterTwo(f0, run.store[0], run.store[1]);
    PostsChangeNothing(Apply(Apply(f0, run.store[0]), run.store[1]), tail[1..]);
  }

  // ----- how many POSTs, and of what

  function Posts(log: seq<Step>): nat {
    if log == [] then 0 else Posts(log[..|log| - 1]) + (if log[|log| - 1].Posted? then 1 else 0)
  }

  lemma {:induction false} PostsConcat(a: seq<Step>, b: seq<Step>)
    ensures Posts(a + b) == Posts(a) + Posts(b)
  {
    if b == [] {
      assert a + b == a;
    } else {
      assert (a + b)[..|a + b| - 1] == a + b[..|b| - 1];
      PostsConcat(a, b[..|b| - 1]);
    }
  }

  lemma PostsOfPart(t: seq<Step>)
    requires |t| <= 2 && forall k :: 1 <= k < |t| ==> !t[k].Posted?
    ensures Posts(t) == if t != [] && t[0].Posted? then 1 else 0
  {
    if |t| == 2 {
      assert t[..1] == [t[0]] && [t[0]][..0] == [];
    } else if |t| == 1 {
      assert t[..0] == [];
    }
  }

  /** One vector set sends at most three result POSTs, all of the computed text, byte for
      byte, and one more with the automatic replay, of whatever the cache then holds. */
  lemma PostBounds(c: Recovery, files: Files, prompt: string, token: string, response: Option<string>, d: Disposition)
    requires IsRecovery(c, files, prompt, token, response, d)
    ensures Posts(c.run.Steps()) <= 3 && Posts(c.Steps()) <= 4
    ensures response.None? ==> Posts(c.Steps()) == 0
    ensures response.Some? ==> PostsOnly(c.run.Steps(), response.value)
    ensures response.Some? ==>
      (PostsOnly(c.Steps(), response.value) <==>
       Posts(c.replay.Steps()) == 0 || Content(After(files, c.run.Steps()), RESPONSE_FILE) == response)
    ensures response.Some? && ResponseStored(c.run) ==> PostsOnly(c.Steps(), response.value)
  {
    hide After, Posts, IsReplay, DispositionText, PostsOnly, ResponseStored;
    RunPosts(c.run, prompt, token, response, c.first);
    PostsConcat(c.run.Steps(), c.replay.Steps());
    if DispositionText(c.first) == "SUBMIT_ERROR" {
      ReplayStartsIff(c.first);
      RunSends(c.run, prompt, token, response, c.first);
      if ResponseStored(c.run) { RunCaches(files, c.run, prompt, token, response, c.first); }
      ReplayPosts(c.replay, After(files, c.run.Steps()), c.loginOk, c.again);
      PostsOnlyConcat(c.run.Steps(), c.replay.Steps(), response.value);
    } else {
      NoPosts();
      assert c.Steps() == c.run.Steps();
    }
  }

  lemma RunSends(run: Run, prompt: string, token: string, response: Option<string>, d: Disposition)
    requires IsSubmitRun(run, prompt, token, response, d) && (d.SubmitError? || d.Verdict?)
    ensures response.Some?
  {
  }

  lemma PostsOnlyConcat(a: seq<Step>, b: seq<Step>, body: string)
    ensures PostsOnly(a + b, body) <==> PostsOnly(a, body) && PostsOnly(b, body)
  {
    if PostsOnly(a + b, body) {
      assert forall k :: 0 <= k < |a| ==> (a + b)[k] == a[k];
      assert forall k :: 0 <= k < |b| ==> (a + b)[|a| + k] == b[k];
    }
  }


  lemma NoPosts()
    ensures Posts([]) == 0 && Posts([] + []) == 0
  {
  }

  lemma RunCaches(files: Files, run: Run, prompt: string, token: string, response: Option<string>, d: Disposition)
    requires IsSubmitRun(run, prompt, token, response, d) && (d.SubmitError? || d.Verdict?)
    requires ResponseStored(run)
    ensures response.Some? && RESPONSE_FILE in After(files, run.Steps()) && After(files, run.Steps())[RESPONSE_FILE] == response.value
  {
    hide After, IsCrashOf, IsAttempt, AreAttempts;
    var full := run.Steps();
    assert run.store != [];
    NoCrash(full, |full|);
    assert full[..|full|] == full;
    CacheAfter(files, run, prompt, token, response, d, full);
    RunSplit(run);
    assert full[|run.prepare|] == run.store[0];
  }

  /** A replay sends at most one POST, and sends it of the cached text. */
  lemma ReplayPosts(run: Replay, files: Files, loginOk: bool, d: Option<Disposition>)
    requires IsReplay(run, files, loginOk, d)
    ensures Posts(run.Steps()) <= 1
    ensures forall body :: PostsOnly(run.Steps(), body) <==> Posts(run.Steps()) == 0 || Content(files, RESPONSE_FILE) == Some(body)
  {
    hide Posts;
    PostsConcat(run.attempt, run.verdict);
    PostsOfPart(run.attempt);
    PostsOfPart(run.verdict);
    forall body
      ensures PostsOnly(run.Steps(), body) <==> Posts(run.Steps()) == 0 || Content(files, RESPONSE_FILE) == Some(body)
    {
      PostsOnlyConcat(run.attempt, run.verdict, body);
    }
  }

  /** Only the three attempts start with a POST, and of the response. */
  lemma RunParts(run: Run, prompt: string, token: string, response: Option<string>, d: Disposition)
    requires IsSubmitRun(run, prompt, token, response, d)
    ensures QuietPart(run.prepare) && QuietPart(run.store) && QuietPart(run.verdict)
    ensures response.Some? ==>
      PostingPart(run.first, response.value) && PostingPart(run.reconnected, response.value) && PostingPart(run.reauthorized, response.value)
    ensures response.None? ==> run.first == [] && run.reconnected == [] && run.reauthorized == []
  {
  }

  predicate QuietPart(t: seq<Step>) {
    |t| <= 2 && forall k :: 0 <= k < |t| ==> !t[k].Posted?
  }

  predicate PostingPart(t: seq<Step>, body: string) {
    |t| <= 2 && forall k :: 0 <= k < |t| ==> if k == 0 then t[k].Posted? && t[k].body == body else !t[k].Posted?
  }

  lemma RunPosts(run: Run, prompt: string, token: string, response: Option<string>, d: Disposition)
    requires IsSubmitRun(run, prompt, token, response, d)
    ensures Posts(run.Steps()) <= 3
    ensures response.Some? ==> PostsOnly(run.Steps(), response.value)
    ensures response.None? ==> Posts(run.Steps()) == 0
  {
    hide Posts, IsSubmitRun;
    RunParts(run, prompt, token, response, d);
    PostsOfPart(run.prepare);
    PostsOfPart(run.store);
    PostsOfPart(run.first);
    PostsOfPart(run.reconnected);
    PostsOfPart(run.reauthorized);
    PostsOfPart(run.verdict);
    PostsConcat(run.prepare, run.store);
    PostsConcat(run.prepare + run.store, run.first);
    PostsConcat(run.prepare + run.store + run.first, run.reconnected);
    PostsConcat(run.prepare + run.store + run.first + run.reconnected, run.reauthorized);
    PostsConcat(run.prepare + run.store + run.first + run.reconnected + run.reauthorized, run.verdict);
  }
}
