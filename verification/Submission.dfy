/** Submitting one vector set so that no computed response is lost. The session
    directory is a map from file name to text, the server answers as it likes, every
    write may fail or be cut short, and the process may die between any two steps or
    in the middle of a write. */
module Submission {
  import opened Prelude
  import opened Text
  import opened Decimal

  const PROMPT_FILE := "prompt.json"
  const RESPONSE_FILE := "response.json"
  const STATUS_FILE := "submit-status.txt"
  const TOKEN_FILE := "token.txt"

  const STATUS_PENDING := "PENDING"
  const STATUS_SUBMITTED := "SUBMITTED"

  type Files = map<string, string>

  /** The server's answer to a result POST; a transport error may be a dead socket. */
  datatype Reply = Replied(status: nat) | Lost(dead: bool)

  /** What a write call did to the file. Only the first reports success. */
  datatype Fate = Done | Cut(kept: nat) | Refused

  /** The steps that matter: file writes and result POSTs, in the order they happen. */
  datatype Step =
    | Wrote(name: string, data: string)
    | CutShort(name: string, data: string, kept: nat)
    | Denied(name: string, data: string)
    | Posted(body: string, reply: Reply)

  function Apply(files: Files, s: Step): Files {
    match s
    case Wrote(name, data) => files[name := data]
    case CutShort(name, data, kept) => files[name := if kept <= |data| then data[..kept] else data]
    case Denied(_, _) => files
    case Posted(_, _) => files
  }

  function After(files: Files, steps: seq<Step>): Files {
    if steps == [] then files else Apply(After(files, steps[..|steps| - 1]), steps[|steps| - 1])
  }

  predicate Is2xx(r: Reply) {
    r.Replied? && 200 <= r.status < 300
  }

  predicate IsAuthRejection(r: Reply) {
    r.Replied? && (r.status == 401 || r.status == 403)
  }

  // ----- the runs, as logs of steps

  datatype Disposition =
    | PersistError | DispatchError | SubmitHttp(status: nat) | SubmitError | PollError | Verdict(text: string)

  /** A write call on `name`, whatever came of it. */
  predicate IsWrite(s: Step, name: string, data: string) {
    !s.Posted? && s.name == name && s.data == data
  }

  /** Two writes, the second only when the first succeeded. */
  predicate AreTwoWrites(t: seq<Step>, name0: string, data0: string, name1: string, data1: string) {
    && t != [] && IsWrite(t[0], name0, data0)
    && (if t[0].Wrote? then |t| == 2 && IsWrite(t[1], name1, data1) else |t| == 1)
  }

  /** One submit attempt: the POST and, only on a 2xx, the status write. */
  predicate IsAttempt(t: seq<Step>, body: string) {
    && t != [] && t[0].Posted? && t[0].body == body
    && (if Is2xx(t[0].reply) then |t| == 2 && IsWrite(t[1], STATUS_FILE, STATUS_SUBMITTED + "\n") else |t| == 1)
  }

  predicate AttemptAccepted(t: seq<Step>) {
    t != [] && t[0].Posted? && Is2xx(t[0].reply)
  }

  function DispositionOf(r: Reply): Disposition {
    match r
    case Replied(status) => SubmitHttp(status)
    case Lost(_) => SubmitError
  }

  /** After an accepted attempt: the verdict is written when there is one. */
  predicate IsVerdict(t: seq<Step>, d: Disposition) {
    match d
    case Verdict(text) => |t| == 1 && IsWrite(t[0], STATUS_FILE, text + "\n")
    case PollError => t == []
    case _ => false
  }

  /** How the attempts ended: polled after a 2xx, given up otherwise. */
  predicate IsConclusion(last: seq<Step>, verdict: seq<Step>, d: Disposition)
    requires last != [] && last[0].Posted?
  {
    if Is2xx(last[0].reply) then IsVerdict(verdict, d)
    else verdict == [] && d == DispositionOf(last[0].reply)
  }

  /** The parts of one vector set's run: prompt and token, response and pending mark,
      the first POST, the one on a reopened connection, the one under a refreshed
      token, and the verdict. */
  datatype Run = Run(prepare: seq<Step>, store: seq<Step>, first: seq<Step>, reconnected: seq<Step>,
                     reauthorized: seq<Step>, verdict: seq<Step>, reopenOk: bool, refreshOk: bool) {
    function Steps(): seq<Step> {
      prepare + store + first + reconnected + reauthorized + verdict
    }

    function BeforeRefresh(): seq<Step> {
      if reconnected != [] then reconnected else first
    }

    function Last(): seq<Step> {
      if reauthorized != [] then reauthorized else BeforeRefresh()
    }
  }

  predicate Unsubmitted(run: Run) {
    run.store == [] && run.first == [] && run.reconnected == [] && run.reauthorized == [] && run.verdict == []
  }

  /** The first attempt; one more on a reopened connection when the first met a dead
      socket; one more under a refreshed token when the last reply was 401 or 403. */
  predicate AreAttempts(run: Run, body: string) {
    && IsAttempt(run.first, body)
    && (if run.first[0].reply.Lost? && run.first[0].reply.dead && run.reopenOk
        then IsAttempt(run.reconnected, body) else run.reconnected == [])
    && (if IsAuthRejection(run.BeforeRefresh()[0].reply) && run.refreshOk
        then IsAttempt(run.reauthorized, body) else run.reauthorized == [])
  }

  predicate IsSubmitting(run: Run, body: string, d: Disposition) {
    && AreTwoWrites(run.store, RESPONSE_FILE, body, STATUS_FILE, STATUS_PENDING + "\n")
    && AreAttempts(run, body)
    && IsConclusion(run.Last(), run.verdict, d)
  }

  /** A run of `process_one_vector_set` from the persisted prompt on. `response` is
      what the dispatcher computed, if it could. */
  predicate IsSubmitRun(run: Run, prompt: string, token: string, response: Option<string>, d: Disposition) {
    && AreTwoWrites(run.prepare, PROMPT_FILE, prompt, TOKEN_FILE, token + "\n")
    && (if !run.prepare[|run.prepare| - 1].Wrote? then Unsubmitted(run) && d == PersistError
        else if response.None? then Unsubmitted(run) && d == DispatchError
        else IsSubmitting(run, response.value, d))
  }

  datatype Replay = Replay(attempt: seq<Step>, verdict: seq<Step>) {
    function Steps(): seq<Step> {
      attempt + verdict
    }
  }

  /** A run of `run_resubmit` on a directory: nothing without a cached response or a
      login, otherwise one attempt with exactly the cached text. */
  predicate IsReplay(run: Replay, files: Files, loginOk: bool, d: Option<Disposition>) {
    if RESPONSE_FILE in files && loginOk then
      IsAttempt(run.attempt, files[RESPONSE_FILE]) && d.Some? && IsConclusion(run.attempt, run.verdict, d.value)
    else run.attempt == [] && run.verdict == [] && d.None?
  }

  // ----- what decides a run

  /** Everything the outside decides: what each of its answers would be, by the moment at
      which it is asked. Every write, POST, question and poll takes one moment. */
  datatype Script = Script(replies: nat -> Reply, fates: nat -> Fate, polls: nat -> Option<string>, answers: nat -> bool)

  /** The step is what the script makes of its call at moment `c`. */
  predicate StepAt(script: Script, c: nat, s: Step) {
    match s
    case Wrote(_, _) => script.fates(c) == Done
    case CutShort(_, _, kept) => script.fates(c) == Cut(kept)
    case Denied(_, _) => script.fates(c) == Refused
    case Posted(_, reply) => reply == script.replies(c)
  }

  predicate Follows(script: Script, c: nat, t: seq<Step>) {
    forall k :: 0 <= k < |t| ==> StepAt(script, c + k, t[k])
  }

  predicate MetDeadSocket(t: seq<Step>) {
    t != [] && t[0].Posted? && t[0].reply.Lost? && t[0].reply.dead
  }

  predicate MetRejection(t: seq<Step>) {
    t != [] && t[0].Posted? && IsAuthRejection(t[0].reply)
  }

  function Ticks(asked: bool): nat {
    if asked then 1 else 0
  }

  // The moments at which the parts of a run end that starts at `c`.
  function AfterFirst(run: Run, c: nat): nat {
    c + |run.prepare| + |run.store| + |run.first|
  }

  function AfterReconnected(run: Run, c: nat): nat {
    AfterFirst(run, c) + Ticks(MetDeadSocket(run.first)) + |run.reconnected|
  }

  function AfterAttempts(run: Run, c: nat): nat {
    AfterReconnected(run, c) + Ticks(MetRejection(run.BeforeRefresh())) + |run.reauthorized|
  }

  function EndTick(run: Run, c: nat): nat {
    AfterAttempts(run, c) + Ticks(AttemptAccepted(run.Last())) + |run.verdict|
  }

  /** The disposition that an accepted attempt ends with. */
  function PolledDisposition(answer: Option<string>): Disposition {
    match answer
    case Some(verdict) => Verdict(verdict)
    case None => PollError
  }

  /** The attempts and retries from moment `c` on are what the script makes of them. */
  predicate AttemptsFollow(script: Script, c: nat, run: Run) {
    && Follows(script, c, run.first)
    && run.reopenOk == (MetDeadSocket(run.first) && script.answers(c + |run.first|))
    && Follows(script, c + |run.first| + Ticks(MetDeadSocket(run.first)), run.reconnected)
    && var r := c + |run.first| + Ticks(MetDeadSocket(run.first)) + |run.reconnected|;
       && run.refreshOk == (MetRejection(run.BeforeRefresh()) && script.answers(r))
       && Follows(script, r + Ticks(MetRejection(run.BeforeRefresh())), run.reauthorized)
  }

  /** The verdict, asked for at moment `c` behind an accepted attempt. */
  predicate VerdictFollows(script: Script, c: nat, last: seq<Step>, verdict: seq<Step>, d: Disposition) {
    if AttemptAccepted(last) then d == PolledDisposition(script.polls(c)) && Follows(script, c + 1, verdict)
    else verdict == []
  }

  /** The whole run from moment `c` on is what the script makes of it. */
  predicate RunFollows(script: Script, c: nat, run: Run, d: Disposition) {
    && Follows(script, c, run.prepare)
    && Follows(script, c + |run.prepare|, run.store)
    && AttemptsFollow(script, c + |run.prepare| + |run.store|, run)
    && VerdictFollows(script, AfterAttempts(run, c), run.Last(), run.verdict, d)
  }

  predicate ReplayFollows(script: Script, c: nat, run: Replay, cached: bool, loginOk: bool, d: Option<Disposition>) {
    && loginOk == (cached && script.answers(c))
    && Follows(script, c + 1, run.attempt)
    && (d.Some? ==> VerdictFollows(script, c + 1 + |run.attempt|, run.attempt, run.verdict, d.value))
  }

  function ReplayEndTick(run: Replay, cached: bool, c: nat): nat {
    c + Ticks(cached) + |run.attempt| + Ticks(AttemptAccepted(run.attempt)) + |run.verdict|
  }

  // ----- the program

  /** The directory, and everything the outside decides, in the order it is asked. */
  class World {
    const script: Script
    var files: Files
    var steps: seq<Step>
    var clock: nat

    constructor (files: Files, script: Script)
      ensures this.files == files && steps == [] && clock == 0
    {
      this.script := script;
      this.files, steps, clock := files, [], 0;
    }

    method Log(s: Step)
      modifies this`files, this`steps, this`clock
      ensures files == Apply(old(files), s) && steps == old(steps) + [s] && clock == old(clock) + 1
    {
      match s {
        case Wrote(name, data) => files := files[name := data];
        case CutShort(name, data, kept) => files := files[name := if kept <= |data| then data[..kept] else data];
        case Denied(_, _) =>
        case Posted(_, _) =>
      }
      steps := steps + [s];
      clock := clock + 1;
    }

    method WriteFile(name: string, data: string) returns (ok: bool, ghost s: Step)
      modifies this`files, this`steps, this`clock
      ensures files == Apply(old(files), s) && steps == old(steps) + [s] && clock == old(clock) + 1
      ensures IsWrite(s, name, data) && (ok <==> s.Wrote?) && StepAt(script, old(clock), s)
    {
      var fate := script.fates(clock);
      var step := match fate case Done => Wrote(name, data) case Cut(kept) => CutShort(name, data, kept) case Refused => Denied(name, data);
      Log(step);
      return fate.Done?, step;
    }

    method WriteStatus(status: string) returns (ok: bool, ghost s: Step)
      modifies this`files, this`steps, this`clock
      ensures files == Apply(old(files), s) && steps == old(steps) + [s] && clock == old(clock) + 1
      ensures IsWrite(s, STATUS_FILE, status + "\n") && (ok <==> s.Wrote?) && StepAt(script, old(clock), s)
    {
      ok, s := WriteFile(STATUS_FILE, status + "\n");
    }

    method Post(body: string) returns (r: Reply)
      modifies this`files, this`steps, this`clock
      ensures files == old(files) && steps == old(steps) + [Posted(body, r)] && clock == old(clock) + 1
      ensures r == script.replies(old(clock))
    {
      r := script.replies(clock);
      Log(Posted(body, r));
    }

    /** Reopening the connection, refreshing the token, logging in. */
    method Ask() returns (ok: bool)
      modifies this`clock
      ensures ok == script.answers(old(clock)) && clock == old(clock) + 1
    {
      ok := script.answers(clock);
      clock := clock + 1;
    }

    method PollVerdict() returns (d: Option<string>)
      modifies this`clock
      ensures d == script.polls(old(clock)) && clock == old(clock) + 1
    {
      d := script.polls(clock);
      clock := clock + 1;
    }
  }

  datatype SubmitOutcome = Submitted | HttpError(status: nat) | TransportError(dead: bool)

  function OutcomeOf(r: Reply): SubmitOutcome {
    if Is2xx(r) then Submitted else if r.Replied? then HttpError(r.status) else TransportError(r.dead)
  }

  method SubmitAndMark(w: World, body: string) returns (outcome: SubmitOutcome, ghost t: seq<Step>)
    modifies w
    ensures IsAttempt(t, body) && t != [] && t[0].Posted? && outcome == OutcomeOf(t[0].reply)
    ensures w.steps == old(w.steps) + t && w.files == After(old(w.files), t)
    ensures Follows(w.script, old(w.clock), t) && w.clock == old(w.clock) + |t|
  {
    var r := w.Post(body);
    t := [Posted(body, r)];
    ghost var f := old(w.files);
    AfterOne(f, t[0]);
    if r.Replied? && r.status >= 200 && r.status < 300 {
      var ok;
      ghost var s;
      ok, s := w.WriteStatus(STATUS_SUBMITTED);
      AfterTwo(f, t[0], s);
      return Submitted, t + [s];
    }
    match r
    case Replied(status) => return HttpError(status), t;
    case Lost(dead) => return TransportError(dead), t;
  }

  lemma AfterOne(files: Files, s: Step)
    ensures After(files, [s]) == Apply(files, s)
  {
    assert [s][..0] == [];
  }

  lemma AfterTwo(files: Files, s: Step, u: Step)
    ensures [s] + [u] == [s, u]
    ensures After(files, [s, u]) == Apply(Apply(files, s), u)
  {
    assert [s, u][..1] == [s];
    AfterOne(files, s);
  }

  lemma {:induction false} AfterConcat(files: Files, a: seq<Step>, b: seq<Step>)
    ensures After(files, a + b) == After(After(files, a), b)
  {
    if b == [] {
      assert a + b == a;
    } else {
      assert (a + b)[..|a + b| - 1] == a + b[..|b| - 1];
      AfterConcat(files, a, b[..|b| - 1]);
    }
  }

  /** Polling and recording the verdict after an accepted attempt. */
  method Conclude(w: World) returns (d: Disposition, ghost t: seq<Step>)
    modifies w
    ensures IsVerdict(t, d) && d == PolledDisposition(w.script.polls(old(w.clock)))
    ensures w.steps == old(w.steps) + t && w.files == After(old(w.files), t)
    ensures Follows(w.script, old(w.clock) + 1, t) && w.clock == old(w.clock) + 1 + |t|
  {
    var verdict := w.PollVerdict();
    if verdict.None? { return PollError, []; }
    var ok;
    ghost var s;
    ok, s := w.WriteStatus(verdict.value);
    AfterOne(old(w.files), s);
    return Verdict(verdict.value), [s];
  }

  /** Two writes in a row, stopping at the first that fails. */
  method WriteBoth(w: World, name0: string, data0: string, name1: string, data1: string)
    returns (ok: bool, ghost t: seq<Step>)
    modifies w
    ensures AreTwoWrites(t, name0, data0, name1, data1) && (ok <==> t[|t| - 1].Wrote?)
    ensures w.steps == old(w.steps) + t && w.files == After(old(w.files), t)
    ensures Follows(w.script, old(w.clock), t) && w.clock == old(w.clock) + |t|
  {
    ghost var s;
    ok, s := w.WriteFile(name0, data0);
    t := [s];
    AfterOne(old(w.files), s);
    if ok {
      ghost var u;
      ok, u := w.WriteFile(name1, data1);
      AfterTwo(old(w.files), s, u);
      t := t + [u];
    }
  }

  method ProcessVectorSet(w: World, prompt: string, token: string, response: Option<string>)
    returns (d: Disposition, ghost run: Run)
    modifies w
    ensures IsSubmitRun(run, prompt, token, response, d)
    ensures RunFollows(w.script, old(w.clock), run, d) && w.clock == EndTick(run, old(w.clock))
    ensures w.steps == old(w.steps) + run.Steps() && w.files == After(old(w.files), run.Steps())
  {
    hide After, AreTwoWrites, IsAttempt, IsVerdict, Follows;
    ghost var f, c := w.files, w.clock;
    NothingFollows(w.script);
    var ok;
    ghost var prepare;
    ok, prepare := WriteBoth(w, PROMPT_FILE, prompt, TOKEN_FILE, token + "\n");
    run := Run(prepare, [], [], [], [], [], false, false);
    assert run.Steps() == prepare;
    WritesNonempty(prepare, PROMPT_FILE, prompt, TOKEN_FILE, token + "\n");
    if !ok { return PersistError, run; }
    if response.None? { return DispatchError, run; }
    ghost var rest;
    d, rest := SubmitResponse(w, response.value);
    run := rest.(prepare := prepare);
    AfterConcat(f, prepare, rest.Steps());
    StepsAfterPrepare(prepare, rest);
    PrepareIrrelevant(rest, prepare, response.value, d);
    PrepareFollows(w.script, c, rest, prepare, d);
  }

  lemma NothingFollows(script: Script)
    ensures forall c: nat :: Follows(script, c, [])
  {
  }

  /** A run from the response on, put behind its first two writes. */
  lemma PrepareFollows(script: Script, c: nat, rest: Run, prepare: seq<Step>, d: Disposition)
    requires rest.prepare == [] && RunFollows(script, c + |prepare|, rest, d) && Follows(script, c, prepare)
    ensures RunFollows(script, c, rest.(prepare := prepare), d)
    ensures EndTick(rest.(prepare := prepare), c) == EndTick(rest, c + |prepare|)
  {
    hide Follows;
    var all := rest.(prepare := prepare);
    assert all.Last() == rest.Last() && all.BeforeRefresh() == rest.BeforeRefresh();
  }

  lemma WritesNonempty(t: seq<Step>, name0: string, data0: string, name1: string, data1: string)
    requires AreTwoWrites(t, name0, data0, name1, data1)
    ensures t != []
  {
  }

  lemma StepsAfterPrepare(prepare: seq<Step>, rest: Run)
    requires rest.prepare == []
    ensures rest.(prepare := prepare).Steps() == prepare + rest.Steps()
  {
    assert [] + rest.store == rest.store;
    Regroup(prepare, rest.store, rest.first, rest.reconnected, rest.reauthorized, []);
    var most := rest.store + rest.first + rest.reconnected + rest.reauthorized;
    Regroup(prepare, most, rest.verdict, [], [], []);
  }

  lemma PrepareIrrelevant(rest: Run, prepare: seq<Step>, body: string, d: Disposition)
    requires IsSubmitting(rest, body, d)
    ensures IsSubmitting(rest.(prepare := prepare), body, d)
  {
    assert rest.(prepare := prepare).BeforeRefresh() == rest.BeforeRefresh();
    assert rest.(prepare := prepare).Last() == rest.Last();
  }

  /** The submit with its two one-shot retries. */
  method SubmitWithRetries(w: World, body: string) returns (outcome: SubmitOutcome, ghost run: Run)
    modifies w
    ensures run.prepare == [] && run.store == [] && run.verdict == []
    ensures AreAttempts(run, body) && run.Last() != [] && run.Last()[0].Posted? && outcome == OutcomeOf(run.Last()[0].reply)
    ensures w.steps == old(w.steps) + (run.first + run.reconnected + run.reauthorized)
    ensures w.files == After(old(w.files), run.first + run.reconnected + run.reauthorized)
    ensures AttemptsFollow(w.script, old(w.clock), run) && w.clock == AfterAttempts(run, old(w.clock))
  {
    hide After, IsAttempt, Follows;
    NothingFollows(w.script);
    ghost var first, reconnected, reauthorized: seq<Step> := [], [], [];
    ghost var f := w.files;
    var reopenOk, refreshOk := false, false;
    outcome, first := SubmitAndMark(w, body);
    ghost var done := first;
    if outcome.TransportError? && outcome.dead {
      reopenOk := w.Ask();
      if reopenOk {
        outcome, reconnected := SubmitAndMark(w, body);
        AfterConcat(f, done, reconnected);
      }
    }
    assert first + [] == first;
    done := done + reconnected;
    if outcome.HttpError? && (outcome.status == 401 || outcome.status == 403) {
      refreshOk := w.Ask();
      if refreshOk {
        outcome, reauthorized := SubmitAndMark(w, body);
        AfterConcat(f, done, reauthorized);
      }
    }
    assert done + [] == done;
    run := Run([], [], first, reconnected, reauthorized, [], reopenOk, refreshOk);
  }

  /** The three parts of a submitting run, put together. */
  lemma Assembled(run: Run, store: seq<Step>, verdict: seq<Step>, body: string, d: Disposition)
    requires run.prepare == [] && AreTwoWrites(store, RESPONSE_FILE, body, STATUS_FILE, STATUS_PENDING + "\n")
    requires AreAttempts(run, body) && run.Last() != [] && run.Last()[0].Posted? && IsConclusion(run.Last(), verdict, d)
    ensures IsSubmitting(run.(store := store, verdict := verdict), body, d)
    ensures run.(store := store, verdict := verdict).Steps() == store + (run.first + run.reconnected + run.reauthorized) + verdict
  {
    hide AreTwoWrites, IsAttempt, IsConclusion;
    var all := run.(store := store, verdict := verdict);
    assert all.Last() == run.Last() && all.BeforeRefresh() == run.BeforeRefresh();
    assert [] + store == store;
    Regroup(store, run.first, run.reconnected, run.reauthorized, [], []);
  }

  /** From the computed response on: persist it, submit it, record the verdict. A
      failed write only warns. */
  method SubmitResponse(w: World, body: string) returns (d: Disposition, ghost run: Run)
    modifies w
    ensures run.prepare == [] && IsSubmitting(run, body, d)
    ensures RunFollows(w.script, old(w.clock), run, d) && w.clock == EndTick(run, old(w.clock))
    ensures w.steps == old(w.steps) + run.Steps() && w.files == After(old(w.files), run.Steps())
  {
    hide After, AreTwoWrites, IsVerdict, IsAttempt, AreAttempts, IsSubmitting, Follows, AttemptsFollow, RunFollows, EndTick, AfterAttempts;
    ghost var f, c := w.files, w.clock;
    NothingFollows(w.script);
    var stored, outcome;
    ghost var store, verdict: seq<Step> := [], [];
    stored, store := WriteBoth(w, RESPONSE_FILE, body, STATUS_FILE, STATUS_PENDING + "\n");
    ghost var c1 := w.clock;
    outcome, run := SubmitWithRetries(w, body);
    ghost var c2 := w.clock;
    ghost var attempts := run.first + run.reconnected + run.reauthorized;
    AfterConcat(f, store, attempts);
    match outcome {
      case Submitted =>
        d, verdict := Conclude(w);
      case HttpError(status) => d := SubmitHttp(status);
      case TransportError(_) => d := SubmitError;
    }
    AfterNone(After(f, store + attempts));
    AfterConcat(f, store + attempts, verdict);
    assert store + attempts + [] == store + attempts;
    Assembled(run, store, verdict, body, d);
    AssembledFollows(w.script, c, run, store, verdict, d);
    run := run.(store := store, verdict := verdict);
  }

  lemma AssembledFollows(script: Script, c: nat, run: Run, store: seq<Step>, verdict: seq<Step>, d: Disposition)
    requires run.prepare == [] && run.store == [] && run.verdict == []
    requires Follows(script, c, store) && AttemptsFollow(script, c + |store|, run)
    requires VerdictFollows(script, AfterAttempts(run, c + |store|), run.Last(), verdict, d)
    ensures RunFollows(script, c, run.(store := store, verdict := verdict), d)
    ensures EndTick(run.(store := store, verdict := verdict), c) ==
      AfterAttempts(run, c + |store|) + Ticks(AttemptAccepted(run.Last())) + |verdict|
  {
    hide Follows;
    NothingFollows(script);
    var all := run.(store := store, verdict := verdict);
    assert all.Last() == run.Last() && all.BeforeRefresh() == run.BeforeRefresh();
    assert AfterAttempts(all, c) == AfterAttempts(run, c + |store|);
  }

  /** Replays the cached response. */
  method Resubmit(w: World) returns (d: Option<Disposition>, ghost run: Replay, ghost loginOk: bool)
    modifies w
    ensures IsReplay(run, old(w.files), loginOk, d)
    ensures var cached := RESPONSE_FILE in old(w.files);
      && ReplayFollows(w.script, old(w.clock), run, cached, loginOk, d)
      && w.clock == ReplayEndTick(run, cached, old(w.clock))
    ensures w.steps == old(w.steps) + run.Steps() && w.files == After(old(w.files), run.Steps())
  {
    hide After, IsVerdict, Follows;
    NothingFollows(w.script);
    run, loginOk := Replay([], []), false;
    assert After(w.files, []) == w.files by { AfterNone(w.files); }
    if RESPONSE_FILE !in w.files { return None, run, loginOk; }
    ghost var f := w.files;
    var body := w.files[RESPONSE_FILE];
    var ok := w.Ask();
    loginOk := ok;
    if !ok { return None, run, loginOk; }
    var outcome;
    ghost var t, v: seq<Step> := [], [];
    outcome, t := SubmitAndMark(w, body);
    var last: Disposition;
    match outcome {
      case Submitted =>
        last, v := Conclude(w);
        AfterConcat(f, t, v);
      case HttpError(status) => last := SubmitHttp(status);
      case TransportError(_) => last := SubmitError;
    }
    run := Replay(t, v);
    assert t + [] == t;
    return Some(last), run, loginOk;
  }

  lemma AfterNone(files: Files)
    ensures After(files, []) == files
  {
  }

  // ----- the demo run

  /** The disposition as the text the demo run compares and prints. A verdict is the
      server's own text. */
  function DispositionText(d: Disposition): string {
    match d
    case PersistError => "PERSIST_ERROR"
    case DispatchError => "DISPATCH_ERROR"
    case SubmitHttp(status) => "SUBMIT_HTTP_" + NatText(status)
    case SubmitError => "SUBMIT_ERROR"
    case PollError => "POLL_ERROR"
    case Verdict(text) => text
  }

  /** The replay is started by the text alone: after a transport error, and after a
      verdict that the server happens to spell the same way. */
  lemma ReplayStartsIff(d: Disposition)
    ensures DispositionText(d) == "SUBMIT_ERROR" <==> d == SubmitError || d == Verdict("SUBMIT_ERROR")
  {
    if d.SubmitHttp? {
      assert ("SUBMIT_HTTP_" + NatText(d.status))[7] == 'H' && "SUBMIT_ERROR"[7] == 'E';
    } else if d.PersistError? || d.DispatchError? || d.PollError? {
      assert "PERSIST_ERROR"[0] == 'P' && "DISPATCH_ERROR"[0] == 'D' && "POLL_ERROR"[0] == 'P' && "SUBMIT_ERROR"[0] == 'S';
      assert DispositionText(d)[0] != 'S';
    }
  }

  /** A disposition text that counts as a harness error in the session summary. */
  predicate IsErrorText(text: string) {
    || "DISPATCH_ERROR" <= text || "FETCH_ERROR" <= text || "PARSE_ERROR" <= text || "PERSIST_ERROR" <= text
    || "SUBMIT_" <= text || "RETRY_TIMEOUT" <= text || "POLL_ERROR" <= text || "HTTP_" <= text
  }

  /** The status the file shows, or `SUBMITTED` when it cannot be read. */
  function StatusShown(files: Files): string {
    if STATUS_FILE in files then Trim(files[STATUS_FILE]) else STATUS_SUBMITTED
  }

  /** One vector set of a demo run: its run, and the automatic replay if there was one. */
  datatype Recovery = Recovery(run: Run, first: Disposition, replay: Replay, again: Option<Disposition>, loginOk: bool, transcriptOk: bool) {
    function Steps(): seq<Step> {
      run.Steps() + replay.Steps()
    }

    /** The replay reached a disposition that is no error. */
    predicate Recovered() {
      again.Some? && !IsErrorText(DispositionText(again.value)) && transcriptOk
    }
  }

  predicate IsRecovery(c: Recovery, files: Files, prompt: string, token: string, response: Option<string>, d: Disposition) {
    && IsSubmitRun(c.run, prompt, token, response, c.first)
    && (if DispositionText(c.first) == "SUBMIT_ERROR" then
          && IsReplay(c.replay, After(files, c.run.Steps()), c.loginOk, c.again)
          && d == if c.Recovered() then Verdict(StatusShown(After(files, c.Steps()))) else c.first
        else c.replay == Replay([], []) && d == c.first)
  }

  /** The run, the replay and the transcript are what the script makes of them. */
  predicate RecoveryFollows(script: Script, t: nat, c: Recovery, files: Files) {
    && RunFollows(script, t, c.run, c.first)
    && (DispositionText(c.first) == "SUBMIT_ERROR" ==>
          var cached := RESPONSE_FILE in After(files, c.run.Steps());
          && ReplayFollows(script, EndTick(c.run, t), c.replay, cached, c.loginOk, c.again)
          && c.transcriptOk == script.answers(ReplayEndTick(c.replay, cached, EndTick(c.run, t))))
  }

  /** The demo run's treatment of one vector set: one automatic replay when the
      disposition reads `SUBMIT_ERROR`. */
  method ProcessWithRecovery(w: World, prompt: string, token: string, response: Option<string>)
    returns (d: Disposition, ghost c: Recovery)
    modifies w
    ensures IsRecovery(c, old(w.files), prompt, token, response, d)
    ensures RecoveryFollows(w.script, old(w.clock), c, old(w.files))
    ensures w.steps == old(w.steps) + c.Steps() && w.files == After(old(w.files), c.Steps())
  {
    hide After, IsSubmitRun, IsReplay, IsErrorText, DispositionText, RunFollows, ReplayFollows, EndTick, ReplayEndTick;
    ghost var f, run, replay, loginOk := w.files, Run([], [], [], [], [], [], false, false), Replay([], []), false;
    d, run := ProcessVectorSet(w, prompt, token, response);
    c := Recovery(run, d, replay, None, false, false);
    assert c.Steps() == run.Steps();
    if DispositionText(d) == "SUBMIT_ERROR" {
      var again;
      again, replay, loginOk := Resubmit(w);
      AfterConcat(f, run.Steps(), replay.Steps());
      var transcriptOk := w.Ask();
      c := Recovery(run, d, replay, again, loginOk, transcriptOk);
      if again.Some? && !IsErrorText(DispositionText(again.value)) && transcriptOk {
        d := Verdict(StatusShown(w.files));
      }
    }
  }
}
