/** Polling a data file until it is finished. The other side is an arbitrary infinite
    script of passes; the loop keeps three counters, and the results here say what it
    does in terms of the script alone. */
module Poll {
  import opened Prelude
  import opened JsonLite
  import opened PollStatus

  /** What one pass of the loop meets: the token provider's answer, then the reply. */
  datatype Pass = Pass(token: Result<string, string>, reply: Reply)

  datatype Reply = NoReply | Response(status: nat, body: string)

  type Script = nat -> Pass

  datatype Config = Config(maxNotYet: u32, maxTotal: u32, maxTransient: u32)

  datatype PollError =
    | TokenRefused(message: string)
    | PollTimeout(polls: nat)
    | NotYetProcessedTimeout(polls: nat)
    | TransientFailuresExhausted(failures: nat)
    | UnrecognizedStatus(raw: string)
    | ServerError
    | MalformedResponse

  datatype DataFileResult = DataFileResult(id: Option<string>, status: Terminal, assessment: Option<string>)

  type Outcome = Result<DataFileResult, PollError>

  /** Which of the two configured waits was slept. */
  datatype Wait = NotYetWait | ProcessingWait

  // ----- reading one reply

  function AsString(v: Option<LiteValue>): Option<string> {
    if v.Some? && v.value.String? then Some(v.value.s) else None
  }

  /** The payload of the versioned envelope: at least two elements, the first an
      object with a textual `esvVersion`. */
  function PayloadElement(v: LiteValue): Option<LiteValue> {
    if v.Array? && |v.items| >= 2 && AsString(Get(v.items[0], "esvVersion")).Some? then Some(v.items[1])
    else None
  }

  /** The payload of a body, if the body parses and is an envelope. */
  function Payload(body: string): Option<LiteValue> {
    match Parse(body)
    case Err(_) => None
    case Ok(v) => PayloadElement(v)
  }

  function IdText(v: Option<LiteValue>): Option<string> {
    if v.Some? && v.value.String? then Some(v.value.s)
    else if v.Some? && v.value.Number? then Some(v.value.raw)
    else None
  }

  function StatusAbsentError(payload: LiteValue, httpStatus: nat): PollError {
    if AsString(Get(payload, "error")).Some? then ServerError
    else if !(200 <= httpStatus < 300) then ServerError
    else MalformedResponse
  }

  /** What a pass amounts to for the loop. */
  datatype Observation =
    | Transient
    | NotYet
    | Processing
    | Final(outcome: Outcome)

  function ObservePayload(payload: LiteValue, httpStatus: nat, body: string): (o: Observation)
    ensures !o.Transient?
  {
    match GetUnique(payload, "status")
    case Err(_) => Final(Err(MalformedResponse))
    case Ok(field) =>
      match AsString(field)
      case None => Final(Err(StatusAbsentError(payload, httpStatus)))
      case Some(raw) =>
        match GetUnique(payload, "id")
        case Err(_) => Final(Err(MalformedResponse))
        case Ok(id) =>
          match PollDecision(Classify(raw))
          case Stop(t) =>
            Final(Ok(DataFileResult(IdText(id), t, if t.TerminalSuccess? then Some(body) else None)))
          case WaitNotYetProcessed => NotYet
          case WaitProcessing => Processing
          case Unknown => Final(Err(UnrecognizedStatus(raw)))
  }

  function ObserveReply(r: Reply): Observation {
    match r
    case NoReply => Transient
    case Response(status, body) =>
      match Payload(body)
      case None => Transient
      case Some(payload) => ObservePayload(payload, status, body)
  }

  function Observe(p: Pass): Observation {
    match p.token
    case Err(message) => Final(Err(TokenRefused(message)))
    case Ok(_) => ObserveReply(p.reply)
  }

  /** The observations of a script, pass by pass. */
  function Seen(s: Script): nat -> Observation {
    (k: nat) => Observe(s(k))
  }

  // ----- counting in a stream of observations

  /** Not-yet-processed replies in passes [from, end). */
  function NotYets(o: nat -> Observation, from: nat, end: nat): (n: nat)
    requires from <= end
    ensures n <= end - from
    decreases end
  {
    if from == end then 0
    else NotYets(o, from, end - 1) + (if o(end - 1).NotYet? then 1 else 0)
  }

  /** One past the last processing reply before pass `k`. */
  function SinceProcessing(o: nat -> Observation, k: nat): (j: nat)
    ensures j <= k
    ensures j > 0 ==> o(j - 1).Processing?
    ensures forall i :: j <= i < k ==> !o(i).Processing?
  {
    if k == 0 || o(k - 1).Processing? then k else SinceProcessing(o, k - 1)
  }

  /** One past the last pass before `k` that was no transient failure. */
  function SinceEnvelope(o: nat -> Observation, k: nat): (j: nat)
    ensures j <= k
    ensures j > 0 ==> !o(j - 1).Transient?
    ensures forall i :: j <= i < k ==> o(i).Transient?
  {
    if k == 0 || !o(k - 1).Transient? then k else SinceEnvelope(o, k - 1)
  }

  /** How pass `k` ends the poll, if it does. */
  function Ending(c: Config, o: nat -> Observation, k: nat): Option<Outcome> {
    if k >= c.maxTotal then Some(Err(PollTimeout(k)))
    else
      match o(k)
      case Final(outcome) => Some(outcome)
      case Transient =>
        if k + 1 - SinceEnvelope(o, k) > c.maxTransient then Some(Err(TransientFailuresExhausted(c.maxTransient))) else None
      case NotYet =>
        var before := NotYets(o, SinceProcessing(o, k), k);
        if before >= c.maxNotYet then Some(Err(NotYetProcessedTimeout(before))) else None
      case Processing => None
  }

  /** The first pass from `k` on that ends the poll. */
  function LastPass(c: Config, o: nat -> Observation, k: nat): (n: nat)
    requires k <= c.maxTotal
    ensures k <= n <= c.maxTotal
    ensures Ending(c, o, n).Some?
    ensures forall i :: k <= i < n ==> Ending(c, o, i).None?
    decreases c.maxTotal - k
  {
    if Ending(c, o, k).Some? then k else LastPass(c, o, k + 1)
  }

  /** What the poll returns on the observations. */
  function Verdict(c: Config, o: nat -> Observation): Outcome {
    Ending(c, o, LastPass(c, o, 0)).value
  }

  function WaitAfter(o: Observation): Wait {
    if o.NotYet? then NotYetWait else ProcessingWait
  }

  /** The sleeps of the first `n` passes: one each. */
  function Waits(o: nat -> Observation, n: nat): (w: seq<Wait>)
    ensures |w| == n
    ensures forall i :: 0 <= i < n ==> w[i] == WaitAfter(o(i))
  {
    if n == 0 then [] else Waits(o, n - 1) + [WaitAfter(o(n - 1))]
  }

  /** The bearers of the first `n` passes: each pass's own token. */
  function Bearers(s: Script, n: nat): (b: seq<string>)
    ensures |b| <= n
    ensures (forall i: nat :: i < n ==> s(i).token.Ok?) ==> |b| == n && forall i: nat :: i < n ==> b[i] == s(i).token.value
  {
    if n == 0 then []
    else if s(n - 1).token.Ok? then Bearers(s, n - 1) + [s(n - 1).token.value]
    else Bearers(s, n - 1)
  }

  // ----- the loop

  /** Token provider, transport and sleeper, playing one script. */
  class World {
    const script: Script
    var pass: nat
    var sent: seq<string>
    var slept: seq<Wait>

    constructor (script: Script)
      ensures this.script == script && pass == 0 && sent == [] && slept == []
    {
      this.script := script;
      pass, sent, slept := 0, [], [];
    }

    method Token() returns (t: Result<string, string>)
      ensures t == script(pass).token
    {
      t := script(pass).token;
    }

    method Get(bearer: string) returns (r: Reply)
      modifies this`pass, this`sent
      ensures r == script(old(pass)).reply
      ensures pass == old(pass) + 1 && sent == old(sent) + [bearer]
    {
      r := script(pass).reply;
      pass, sent := pass + 1, sent + [bearer];
    }

    method Sleep(w: Wait)
      modifies this`slept
      ensures slept == old(slept) + [w]
    {
      slept := slept + [w];
    }
  }

  /** The part of a pass after the envelope: the strict reads and the classification. */
  method ReadPayload(payload: LiteValue, httpStatus: nat, body: string) returns (o: Observation)
    ensures o == ObservePayload(payload, httpStatus, body)
  {
    var status := GetUniqueMember(payload, "status");
    if status.Err? {
      return Final(Err(MalformedResponse));
    }
    var raw := AsString(status.value);
    if raw.None? {
      return Final(Err(StatusAbsentError(payload, httpStatus)));
    }
    var id := GetUniqueMember(payload, "id");
    if id.Err? {
      return Final(Err(MalformedResponse));
    }
    match PollDecision(Classify(raw.value))
    case Stop(t) =>
      return Final(Ok(DataFileResult(IdText(id.value), t, if t.TerminalSuccess? then Some(body) else None)));
    case WaitNotYetProcessed => return NotYet;
    case WaitProcessing => return Processing;
    case Unknown => return Final(Err(UnrecognizedStatus(raw.value)));
  }

  /** Passes whose body was entered: the one that ends the poll too, unless the total
      was already used up. */
  function PassesEntered(c: Config, o: nat -> Observation): nat {
    if LastPass(c, o, 0) == c.maxTotal then c.maxTotal else LastPass(c, o, 0) + 1
  }

  /** The loop's variables after `k` passes that did not end the poll. */
  ghost predicate Tracks(s: Script, k: nat, nyp: nat, transient: nat, slept: seq<Wait>, sent: seq<string>) {
    && nyp <= k && transient <= k
    && nyp == NotYets(Seen(s), SinceProcessing(Seen(s), k), k)
    && transient == k - SinceEnvelope(Seen(s), k)
    && slept == Waits(Seen(s), k)
    && sent == Bearers(s, k)
  }

  lemma TracksStart(s: Script)
    ensures Tracks(s, 0, 0, 0, [], [])
  {
  }

  lemma Tracked(s: Script, k: nat, nyp: nat, transient: nat, slept: seq<Wait>, sent: seq<string>)
    requires Tracks(s, k, nyp, transient, slept, sent)
    ensures nyp <= k && transient <= k && slept == Waits(Seen(s), k) && sent == Bearers(s, k)
  {
  }

  /** One more pass, for each kind that lets the poll go on. */
  lemma TracksStep(s: Script, k: nat, nyp: nat, transient: nat, slept: seq<Wait>, sent: seq<string>)
    requires Tracks(s, k, nyp, transient, slept, sent) && s(k).token.Ok?
    ensures var more := sent + [s(k).token.value];
      && more == Bearers(s, k + 1)
      && match Observe(s(k)) {
           case Transient => Tracks(s, k + 1, nyp, transient + 1, slept + [ProcessingWait], more)
           case NotYet => Tracks(s, k + 1, nyp + 1, 0, slept + [NotYetWait], more)
           case Processing => Tracks(s, k + 1, 0, 0, slept + [ProcessingWait], more)
           case Final(_) => true
         }
  {
    hide Observe;
  }

  /** How a pass ends the poll, read off the loop's variables. */
  lemma EndsHere(c: Config, s: Script, k: nat, nyp: nat, transient: nat, slept: seq<Wait>, sent: seq<string>)
    requires Tracks(s, k, nyp, transient, slept, sent) && k <= LastPass(c, Seen(s), 0)
    ensures k <= c.maxTotal
    ensures var o, seen := Seen(s), Observe(s(k));
      var ending :=
        if k == c.maxTotal then Some(Err(PollTimeout(k)))
        else if seen.Final? then Some(seen.outcome)
        else if seen.Transient? && transient + 1 > c.maxTransient then Some(Err(TransientFailuresExhausted(c.maxTransient)))
        else if seen.NotYet? && nyp >= c.maxNotYet then Some(Err(NotYetProcessedTimeout(nyp)))
        else None;
      && (ending.Some? <==> k == LastPass(c, o, 0))
      && (ending.Some? ==> Verdict(c, o) == ending.value)
      && (ending.Some? ==> PassesEntered(c, o) == if k == c.maxTotal then k else k + 1)
  {
    hide Observe, NotYets, SinceProcessing, SinceEnvelope, Waits, Bearers;
    assert Seen(s)(k) == Observe(s(k));
    assert Ending(c, Seen(s), k).Some? <==> k == LastPass(c, Seen(s), 0);
  }

  lemma RefusedBearer(s: Script, k: nat)
    requires s(k).token.Err?
    ensures Bearers(s, k + 1) == Bearers(s, k)
  {
  }

  method PollDataFile(c: Config, w: World) returns (r: Outcome)
    requires w.pass == 0 && w.sent == [] && w.slept == []
    modifies w
    ensures r == Verdict(c, Seen(w.script))
    ensures w.slept == Waits(Seen(w.script), LastPass(c, Seen(w.script), 0))
    ensures w.sent == Bearers(w.script, PassesEntered(c, Seen(w.script)))
  {
    hide Tracks, LastPass, ObservePayload, Bearers, Waits, Payload, Seen, Verdict, PassesEntered;
    ghost var s := w.script;
    ghost var end := LastPass(c, Seen(s), 0);
    var consecutiveNyp: u32, consecutiveTransient: u32, totalPolls: u32 := 0, 0, 0;
    TracksStart(s);
    while true
      invariant totalPolls <= end && w.pass == totalPolls
      invariant Tracks(s, totalPolls, consecutiveNyp, consecutiveTransient, w.slept, w.sent)
      decreases end - totalPolls
    {
      Tracked(s, totalPolls, consecutiveNyp, consecutiveTransient, w.slept, w.sent);
      EndsHere(c, s, totalPolls, consecutiveNyp, consecutiveTransient, w.slept, w.sent);
      if totalPolls >= c.maxTotal {
        return Err(PollTimeout(totalPolls));
      }
      var token := w.Token();
      if token.Err? {
        RefusedBearer(s, totalPolls);
        return Err(TokenRefused(token.error));
      }
      TracksStep(s, totalPolls, consecutiveNyp, consecutiveTransient, w.slept, w.sent);
      totalPolls := SaturatingAdd(totalPolls, 1, TWO_32 - 1);
      var reply := w.Get(token.value);
      var payload := if reply.Response? then Payload(reply.body) else None;
      if payload.None? {
        consecutiveTransient := SaturatingAdd(consecutiveTransient, 1, TWO_32 - 1);
        if consecutiveTransient > c.maxTransient {
          return Err(TransientFailuresExhausted(c.maxTransient));
        }
        w.Sleep(ProcessingWait);
        continue;
      }
      consecutiveTransient := 0;
      var seen := ReadPayload(payload.value, reply.status, reply.body);
      match seen
      case Final(outcome) =>
        return outcome;
      case NotYet =>
        if consecutiveNyp >= c.maxNotYet {
          return Err(NotYetProcessedTimeout(consecutiveNyp));
        }
        consecutiveNyp := SaturatingAdd(consecutiveNyp, 1, TWO_32 - 1);
        w.Sleep(NotYetWait);
      case Processing =>
        consecutiveNyp := 0;
        w.Sleep(ProcessingWait);
    }
  }
}
