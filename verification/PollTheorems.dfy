/** What polling guarantees against every script: where it stops, why, and what it
    hands back, stated on windows of the script instead of the loop's counters. */
module PollTheorems {
  import opened Prelude
  import opened JsonLite
  import opened PollStatus
  import opened Poll

  /** The last `maxTransient` + 1 passes up to `k` all failed transiently. */
  predicate TransientWindow(c: Config, o: nat -> Observation, k: nat) {
    c.maxTransient <= k && forall i :: k - c.maxTransient <= i <= k ==> o(i).Transient?
  }

  predicate NoProcessing(o: nat -> Observation, from: nat, end: nat) {
    forall i :: from <= i < end ==> !o(i).Processing?
  }

  /** Pass `k` is a not-yet-processed reply, the last of `maxNotYet` + 1 with no
      processing reply among them. Transient failures may stand between. */
  ghost predicate NotYetWindow(c: Config, o: nat -> Observation, k: nat) {
    o(k).NotYet? && exists j :: 0 <= j <= k && OverCap(c, o, j, k)
  }

  predicate OverCap(c: Config, o: nat -> Observation, from: nat, k: nat)
    requires from <= k
  {
    NoProcessing(o, from, k + 1) && NotYets(o, from, k + 1) == c.maxNotYet + 1
  }

  // ----- the counters say what the windows say

  lemma TransientEnds(c: Config, o: nat -> Observation, k: nat)
    requires o(k).Transient?
    ensures k + 1 - SinceEnvelope(o, k) > c.maxTransient <==> TransientWindow(c, o, k)
  {
    hide SinceEnvelope;
    var j := SinceEnvelope(o, k);
    if k + 1 - j > c.maxTransient {
      assert forall i :: k - c.maxTransient <= i <= k ==> o(i).Transient?;
    } else if j > 0 {
      assert !o(j - 1).Transient?;
    }
  }

  lemma {:induction false} NotYetsGrow(o: nat -> Observation, i: nat, j: nat, k: nat)
    requires i <= j <= k
    ensures NotYets(o, j, k) <= NotYets(o, i, k)
    decreases k
  {
    if j < k {
      NotYetsGrow(o, i, j, k - 1);
    }
  }

  /** Starting a window earlier passes through every smaller count on the way. */
  lemma {:induction false} NotYetsReach(o: nat -> Observation, j: nat, k: nat, n: nat) returns (i: nat)
    requires j <= k && n <= NotYets(o, j, k)
    ensures j <= i <= k && NotYets(o, i, k) == n
    decreases k - j
  {
    if NotYets(o, j, k) == n {
      i := j;
    } else {
      NotYetsHead(o, j, k);
      i := NotYetsReach(o, j + 1, k, n);
    }
  }

  lemma {:induction false} NotYetsHead(o: nat -> Observation, j: nat, k: nat)
    requires j < k
    ensures NotYets(o, j, k) == (if o(j).NotYet? then 1 else 0) + NotYets(o, j + 1, k)
    decreases k
  {
    if j + 1 < k {
      NotYetsHead(o, j, k - 1);
    }
  }

  lemma NotYetEnds(c: Config, o: nat -> Observation, k: nat)
    requires o(k).NotYet?
    ensures NotYets(o, SinceProcessing(o, k), k) >= c.maxNotYet <==> NotYetWindow(c, o, k)
  {
    var j := SinceProcessing(o, k);
    assert NotYets(o, j, k + 1) == NotYets(o, j, k) + 1;
    if NotYets(o, j, k) >= c.maxNotYet {
      var i := NotYetsReach(o, j, k + 1, c.maxNotYet + 1);
      assert i <= k by { assert NotYets(o, k + 1, k + 1) == 0; }
      assert OverCap(c, o, i, k);
    }
    if NotYetWindow(c, o, k) {
      var i :| 0 <= i <= k && OverCap(c, o, i, k);
      assert j <= i by { assert j > 0 ==> o(j - 1).Processing?; }
      NotYetsGrow(o, j, i, k + 1);
    }
  }

  /** A pass ends the poll exactly when the total is used up, the pass itself is
      decisive, or it completes a window; and each of these has its own outcome. */
  lemma EndsIff(c: Config, o: nat -> Observation, k: nat)
    ensures Ending(c, o, k).Some? <==>
      (k >= c.maxTotal || o(k).Final? || TransientWindow(c, o, k) || NotYetWindow(c, o, k))
    ensures k < c.maxTotal && o(k).Final? ==> Ending(c, o, k) == Some(o(k).outcome)
    ensures k < c.maxTotal && TransientWindow(c, o, k) ==> Ending(c, o, k) == Some(Err(TransientFailuresExhausted(c.maxTransient)))
    ensures k < c.maxTotal && NotYetWindow(c, o, k) ==>
      Ending(c, o, k) == Some(Err(NotYetProcessedTimeout(NotYets(o, SinceProcessing(o, k), k))))
  {
    hide NotYets, SinceProcessing, SinceEnvelope, NotYetWindow;
    assert NotYetWindow(c, o, k) ==> o(k).NotYet? by { WindowIsNotYet(c, o, k); }
    assert TransientWindow(c, o, k) ==> o(k).Transient?;
    if o(k).Transient? {
      TransientEnds(c, o, k);
    } else if o(k).NotYet? {
      NotYetEnds(c, o, k);
    }
  }

  lemma WindowIsNotYet(c: Config, o: nat -> Observation, k: nat)
    ensures NotYetWindow(c, o, k) ==> o(k).NotYet?
  {
  }

  /** While the poll goes on the count since the last processing reply stays within
      the cap, so the timeout reports the cap itself. */
  lemma {:induction false} NotYetCap(c: Config, o: nat -> Observation, k: nat)
    requires forall i :: 0 <= i < k ==> Ending(c, o, i).None?
    ensures NotYets(o, SinceProcessing(o, k), k) <= c.maxNotYet
  {
    if k > 0 {
      NotYetCap(c, o, k - 1);
      assert Ending(c, o, k - 1).None?;
    }
  }

  // ----- what the final pass returns

  predicate LoopError(r: Outcome) {
    r.Err? && (r.error.PollTimeout? || r.error.NotYetProcessedTimeout? || r.error.TransientFailuresExhausted?)
  }

  lemma FinalIsNoLoopError(p: Pass)
    ensures Observe(p).Final? ==> !LoopError(Observe(p).outcome)
  {
    hide Classify, Payload;
  }

  /** The body is a JSON array whose second element is the payload and whose first
      is an object that names its version. */
  ghost predicate IsEnvelope(body: string, payload: LiteValue) {
    exists first: seq<LiteMember>, rest: seq<LiteValue>, version: string ::
      Parse(body) == Ok(Array([Object(first), payload] + rest)) && First(first, "esvVersion") == Some(String(version))
  }

  lemma PayloadIff(body: string, payload: LiteValue)
    ensures Payload(body) == Some(payload) <==> IsEnvelope(body, payload)
  {
    hide Parse, First;
    if Payload(body) == Some(payload) {
      var v := Parse(body).value;
      var first := v.items[0].members;
      assert v.items == [Object(first), payload] + v.items[2..];
      assert First(first, "esvVersion") == Some(String(First(first, "esvVersion").value.s));
    }
    if IsEnvelope(body, payload) {
      var first: seq<LiteMember>, rest: seq<LiteValue>, version: string :|
        Parse(body) == Ok(Array([Object(first), payload] + rest)) && First(first, "esvVersion") == Some(String(version));
      var items := [Object(first), payload] + rest;
      assert items[0] == Object(first) && items[1] == payload;
    }
  }

  /** Only a well-formed envelope ends a run of transient failures: a pass is
      transient exactly when its token was granted and no envelope came back. */
  lemma TransientIff(p: Pass)
    ensures Observe(p).Transient? <==>
      p.token.Ok? && (p.reply.NoReply? || forall payload :: !IsEnvelope(p.reply.body, payload))
  {
    hide IsEnvelope, Payload, ObservePayload;
    if p.reply.Response? {
      forall payload ensures Payload(p.reply.body) == Some(payload) <==> IsEnvelope(p.reply.body, payload) {
        PayloadIff(p.reply.body, payload);
      }
    }
  }

  /** The poll stops within the allowed total on every script, and why it stopped is
      decided by the first window or decisive pass. */
  lemma VerdictByWindow(c: Config, s: Script)
    ensures var o, n := Seen(s), LastPass(c, Seen(s), 0);
      && n <= c.maxTotal
      && (forall k :: 0 <= k < n ==> !o(k).Final? && !TransientWindow(c, o, k) && !NotYetWindow(c, o, k))
      && (Verdict(c, o) == Err(PollTimeout(c.maxTotal)) <==> n == c.maxTotal)
      && (Verdict(c, o) == Err(NotYetProcessedTimeout(c.maxNotYet)) <==> n < c.maxTotal && NotYetWindow(c, o, n))
      && (Verdict(c, o) == Err(TransientFailuresExhausted(c.maxTransient)) <==> n < c.maxTotal && TransientWindow(c, o, n))
      && (!LoopError(Verdict(c, o)) <==> n < c.maxTotal && o(n).Final?)
      && (n < c.maxTotal && o(n).Final? ==> Verdict(c, o) == o(n).outcome)
  {
    hide Observe, NotYets, SinceProcessing, SinceEnvelope, NotYetWindow, TransientWindow, Ending;
    var o, n := Seen(s), LastPass(c, Seen(s), 0);
    forall k | 0 <= k < n ensures !o(k).Final? && !TransientWindow(c, o, k) && !NotYetWindow(c, o, k) {
      EndsIff(c, o, k);
    }
    EndsIff(c, o, n);
    FinalPass(c, s, n);
  }

  lemma FinalPass(c: Config, s: Script, n: nat)
    requires n == LastPass(c, Seen(s), 0)
    ensures n == c.maxTotal ==> Verdict(c, Seen(s)) == Err(PollTimeout(c.maxTotal))
    ensures n < c.maxTotal && NotYetWindow(c, Seen(s), n) ==> Verdict(c, Seen(s)) == Err(NotYetProcessedTimeout(c.maxNotYet))
    ensures n < c.maxTotal && Seen(s)(n).Final? ==> !LoopError(Verdict(c, Seen(s)))
  {
    hide Observe, NotYets, SinceProcessing, SinceEnvelope, NotYetWindow;
    FinalIsNoLoopError(s(n));
    assert Seen(s)(n) == Observe(s(n));
    NotYetCap(c, Seen(s), n);
    EndsIff(c, Seen(s), n);
    if n < c.maxTotal && NotYetWindow(c, Seen(s), n) {
      WindowIsNotYet(c, Seen(s), n);
      NotYetEnds(c, Seen(s), n);
    }
  }

  /** Waits and requests: one wait after each pass but the one that ends the poll,
      or one per request when the total is used up; never more than `maxTotal`
      requests, and each carries the token its own pass was given. */
  lemma Effects(c: Config, s: Script)
    ensures var o := Seen(s);
      var waits, sent, n := Waits(o, LastPass(c, o, 0)), Bearers(s, PassesEntered(c, o)), PassesEntered(c, o);
      && |waits| == (if Verdict(c, o) == Err(PollTimeout(c.maxTotal)) then |sent| else n - 1)
      && n <= c.maxTotal && |sent| <= n
      && (forall i :: 0 <= i < |waits| ==> (waits[i] == NotYetWait <==> o(i).NotYet?))
      && (forall i :: 0 <= i < |sent| ==> s(i).token == Ok(sent[i]))
      && (|sent| == n || (|sent| == n - 1 && s(n - 1).token.Err?))
  {
    hide Waits, Bearers, NotYets, SinceProcessing, SinceEnvelope, NotYetWindow, TransientWindow, ObserveReply, Ending;
    var o, n := Seen(s), LastPass(c, Seen(s), 0);
    VerdictByWindow(c, s);
    forall i: nat | i < n ensures s(i).token.Ok? {
      assert !o(i).Final? && o(i) == Observe(s(i));
    }
    OneMoreBearer(s, n);
  }

  lemma OneMoreBearer(s: Script, n: nat)
    requires forall i: nat :: i < n ==> s(i).token.Ok?
    ensures |Bearers(s, n)| == n && forall i: nat :: i < n ==> s(i).token == Ok(Bearers(s, n)[i])
    ensures s(n).token.Err? ==> Bearers(s, n + 1) == Bearers(s, n)
    ensures s(n).token.Ok? ==> Bearers(s, n + 1) == Bearers(s, n) + [s(n).token.value]
  {
  }

  /** A returned result comes from an envelope with exactly one `status`, one of the
      documented spellings of a terminal state, and at most one `id`. A success
      carries that response body, untouched; a failure carries none. */
  lemma ResultIsFaithful(c: Config, s: Script)
    requires Verdict(c, Seen(s)).Ok?
    ensures var d, n := Verdict(c, Seen(s)).value, LastPass(c, Seen(s), 0);
      exists payload, raw ::
        && n < c.maxTotal && s(n).token.Ok? && s(n).reply.Response?
        && IsEnvelope(s(n).reply.body, payload) && payload.Object?
        && KeyCount(payload.members, "status") == 1 && First(payload.members, "status") == Some(String(raw))
        && Words(Folded(raw)) in Spelling(StateOf(d.status))
        && KeyCount(payload.members, "id") <= 1
        && d.id == (match First(payload.members, "id")
                    case Some(String(t)) => Some(t)
                    case Some(Number(token)) => Some(token)
                    case _ => None)
        && d.assessment == if d.status.TerminalSuccess? then Some(s(n).reply.body) else None
  {
    hide NotYets, SinceProcessing, SinceEnvelope, NotYetWindow, TransientWindow, LastPass, Ending, Verdict, Parse, Payload, IsEnvelope;
    hide Words, Folded, Spelling, Classify, KeyCount;
    var d, n := Verdict(c, Seen(s)).value, LastPass(c, Seen(s), 0);
    VerdictByWindow(c, s);
    assert Observe(s(n)) == Final(Ok(d));
    var payload := Payload(s(n).reply.body).value;
    PayloadIff(s(n).reply.body, payload);
    ObservedResult(payload, s(n).reply.status, s(n).reply.body, d);
    var raw := First(payload.members, "status").value.s;
    assert First(payload.members, "status") == Some(String(raw));
    ClassifiedByWords(raw, StateOf(d.status));
  }

  function StateOf(t: Terminal): Status {
    match t
    case TerminalSuccess => RunSuccessful
    case TerminalFailed => RunFailed
    case TerminalCancelled => RunCancelled
    case TerminalError => Error
  }

  lemma ObservedResult(payload: LiteValue, httpStatus: nat, body: string, d: DataFileResult)
    requires ObservePayload(payload, httpStatus, body) == Final(Ok(d))
    ensures payload.Object? && KeyCount(payload.members, "status") == 1 && KeyCount(payload.members, "id") <= 1
    ensures First(payload.members, "status").Some? && First(payload.members, "status").value.String?
    ensures Classify(First(payload.members, "status").value.s) == StateOf(d.status)
    ensures d.id == IdText(Get(payload, "id"))
    ensures d.assessment == if d.status.TerminalSuccess? then Some(body) else None
  {
    hide Classify, KeyCount, First;
  }

  /** A server that keeps answering, alternating its two waiting states, never gets
      past the total, whatever the other caps. */
  lemma AlternatingTimesOut(c: Config, s: Script)
    requires c.maxNotYet > 0
    requires forall k: nat :: Observe(s(k)) == if k % 2 == 0 then Processing else NotYet
    ensures Verdict(c, Seen(s)) == Err(PollTimeout(c.maxTotal))
  {
    hide Observe, NotYetWindow, TransientWindow, LastPass, Verdict, Ending;
    var o, n := Seen(s), LastPass(c, Seen(s), 0);
    VerdictByWindow(c, s);
    assert forall k: nat :: o(k) == Observe(s(k));
    EndsIff(c, o, n);
    TransientNow(c, o, n);
    NoAlternatingWindow(c, o, n);
  }

  lemma NoAlternatingWindow(c: Config, o: nat -> Observation, k: nat)
    requires c.maxNotYet > 0
    requires forall i: nat :: o(i) == if i % 2 == 0 then Processing else NotYet
    ensures !NotYetWindow(c, o, k)
  {
    hide NotYetWindow;
    WindowIsNotYet(c, o, k);
    if o(k).NotYet? {
      assert o(k - 1).Processing?;
      NotYetEnds(c, o, k);
    }
  }

  lemma TransientNow(c: Config, o: nat -> Observation, k: nat)
    ensures TransientWindow(c, o, k) ==> o(k).Transient?
  {
  }
}
