/** The ESV session: one bearer token, refreshed when it is old and again when the
    server rejects it. The network, the sleeper, the clock and the TOTP generator are
    one scripted object that keeps a log of every exchange; every result here is
    stated on that log. */
module EsvSession {
  import opened Prelude
  import opened EsvAuth

  const LOGIN_PATH := "/esv/v1/login"
  const BULK_REFRESH_PATH := "/esv/v1/login/refresh"
  const RETRY_CAP: nat := 3
  const REUSE_WAIT: nat := 10
  const U32_MAX: nat := 0xFFFF_FFFF

  datatype Answer = Answer(status: nat, body: string)

  datatype Request = Request(verb: string, path: string, body: Option<string>, bearer: string)

  /** Who sent a request: the TOTP-signed login flow, a bulk refresh, or the session's
      caller. */
  datatype Purpose = Signing | BulkRefreshing | Caller

  /** One transport call: what was sent, what came back (nothing on a transport
      error), how many waits had been slept before it, and when it returned. */
  datatype Exchange = Exchange(purpose: Purpose, request: Request, answer: Option<Answer>, waited: nat, at: nat)

  predicate IsSuccess(status: nat) {
    200 <= status < 300
  }

  predicate IsAuthRejection(status: nat) {
    status == 401 || status == 403
  }

  predicate Contains(s: string, part: string) {
    exists i: nat :: i <= |s| && At(s, i, part)
  }

  predicate IsWindowReuse(a: Answer) {
    a.status == 403 && Contains(a.body, TOTP_REUSE_TEXT)
  }

  class World {
    const answers: nat -> Option<Answer>
    const delays: nat -> nat
    const codes: nat -> Option<string>
    var log: seq<Exchange>
    var waits: nat
    var codesRead: nat
    var now: nat

    constructor (answers: nat -> Option<Answer>, delays: nat -> nat, codes: nat -> Option<string>, now: nat)
      ensures this.answers == answers && this.delays == delays && this.codes == codes
      ensures log == [] && waits == 0 && codesRead == 0 && this.now == now
    {
      this.answers, this.delays, this.codes := answers, delays, codes;
      log, waits, codesRead, this.now := [], 0, 0, now;
    }

    method Send(purpose: Purpose, request: Request) returns (a: Option<Answer>)
      modifies this`log, this`now
      ensures a == answers(|old(log)|) && now >= old(now)
      ensures log == old(log) + [Exchange(purpose, request, a, waits, now)]
    {
      a := answers(|log|);
      now := now + delays(|log|);
      log := log + [Exchange(purpose, request, a, waits, now)];
    }

    method Sleep(seconds: nat)
      modifies this`waits, this`now
      ensures waits == old(waits) + 1 && now == old(now) + seconds
    {
      waits, now := waits + 1, now + seconds;
    }

    method Totp() returns (code: Option<string>)
      modifies this`codesRead
      ensures code == codes(old(codesRead)) && codesRead == old(codesRead) + 1
    {
      code := codes(codesRead);
      codesRead := codesRead + 1;
    }
  }

  // ----- what a log says

  /** The exchange handed out a token: a signed request answered 2xx with a readable one. */
  predicate Grants(x: Exchange) {
    x.purpose.Signing? && x.answer.Some? && IsSuccess(x.answer.value.status) && AccessToken(x.answer.value.body).Some?
  }

  /** The exchange refused the embedded token, for another reason than a used window. */
  predicate Refuses(x: Exchange) {
    x.purpose.Signing? && x.answer.Some? && IsAuthRejection(x.answer.value.status) && !IsWindowReuse(x.answer.value)
  }

  datatype Credential = Credential(token: string, issued: nat)

  /** A refresh is due: the credential is as old as the margin, in seconds. */
  predicate IsDue(held: Credential, margin: nat, now: nat) {
    margin == 0 || now >= held.issued + margin
  }

  /** The newest token granted in the log, or the one held before it. */
  function Adopted(held: Credential, log: seq<Exchange>): Credential {
    if log == [] then held
    else
      var x := log[|log| - 1];
      if Grants(x) then Credential(AccessToken(x.answer.value.body).value, x.at)
      else Adopted(held, log[..|log| - 1])
  }

  lemma {:induction false} AdoptedConcat(held: Credential, a: seq<Exchange>, b: seq<Exchange>)
    ensures Adopted(held, a + b) == Adopted(Adopted(held, a), b)
  {
    if b == [] {
      assert a + b == a;
    } else {
      assert (a + b)[..|a + b| - 1] == a + b[..|b| - 1];
      AdoptedConcat(held, a, b[..|b| - 1]);
    }
  }

  lemma {:induction false} NothingAdopted(held: Credential, a: seq<Exchange>)
    requires forall k :: 0 <= k < |a| ==> !Grants(a[k])
    ensures Adopted(held, a) == held
  {
    if a != [] {
      NothingAdopted(held, a[..|a| - 1]);
    }
  }

  // ----- one TOTP-signed POST

  /** What a signed POST asks for: a first token, one in exchange for another, or fresh
      tokens for a list. */
  datatype Template = FreshLogin | Embedding(token: string) | Bulk(tokens: seq<string>)

  function PathOf(kind: Template): string {
    if kind.Bulk? then BULK_REFRESH_PATH else LOGIN_PATH
  }

  function PurposeOf(kind: Template): Purpose {
    if kind.Bulk? then BulkRefreshing else Signing
  }

  function SignedBody(kind: Template, code: string): string {
    match kind
    case FreshLogin => LoginBody(code)
    case Embedding(token) => RefreshBody(code, token)
    case Bulk(tokens) => BulkBody(code, tokens)
  }

  predicate IsReuse(x: Exchange) {
    x.answer.Some? && IsWindowReuse(x.answer.value)
  }

  predicate IsSignedPost(r: Request, kind: Template, code: Option<string>) {
    code.Some? && r == Request("POST", PathOf(kind), Some(SignedBody(kind, code.value)), "")
  }

  /** Up to four tries of one signed POST, each with a code of its own, all but the last
      answered by a used window and followed by one wait. */
  predicate AreTries(xs: seq<Exchange>, waited: nat, kind: Template, codes: nat -> Option<string>, first: nat) {
    && |xs| <= RETRY_CAP + 1
    && forall k :: 0 <= k < |xs| ==>
         && xs[k].purpose == PurposeOf(kind) && xs[k].waited == waited + k
         && IsSignedPost(xs[k].request, kind, codes(first + k))
         && (k < |xs| - 1 ==> IsReuse(xs[k]))
  }

  /** Each try comes back at least one wait behind the ones before it. */
  predicate AreSpaced(xs: seq<Exchange>, wait: nat) {
    forall j, k :: 0 <= j < k < |xs| ==> xs[k].at >= xs[j].at + wait
  }

  /** Nothing is left to try: there is no code, or the last answer is none about a used
      window, or it is the fourth. */
  predicate IsSettled(xs: seq<Exchange>, codes: nat -> Option<string>, first: nat) {
    codes(first + |xs|).None? || (xs != [] && (!IsReuse(xs[|xs| - 1]) || |xs| == RETRY_CAP + 1))
  }

  /** The exchanges of one signed POST, to its end. */
  predicate IsAttempts(xs: seq<Exchange>, waited: nat, kind: Template, codes: nat -> Option<string>, first: nat) {
    AreTries(xs, waited, kind, codes, first) && AreSpaced(xs, REUSE_WAIT) && IsSettled(xs, codes, first)
  }

  lemma TryAdded(xs: seq<Exchange>, x: Exchange, waited: nat, kind: Template, codes: nat -> Option<string>, first: nat)
    requires AreTries(xs, waited, kind, codes, first) && |xs| <= RETRY_CAP && forall k :: 0 <= k < |xs| ==> IsReuse(xs[k])
    requires x.purpose == PurposeOf(kind) && x.waited == waited + |xs| && IsSignedPost(x.request, kind, codes(first + |xs|))
    ensures AreTries(xs + [x], waited, kind, codes, first)
  {
    hide IsReuse, IsSignedPost;
  }

  lemma NoTries(waited: nat, kind: Template, codes: nat -> Option<string>, first: nat)
    ensures AreTries([], waited, kind, codes, first) && AreSpaced([], REUSE_WAIT)
  {
  }

  lemma SpaceAdded(xs: seq<Exchange>, x: Exchange, wait: nat)
    requires AreSpaced(xs, wait) && forall k :: 0 <= k < |xs| ==> x.at >= xs[k].at + wait
    ensures AreSpaced(xs + [x], wait)
  {
  }

  /** A TOTP-signed POST, sent again after a wait while the server says that the
      window was already used, at most three times more. It fails only when no code
      can be made, the transport fails, or the fourth try met a used window too. */
  method PostTotpSigned(w: World, kind: Template) returns (r: Option<Answer>, ghost xs: seq<Exchange>)
    modifies w
    ensures w.log == old(w.log) + xs && w.now >= old(w.now)
    ensures IsAttempts(xs, old(w.waits), kind, w.codes, old(w.codesRead))
    ensures old(w.waits) <= w.waits <= old(w.waits) + RETRY_CAP
    ensures r.Some? ==>
      && xs != [] && xs[|xs| - 1].answer == r && xs[|xs| - 1].at == w.now && !IsWindowReuse(r.value)
      && w.waits == old(w.waits) + |xs| - 1 && w.codesRead == old(w.codesRead) + |xs|
    ensures r.None? ==>
      && (xs != [] ==> xs[|xs| - 1].answer.None? || IsReuse(xs[|xs| - 1]))
      && (|| (w.codesRead > 0 && w.codes(w.codesRead - 1).None?)
          || (xs != [] && xs[|xs| - 1].answer.None?)
          || |xs| == RETRY_CAP + 1)
  {
    hide SignedBody, Contains, AreTries, AreSpaced, IsWindowReuse;
    ghost var waited := w.waits;
    var retries := 0;
    assert AreTries([], waited, kind, w.codes, old(w.codesRead)) && AreSpaced([], REUSE_WAIT) by { NoTries(waited, kind, w.codes, old(w.codesRead)); }
    xs := [];
    while true
      invariant 0 <= retries <= RETRY_CAP
      invariant w.log == old(w.log) + xs && |xs| == retries && w.now >= old(w.now)
      invariant w.waits == waited + retries && w.codesRead == old(w.codesRead) + retries
      invariant AreTries(xs, waited, kind, w.codes, old(w.codesRead))
      invariant forall k :: 0 <= k < |xs| ==> IsReuse(xs[k])
      invariant AreSpaced(xs, REUSE_WAIT) && forall k :: 0 <= k < |xs| ==> w.now >= xs[k].at + REUSE_WAIT
      decreases RETRY_CAP - retries
    {
      var code := w.Totp();
      if code.None? { return None, xs; }
      var a := w.Send(PurposeOf(kind), Request("POST", PathOf(kind), Some(SignedBody(kind, code.value)), ""));
      ghost var x := w.log[|w.log| - 1];
      TryAdded(xs, x, waited, kind, w.codes, old(w.codesRead));
      SpaceAdded(xs, x, REUSE_WAIT);
      xs := xs + [x];
      if a.None? { return None, xs; }
      if IsWindowReuse(a.value) {
        if retries >= RETRY_CAP { return None, xs; }
        retries := retries + 1;
        w.Sleep(REUSE_WAIT);
      } else {
        return a, xs;
      }
    }
  }

  /** Fresh tokens for a whole list in one signed POST: as many as were sent, from a
      success reply, or nothing. The session's own token is not touched. */
  method BulkRefresh(w: World, tokens: seq<string>) returns (r: Option<seq<string>>, ghost xs: seq<Exchange>)
    modifies w
    ensures w.log == old(w.log) + xs && |xs| <= RETRY_CAP + 1
    ensures IsAttempts(xs, old(w.waits), Bulk(tokens), w.codes, old(w.codesRead))
    ensures forall held :: Adopted(held, xs) == held
    ensures r.Some? <==>
      && xs != [] && xs[|xs| - 1].answer.Some? && !IsReuse(xs[|xs| - 1])
      && IsSuccess(xs[|xs| - 1].answer.value.status)
      && BulkTokens(xs[|xs| - 1].answer.value.body, |tokens|).Some?
    ensures r.Some? ==> |r.value| == |tokens| && r == BulkTokens(xs[|xs| - 1].answer.value.body, |tokens|)
  {
    hide SignedBody, Contains, BulkTokens;
    var resp;
    resp, xs := PostTotpSigned(w, Bulk(tokens));
    forall held ensures Adopted(held, xs) == held {
      NothingAdopted(held, xs);
    }
    if resp.None? || !IsSuccess(resp.value.status) { return None, xs; }
    r := ParseBulkRefreshTokens(resp.value.body, |tokens|);
    BulkCount(resp.value.body, |tokens|);
  }

  lemma BulkCount(body: string, expected: nat)
    ensures BulkTokens(body, expected).Some? ==> |BulkTokens(body, expected).value| == expected
  {
  }

  // ----- one refresh

  /** How a refresh ended, told by its exchanges alone. */
  datatype RefreshOutcome = Refreshed | LoggedInAfresh | Failed

  function OutcomeOf(xs: seq<Exchange>): RefreshOutcome {
    if xs == [] || !Grants(xs[|xs| - 1]) then Failed
    else if exists k :: 0 <= k < |xs| && Refuses(xs[k]) then LoggedInAfresh
    else Refreshed
  }

  function FreshLogins(outcomes: seq<RefreshOutcome>): nat {
    if outcomes == [] then 0
    else FreshLogins(outcomes[..|outcomes| - 1]) + (if outcomes[|outcomes| - 1].LoggedInAfresh? then 1 else 0)
  }

  lemma FreshLoginsSnoc(outcomes: seq<RefreshOutcome>, last: RefreshOutcome)
    ensures FreshLogins(outcomes + [last]) == FreshLogins(outcomes) + (if last.LoggedInAfresh? then 1 else 0)
  {
    assert (outcomes + [last])[..|outcomes|] == outcomes;
  }

  /** The exchanges of one refresh: a signed POST that embeds the held token and, only
      when that was refused, a second one without it. */
  ghost predicate IsRefresh(xs: seq<Exchange>, token: string, waited: nat, codes: nat -> Option<string>, first: nat) {
    exists n: nat :: n <= |xs| && IsRefreshSplitAt(xs, n, token, waited, codes, first)
  }

  predicate IsRefreshSplitAt(xs: seq<Exchange>, n: nat, token: string, waited: nat, codes: nat -> Option<string>, first: nat)
    requires n <= |xs|
  {
    && IsAttempts(xs[..n], waited, Embedding(token), codes, first)
    && (if n > 0 && Refuses(xs[n - 1]) then IsAttempts(xs[n..], waited + n - 1, FreshLogin, codes, first + n)
        else n == |xs|)
  }

  /** A whole refresh that hands over the token, wherever in the run it stands. */
  ghost predicate IsSomeRefresh(xs: seq<Exchange>, token: string, codes: nat -> Option<string>) {
    exists waited: nat, first: nat :: IsRefresh(xs, token, waited, codes, first)
  }

  lemma TriesGrantNothing(xs: seq<Exchange>, waited: nat, kind: Template, codes: nat -> Option<string>, first: nat)
    requires AreTries(xs, waited, kind, codes, first) && !kind.Bulk?
    ensures |xs| <= RETRY_CAP + 1
    ensures forall k :: 0 <= k < |xs| - 1 ==> !Grants(xs[k]) && !Refuses(xs[k])
    ensures forall k :: 0 <= k < |xs| ==> xs[k].purpose == Signing
  {
    hide AccessToken, Contains, IsSignedPost;
  }

  lemma SomeRefresh(xs: seq<Exchange>, token: string, waited: nat, codes: nat -> Option<string>, first: nat)
    requires IsRefresh(xs, token, waited, codes, first)
    ensures IsSomeRefresh(xs, token, codes)
  {
    hide IsRefresh;
  }

  lemma RefusedGrantsNothing(x: Exchange)
    requires Refuses(x)
    ensures !Grants(x)
  {
  }

  lemma RefreshBounds(xs: seq<Exchange>, token: string, waited: nat, codes: nat -> Option<string>, first: nat)
    requires IsRefresh(xs, token, waited, codes, first)
    ensures |xs| <= 2 * (RETRY_CAP + 1)
    ensures forall k :: 0 <= k < |xs| ==> xs[k].purpose == Signing
    ensures forall k :: 0 <= k < |xs| - 1 ==> !Grants(xs[k])
  {
    hide AreTries, AreSpaced, IsSettled, Grants, Refuses;
    var n: nat :| n <= |xs| && IsRefreshSplitAt(xs, n, token, waited, codes, first);
    TriesGrantNothing(xs[..n], waited, Embedding(token), codes, first);
    if n > 0 && Refuses(xs[n - 1]) {
      RefusedGrantsNothing(xs[n - 1]);
      TriesGrantNothing(xs[n..], waited + n - 1, FreshLogin, codes, first + n);
    }
    forall k | 0 <= k < |xs| ensures xs[k].purpose == Signing && (k < |xs| - 1 ==> !Grants(xs[k])) {
      if k < n {
        assert xs[..n][k] == xs[k];
      } else {
        assert xs[n..][k - n] == xs[k];
      }
    }
  }

  /** The log of a refresh that stopped after its first POST. */
  lemma FirstPostOnly(xs: seq<Exchange>, token: string, waited: nat, codes: nat -> Option<string>, first: nat)
    requires IsAttempts(xs, waited, Embedding(token), codes, first)
    ensures xs == [] || !Refuses(xs[|xs| - 1]) ==> IsRefresh(xs, token, waited, codes, first)
    ensures forall k :: 0 <= k < |xs| - 1 ==> !Grants(xs[k]) && !Refuses(xs[k])
    ensures forall k :: 0 <= k < |xs| ==> xs[k].purpose == Signing
  {
    hide AreTries, AreSpaced, IsSettled, Grants, Refuses;
    TriesGrantNothing(xs, waited, Embedding(token), codes, first);
    assert xs[..|xs|] == xs;
    assert xs == [] || !Refuses(xs[|xs| - 1]) ==> IsRefreshSplitAt(xs, |xs|, token, waited, codes, first);
  }

  lemma BothPosts(a: seq<Exchange>, b: seq<Exchange>, token: string, waited: nat, codes: nat -> Option<string>, first: nat)
    requires IsAttempts(a, waited, Embedding(token), codes, first)
    requires a != [] && Refuses(a[|a| - 1])
    requires IsAttempts(b, waited + |a| - 1, FreshLogin, codes, first + |a|)
    ensures IsRefresh(a + b, token, waited, codes, first)
    ensures forall k :: 0 <= k < |a + b| - 1 ==> !Grants((a + b)[k])
    ensures forall k :: 0 <= k < |a + b| ==> (a + b)[k].purpose == Signing
    ensures Refuses((a + b)[|a| - 1])
  {
    assert (a + b)[..|a|] == a && (a + b)[|a|..] == b;
    assert IsRefreshSplitAt(a + b, |a|, token, waited, codes, first);
    RefreshBounds(a + b, token, waited, codes, first);
  }

  /** What a refresh leaves behind is decided by its last exchange. */
  lemma AdoptedByLast(held: Credential, xs: seq<Exchange>)
    requires forall k :: 0 <= k < |xs| - 1 ==> !Grants(xs[k])
    ensures xs == [] || !Grants(xs[|xs| - 1]) ==> Adopted(held, xs) == held
    ensures xs != [] && Grants(xs[|xs| - 1]) ==>
      Adopted(held, xs) == Credential(AccessToken(xs[|xs| - 1].answer.value.body).value, xs[|xs| - 1].at)
  {
    if xs == [] || !Grants(xs[|xs| - 1]) {
      NothingAdopted(held, xs);
    }
  }

  /** The authenticated session. */
  class Session {
    var token: string
    var issued: nat
    var refreshMarginSecs: nat
    var fallbackLogins: u32
    ghost var outcomes: seq<RefreshOutcome>

    /** The counter is the number of fresh-login refreshes, up to saturation. */
    ghost predicate Valid()
      reads this
    {
      fallbackLogins == if FreshLogins(outcomes) <= U32_MAX then FreshLogins(outcomes) else U32_MAX
    }

    function Held(): Credential
      reads this
    {
      Credential(token, issued)
    }

    constructor (token: string, now: nat, margin: nat)
      ensures Valid() && Held() == Credential(token, now) && fallbackLogins == 0 && outcomes == []
      ensures refreshMarginSecs == margin
    {
      this.token, issued, refreshMarginSecs, fallbackLogins := token, now, margin, 0;
      outcomes := [];
    }

    /** `Instant::elapsed` saturates at zero. */
    function ElapsedSecs(now: nat): nat
      reads this
    {
      if now >= issued then now - issued else 0
    }

    predicate NeedsRefresh(now: nat)
      reads this
    {
      ElapsedSecs(now) >= refreshMarginSecs
    }

    method AdoptToken(body: string, now: nat) returns (ok: bool)
      modifies this`token, this`issued
      ensures ok == AccessToken(body).Some?
      ensures Held() == if ok then Credential(AccessToken(body).value, now) else old(Held())
    {
      var t := AccessToken(body);
      if t.None? { return false; }
      token, issued := t.value, now;
      return true;
    }

    /** Replaces the token through a signed POST that embeds it, or through a fresh
        login when the embedded token is refused. */
    method Refresh(w: World) returns (ok: bool, ghost xs: seq<Exchange>)
      requires Valid()
      modifies this`token, this`issued, this`fallbackLogins, this`outcomes, w
      ensures Valid()
      ensures w.log == old(w.log) + xs && w.now >= old(w.now)
      ensures IsRefresh(xs, old(token), old(w.waits), w.codes, old(w.codesRead))
      ensures outcomes == old(outcomes) + [OutcomeOf(xs)] && (ok <==> !OutcomeOf(xs).Failed?)
      ensures Held() == Adopted(old(Held()), xs)
      ensures !ok ==> Held() == old(Held()) && fallbackLogins == old(fallbackLogins)
      ensures old(w.waits) <= w.waits <= old(w.waits) + 2 * RETRY_CAP
    {
      hide AccessToken, Adopted, IsAttempts, IsRefresh, Contains, SignedBody, FreshLogins;
      FreshLoginsSnoc(outcomes, Failed);
      FreshLoginsSnoc(outcomes, Refreshed);
      FreshLoginsSnoc(outcomes, LoggedInAfresh);
      ghost var waited, first := w.waits, w.codesRead;
      var resp;
      resp, xs := PostTotpSigned(w, Embedding(token));
      FirstPostOnly(xs, token, waited, w.codes, first);
      AdoptedByLast(Held(), xs);
      outcomes := outcomes + [OutcomeOf(xs)];
      if resp.None? {
        return false, xs;
      }
      if IsSuccess(resp.value.status) {
        ok := AdoptToken(resp.value.body, w.now);
        return ok, xs;
      }
      if resp.value.status == 401 || resp.value.status == 403 {
        var relogin;
        ghost var ys;
        relogin, ys := PostTotpSigned(w, FreshLogin);
        BothPosts(xs, ys, token, waited, w.codes, first);
        AdoptedByLast(Held(), xs + ys);
        assert Refuses((xs + ys)[|xs| - 1]);
        xs := xs + ys;
        outcomes := old(outcomes) + [OutcomeOf(xs)];
        if relogin.None? {
          return false, xs;
        }
        if IsSuccess(relogin.value.status) {
          ok := AdoptToken(relogin.value.body, w.now);
          if ok {
            fallbackLogins := SaturatingAdd(fallbackLogins, 1, U32_MAX);
          }
          return ok, xs;
        }
        return false, xs;
      }
      return false, xs;
    }

    /** Refreshes a token that has reached the margin, and says whether it did. */
    method RefreshIfStale(w: World) returns (ok: bool, refreshed: bool, ghost xs: seq<Exchange>)
      requires Valid()
      modifies this`token, this`issued, this`fallbackLogins, this`outcomes, w
      ensures Valid()
      ensures w.log == old(w.log) + xs && w.now >= old(w.now)
      ensures old(w.waits) <= w.waits <= old(w.waits) + 2 * RETRY_CAP
      ensures Held() == Adopted(old(Held()), xs)
      ensures IsPreparation(xs, IsDue(old(Held()), old(refreshMarginSecs), old(w.now)), ok)
      ensures refreshed <==> ok && IsDue(old(Held()), old(refreshMarginSecs), old(w.now))
      ensures IsDue(old(Held()), old(refreshMarginSecs), old(w.now)) ==>
        IsRefresh(xs, old(token), old(w.waits), w.codes, old(w.codesRead))
      ensures !ok ==> Held() == old(Held()) && fallbackLogins == old(fallbackLogins)
      ensures outcomes == old(outcomes) + if IsDue(old(Held()), old(refreshMarginSecs), old(w.now)) then [OutcomeOf(xs)] else []
    {
      if NeedsRefresh(w.now) {
        hide IsRefresh, Adopted, Grants, AccessToken, FreshLogins;
        ok, xs := Refresh(w);
        refreshed := ok;
        RefreshBounds(xs, old(token), old(w.waits), w.codes, old(w.codesRead));
      } else {
        ok, refreshed, xs := true, false, [];
      }
    }

    /** Sends the caller's request with a fresh enough bearer; a 401 or 403 is met with
        one refresh and one more try. The log grows by the proactive refresh, the
        request, the reactive refresh and the second request. */
    method AuthenticatedRequest(w: World, verb: string, path: string, body: Option<string>)
      returns (r: Option<Answer>, ghost run: RequestRun)
      requires Valid()
      modifies this`token, this`issued, this`fallbackLogins, this`outcomes, w
      ensures Valid()
      ensures w.log == old(w.log) + run.All()
      ensures old(w.waits) <= w.waits <= old(w.waits) + 4 * RETRY_CAP
      ensures Held() == Adopted(old(Held()), run.All())
      ensures IsRequestRun(run, old(Held()), old(refreshMarginSecs), old(w.now), verb, path, body, r)
      ensures outcomes == old(outcomes) + run.Outcomes(IsDue(old(Held()), old(refreshMarginSecs), old(w.now)))
      ensures IsDue(old(Held()), old(refreshMarginSecs), old(w.now)) ==> IsSomeRefresh(run.before, old(token), w.codes)
      ensures IsRejected(run.sent) ==> IsSomeRefresh(run.between, Adopted(old(Held()), run.before).token, w.codes)
    {
      hide Adopted, Grants, Refuses, OutcomeOf, FreshLogins, IsRefresh, IsSomeRefresh, IsPreparation, IsRunWhen, IsDue, RequestRun.All, RequestRun.Outcomes;
      ghost var held, stale := Held(), IsDue(Held(), refreshMarginSecs, w.now);
      var ok, refreshed;
      ghost var p;
      ok, refreshed, p := RefreshIfStale(w);
      if stale { SomeRefresh(p, held.token, old(w.waits), w.codes, old(w.codesRead)); }
      if !ok {
        run := RequestRun(p, [], [], []);
        RunStopped(p, held, stale, verb, path, body);
        return None, run;
      }
      r := w.Send(Caller, Request(verb, path, body, token));
      ghost var first := w.log[|w.log| - 1];
      CallerAdoptsNothing(held, p, first);
      run := RequestRun(p, [first], [], []);
      if r.Some? && IsAuthRejection(r.value.status) {
        ghost var q, waited, codesRead := [], w.waits, w.codesRead;
        ok, q := Refresh(w);
        RefreshBounds(q, Adopted(held, p).token, waited, w.codes, codesRead);
        RefreshPrepares(q);
        SomeRefresh(q, Adopted(held, p).token, waited, w.codes, codesRead);
        AdoptedConcat(held, p + [first], q);
        if !ok {
          run := RequestRun(p, [first], q, []);
          RunRejected(p, first, q, held, stale, verb, path, body);
          return None, run;
        }
        r := w.Send(Caller, Request(verb, path, body, token));
        ghost var second := w.log[|w.log| - 1];
        CallerAdoptsNothing(held, p + [first] + q, second);
        run := RequestRun(p, [first], q, [second]);
        RunResent(p, first, q, second, held, stale, verb, path, body);
      } else {
        RunAnswered(p, first, held, stale, verb, path, body);
      }
    }
  }

  // ----- what one authenticated request amounts to

  /** The four parts of the log of one authenticated request. */
  datatype RequestRun = RequestRun(before: seq<Exchange>, sent: seq<Exchange>, between: seq<Exchange>, resent: seq<Exchange>) {
    function All(): seq<Exchange> {
      before + sent + between + resent
    }

    /** The refreshes the run made, in order. */
    function Outcomes(stale: bool): seq<RefreshOutcome> {
      (if stale then [OutcomeOf(before)] else []) + (if IsRejected(sent) then [OutcomeOf(between)] else [])
    }
  }

  /** A refresh that must end well for the run to go on, or nothing when none is due. */
  predicate IsPreparation(xs: seq<Exchange>, due: bool, ok: bool) {
    if due then
      && |xs| <= 2 * (RETRY_CAP + 1)
      && (forall k :: 0 <= k < |xs| ==> xs[k].purpose == Signing)
      && (forall k :: 0 <= k < |xs| - 1 ==> !Grants(xs[k]))
      && (ok <==> xs != [] && Grants(xs[|xs| - 1]))
    else xs == [] && ok
  }

  predicate IsCallerSend(xs: seq<Exchange>, request: Request) {
    |xs| == 1 && xs[0].purpose == Caller && xs[0].request == request
  }

  predicate IsRejected(xs: seq<Exchange>) {
    xs != [] && xs[0].answer.Some? && IsAuthRejection(xs[0].answer.value.status)
  }

  /** The run of a request under a credential, a margin and a clock. */
  predicate IsRequestRun(run: RequestRun, held: Credential, margin: nat, now: nat, verb: string, path: string, body: Option<string>, r: Option<Answer>) {
    IsRunWhen(run, held, IsDue(held, margin, now), verb, path, body, r)
  }

  predicate IsRunWhen(run: RequestRun, held: Credential, stale: bool, verb: string, path: string, body: Option<string>, r: Option<Answer>) {
    && IsPreparation(run.before, stale, run.sent != [])
    && (run.sent != [] ==> IsCallerSend(run.sent, Request(verb, path, body, Adopted(held, run.before).token)))
    && (if IsRejected(run.sent) then IsPreparation(run.between, true, run.resent != []) else run.between == [] && run.resent == [])
    && (run.resent != [] ==> IsCallerSend(run.resent, Request(verb, path, body, Adopted(held, run.before + run.sent + run.between).token)))
    && r == (if run.resent != [] then run.resent[0].answer
             else if run.sent != [] && !IsRejected(run.sent) then run.sent[0].answer
             else None)
  }

  predicate SentUnder(x: Exchange, verb: string, path: string, body: Option<string>, c: Credential) {
    x.purpose == Caller && x.request == Request(verb, path, body, c.token)
  }

  lemma RunStopped(p: seq<Exchange>, held: Credential, stale: bool, verb: string, path: string, body: Option<string>)
    requires IsPreparation(p, stale, false)
    ensures var run := RequestRun(p, [], [], []);
      && run.All() == p && run.Outcomes(stale) == (if stale then [OutcomeOf(p)] else [])
      && IsRunWhen(run, held, stale, verb, path, body, None)
  {
    hide IsPreparation, Adopted, OutcomeOf;
  }

  lemma RunAnswered(p: seq<Exchange>, x: Exchange, held: Credential, stale: bool, verb: string, path: string, body: Option<string>)
    requires IsPreparation(p, stale, true) && SentUnder(x, verb, path, body, Adopted(held, p)) && !IsRejected([x])
    ensures var run := RequestRun(p, [x], [], []);
      && run.All() == p + [x] && run.Outcomes(stale) == (if stale then [OutcomeOf(p)] else [])
      && IsRunWhen(run, held, stale, verb, path, body, x.answer)
  {
    hide IsPreparation, Adopted, OutcomeOf;
  }

  lemma RunRejected(p: seq<Exchange>, x: Exchange, q: seq<Exchange>, held: Credential, stale: bool, verb: string, path: string, body: Option<string>)
    requires IsPreparation(p, stale, true) && SentUnder(x, verb, path, body, Adopted(held, p)) && IsRejected([x])
    requires IsPreparation(q, true, false)
    ensures var run := RequestRun(p, [x], q, []);
      && run.All() == p + [x] + q && run.Outcomes(stale) == (if stale then [OutcomeOf(p)] else []) + [OutcomeOf(q)]
      && IsRunWhen(run, held, stale, verb, path, body, None)
  {
    hide IsPreparation, Adopted, OutcomeOf;
  }

  lemma RunResent(p: seq<Exchange>, x: Exchange, q: seq<Exchange>, y: Exchange, held: Credential, stale: bool, verb: string, path: string, body: Option<string>)
    requires IsPreparation(p, stale, true) && SentUnder(x, verb, path, body, Adopted(held, p)) && IsRejected([x])
    requires IsPreparation(q, true, true) && SentUnder(y, verb, path, body, Adopted(held, p + [x] + q))
    ensures var run := RequestRun(p, [x], q, [y]);
      && run.All() == p + [x] + q + [y] && run.Outcomes(stale) == (if stale then [OutcomeOf(p)] else []) + [OutcomeOf(q)]
      && IsRunWhen(run, held, stale, verb, path, body, y.answer)
  {
    hide IsPreparation, Adopted, OutcomeOf;
  }

  lemma CallerAdoptsNothing(held: Credential, xs: seq<Exchange>, x: Exchange)
    requires x.purpose == Caller
    ensures Adopted(held, xs + [x]) == Adopted(held, xs)
  {
    hide AccessToken;
    assert (xs + [x])[..|xs|] == xs;
  }

  lemma RefreshPrepares(xs: seq<Exchange>)
    requires |xs| <= 2 * (RETRY_CAP + 1)
    requires forall k :: 0 <= k < |xs| ==> xs[k].purpose == Signing
    requires forall k :: 0 <= k < |xs| - 1 ==> !Grants(xs[k])
    ensures IsPreparation(xs, true, !OutcomeOf(xs).Failed?)
  {
    hide Grants, Refuses;
  }

  /** Exchanges the caller asked for. */
  function CallerSends(xs: seq<Exchange>): (n: nat)
    ensures n <= |xs|
  {
    if xs == [] then 0 else CallerSends(xs[..|xs| - 1]) + (if xs[|xs| - 1].purpose == Caller then 1 else 0)
  }

  lemma {:induction false} CallerSendsConcat(a: seq<Exchange>, b: seq<Exchange>)
    ensures CallerSends(a + b) == CallerSends(a) + CallerSends(b)
  {
    if b == [] {
      assert a + b == a;
    } else {
      assert (a + b)[..|a + b| - 1] == a + b[..|b| - 1];
      CallerSendsConcat(a, b[..|b| - 1]);
    }
  }

  lemma {:induction false} SigningSends(xs: seq<Exchange>)
    requires forall k :: 0 <= k < |xs| ==> xs[k].purpose == Signing
    ensures CallerSends(xs) == 0
  {
    if xs != [] {
      SigningSends(xs[..|xs| - 1]);
    }
  }

  /** The exchange was answered 401 or 403. */
  predicate AnsweredUnauthorized(x: Exchange) {
    x.answer.Some? && (x.answer.value.status == 401 || x.answer.value.status == 403)
  }

  /** The exchange was answered with a success and a token. */
  predicate AnsweredWith(x: Exchange, token: string) {
    x.answer.Some? && 200 <= x.answer.value.status <= 299 && AccessToken(x.answer.value.body) == Some(token)
  }

  /** The last exchange of a refresh brought the token. */
  predicate EndsWith(xs: seq<Exchange>, token: string) {
    xs != [] && AnsweredWith(xs[|xs| - 1], token)
  }

  ghost predicate EndsWithout(xs: seq<Exchange>) {
    forall token :: !EndsWith(xs, token)
  }

  lemma EndsIff(held: Credential, xs: seq<Exchange>, ok: bool)
    requires IsPreparation(xs, true, ok)
    ensures ok ==> EndsWith(xs, Adopted(held, xs).token)
    ensures !ok ==> EndsWithout(xs)
  {
    hide AccessToken, Adopted, Contains;
    AdoptedByLast(held, xs);
  }

  predicate IsSigning(xs: seq<Exchange>) {
    |xs| <= 2 * (RETRY_CAP + 1) && forall k :: 0 <= k < |xs| ==> xs[k].purpose == Signing
  }

  predicate IsCallers(xs: seq<Exchange>, verb: string, path: string, body: Option<string>) {
    |xs| <= 1 && forall x :: x in xs ==> x.purpose == Caller && x.request.verb == verb && x.request.path == path && x.request.body == body
  }

  lemma RunParts(run: RequestRun, held: Credential, stale: bool, verb: string, path: string, body: Option<string>, r: Option<Answer>)
    requires IsRunWhen(run, held, stale, verb, path, body, r)
    ensures IsSigning(run.before) && IsSigning(run.between)
    ensures IsCallers(run.sent, verb, path, body) && IsCallers(run.resent, verb, path, body)
  {
    hide Adopted, Grants;
  }

  lemma CallersCount(xs: seq<Exchange>, verb: string, path: string, body: Option<string>)
    requires IsCallers(xs, verb, path, body)
    ensures CallerSends(xs) == |xs|
  {
    if xs != [] { assert xs[0] in xs && xs[..0] == []; }
  }

  /** One authenticated request: at most 18 transport calls, at most two of them the
      caller's, both as asked for. */
  lemma RequestRunBounds(run: RequestRun, held: Credential, margin: nat, now: nat, verb: string, path: string, body: Option<string>, r: Option<Answer>)
    requires IsRequestRun(run, held, margin, now, verb, path, body, r)
    ensures |run.All()| <= 18 && CallerSends(run.All()) <= 2 && CallerSends(run.All()) == |run.sent| + |run.resent|
    ensures forall x :: x in run.sent + run.resent ==>
      x.purpose == Caller && x.request.verb == verb && x.request.path == path && x.request.body == body
  {
    hide IsRunWhen, CallerSends;
    RunParts(run, held, IsDue(held, margin, now), verb, path, body, r);
    CallerSendsConcat(run.before + run.sent + run.between, run.resent);
    CallerSendsConcat(run.before + run.sent, run.between);
    CallerSendsConcat(run.before, run.sent);
    SigningSends(run.before);
    SigningSends(run.between);
    CallersCount(run.sent, verb, path, body);
    CallersCount(run.resent, verb, path, body);
  }

  /** The bearers. When the held token is due the request goes out under a token granted
      just before it, or not at all; otherwise under the held one. It goes out again
      exactly when it was answered 401 or 403 and a token was then granted, and under
      that token. The answer is that of the last one sent, but a 401 or 403 to the first
      is never passed on. */
  lemma RequestRunBearers(run: RequestRun, held: Credential, margin: nat, now: nat, verb: string, path: string, body: Option<string>, r: Option<Answer>)
    requires IsRequestRun(run, held, margin, now, verb, path, body, r)
    ensures margin == 0 || now >= held.issued + margin ==>
      if run.sent != [] then EndsWith(run.before, run.sent[0].request.bearer) else r == None && EndsWithout(run.before)
    ensures margin > 0 && now < held.issued + margin ==>
      run.before == [] && run.sent != [] && run.sent[0].request.bearer == held.token
    ensures run.sent != [] && AnsweredUnauthorized(run.sent[0]) ==>
      if run.resent != [] then EndsWith(run.between, run.resent[0].request.bearer) && r == run.resent[0].answer
      else r == None && EndsWithout(run.between)
    ensures run.sent != [] && !AnsweredUnauthorized(run.sent[0]) ==>
      run.between == [] && run.resent == [] && r == run.sent[0].answer
    ensures run.sent == [] ==> run.between == [] && run.resent == []
  {
    hide Adopted, EndsWith, EndsWithout, AccessToken;
    if IsDue(held, margin, now) { EndsIff(held, run.before, run.sent != []); }
    if IsRejected(run.sent) {
      var c := Adopted(held, run.before + run.sent);
      AdoptedConcat(held, run.before + run.sent, run.between);
      EndsIff(c, run.between, run.resent != []);
    }
    AdoptedNothing(held);
  }

  lemma AdoptedNothing(held: Credential)
    ensures Adopted(held, []) == held
  {
  }

  // ----- the signed posts, written out

  /** The reply says that the one-time code's window was used already. */
  predicate SaysWindowUsed(a: Answer) {
    a.status == 403 && exists i: nat :: i <= |a.body| && At(a.body, i, "TOTP Window has already been used")
  }

  lemma WindowIff(a: Answer)
    ensures IsWindowReuse(a) <==> SaysWindowUsed(a)
  {
  }

  predicate IsWindowUsed(x: Exchange) {
    x.answer.Some? && SaysWindowUsed(x.answer.value)
  }

  /** The exchange is a POST of this body to this path, without a bearer. */
  predicate IsPost(x: Exchange, path: string, body: string) {
    x.request == Request("POST", path, Some(body), "")
  }

  /** The body of a signed post for the code. */
  function BodyFor(kind: Template, code: string): string {
    match kind
    case FreshLogin => LoginBody(code)
    case Embedding(token) => RefreshBody(code, token)
    case Bulk(tokens) => BulkBody(code, tokens)
  }

  /** One try: the body for the code, to the endpoint of the kind. */
  predicate IsSignedStep(x: Exchange, kind: Template, code: Option<string>) {
    code.Some? && IsPost(x, if kind.Bulk? then "/esv/v1/login/refresh" else "/esv/v1/login", BodyFor(kind, code.value))
  }

  /** A signed post on the wire: at most four POSTs to the endpoint, each under the next
      one-time code, each but the last answered that the window was used, and the next at
      least ten seconds and one wait behind it. It goes on until it is answered
      otherwise, or not at all, or a fourth time so, or there is no code. */
  lemma SignedPostIs(xs: seq<Exchange>, waited: nat, kind: Template, codes: nat -> Option<string>, first: nat)
    requires IsAttempts(xs, waited, kind, codes, first)
    ensures |xs| <= 4
    ensures forall k :: 0 <= k < |xs| ==> xs[k].waited == waited + k && IsSignedStep(xs[k], kind, codes(first + k))
    ensures AreSpaced(xs, 10) && forall k :: 0 <= k < |xs| - 1 ==> IsWindowUsed(xs[k])
    ensures codes(first + |xs|).None? || (xs != [] && (!IsWindowUsed(xs[|xs| - 1]) || |xs| == 4))
  {
    hide SaysWindowUsed, IsWindowReuse, LoginBody, RefreshBody, BulkBody;
    forall k | 0 <= k < |xs| && xs[k].answer.Some? ensures IsReuse(xs[k]) <==> IsWindowUsed(xs[k]) {
      WindowIff(xs[k].answer.value);
    }
    forall k | 0 <= k < |xs|
      ensures xs[k].waited == waited + k && IsSignedStep(xs[k], kind, codes(first + k))
    {
      assert IsSignedPost(xs[k].request, kind, codes(first + k));
    }
  }

  /** A refresh on the wire: POSTs that hand over the held token and, exactly when the last of
      them was answered 401 or 403 for another reason than a used window, plain logins,
      each to its end. */
  lemma RefreshTrail(xs: seq<Exchange>, token: string, waited: nat, codes: nat -> Option<string>, first: nat)
    requires IsRefresh(xs, token, waited, codes, first)
    ensures |xs| <= 8
    ensures exists n: nat :: n <= |xs| && IsTrail(xs, n, token, codes, first)
  {
    hide IsAttempts, IsWindowReuse, SaysWindowUsed, LoginBody, RefreshBody;
    var n: nat :| n <= |xs| && IsRefreshSplitAt(xs, n, token, waited, codes, first);
    TrailOf(xs, n, token, waited, codes, first);
  }

  lemma RefusalIff(x: Exchange)
    requires x.purpose == Signing
    ensures Refuses(x) <==> IsRefusal(x)
  {
    hide IsWindowReuse, SaysWindowUsed;
    if x.answer.Some? { WindowIff(x.answer.value); }
  }

  lemma TrailOf(xs: seq<Exchange>, n: nat, token: string, waited: nat, codes: nat -> Option<string>, first: nat)
    requires n <= |xs| && IsRefreshSplitAt(xs, n, token, waited, codes, first)
    ensures |xs| <= 8 && IsTrail(xs, n, token, codes, first)
  {
    hide AreTries, AreSpaced, IsSettled, IsSignedStep, IsTrailStep, IsWindowUsed, Refuses, IsRefusal;
    var a, b := xs[..n], xs[n..];
    SignedPostIs(a, waited, Embedding(token), codes, first);
    if n > 0 {
      TriesGrantNothing(a, waited, Embedding(token), codes, first);
      assert xs[n - 1] == a[n - 1];
      RefusalIff(xs[n - 1]);
    }
    if n > 0 && Refuses(xs[n - 1]) {
      SignedPostIs(b, waited + n - 1, FreshLogin, codes, first + n);
      forall k | n <= k < |xs| ensures IsTrailStep(xs, n, k, token, codes, first) {
        assert xs[k] == b[k - n];
        LoginStep(xs, n, k, token, codes, first, b);
      }
    }
    forall k | 0 <= k < n ensures IsTrailStep(xs, n, k, token, codes, first) {
      assert xs[k] == a[k];
      HandoverStep(xs, n, k, token, codes, first, a);
    }
  }

  lemma HandoverStep(xs: seq<Exchange>, n: nat, k: nat, token: string, codes: nat -> Option<string>, first: nat, a: seq<Exchange>)
    requires k < n == |a| <= |xs| && xs[k] == a[k] && IsSignedStep(a[k], Embedding(token), codes(first + k))
    requires forall j :: 0 <= j < |a| - 1 ==> IsWindowUsed(a[j])
    ensures IsTrailStep(xs, n, k, token, codes, first)
  {
    hide IsWindowUsed, RefreshBody;
  }

  lemma LoginStep(xs: seq<Exchange>, n: nat, k: nat, token: string, codes: nat -> Option<string>, first: nat, b: seq<Exchange>)
    requires n <= k < |xs| && |b| == |xs| - n && xs[k] == b[k - n]
    requires forall j :: 0 <= j < |b| ==> IsSignedStep(b[j], FreshLogin, codes(first + n + j))
    requires forall j :: 0 <= j < |b| - 1 ==> IsWindowUsed(b[j])
    ensures IsTrailStep(xs, n, k, token, codes, first)
  {
    hide IsWindowUsed, LoginBody;
    var j: nat := k - n;
    assert IsSignedStep(b[j], FreshLogin, codes(first + n + j));
    assert first + n + j == first + k;
  }

  predicate IsTrail(xs: seq<Exchange>, n: nat, token: string, codes: nat -> Option<string>, first: nat)
    requires n <= |xs|
  {
    && (forall k :: 0 <= k < |xs| ==> IsTrailStep(xs, n, k, token, codes, first))
    && (n < |xs| ==> n > 0 && IsRefusal(xs[n - 1]))
    && IsEnded(xs[..n], codes, first)
    && (n > 0 && IsRefusal(xs[n - 1]) ==> IsEnded(xs[n..], codes, first + n))
  }

  predicate IsRefusal(x: Exchange) {
    AnsweredUnauthorized(x) && !IsWindowUsed(x)
  }

  /** Nothing more could be tried. */
  predicate IsEnded(xs: seq<Exchange>, codes: nat -> Option<string>, first: nat) {
    codes(first + |xs|).None? || (xs != [] && (!IsWindowUsed(xs[|xs| - 1]) || |xs| == 4))
  }

  predicate IsTrailStep(xs: seq<Exchange>, n: nat, k: nat, token: string, codes: nat -> Option<string>, first: nat)
    requires k < |xs|
  {
    && codes(first + k).Some?
    && IsPost(xs[k], "/esv/v1/login", if k < n then RefreshBody(codes(first + k).value, token) else LoginBody(codes(first + k).value))
    && (k != n - 1 && k != |xs| - 1 ==> IsWindowUsed(xs[k]))
  }

  /** How a refresh is counted: by whether its last exchange brought a token, and whether
      one before it was refused. */
  lemma OutcomeIs(xs: seq<Exchange>)
    requires forall k :: 0 <= k < |xs| ==> xs[k].purpose == Signing
    ensures OutcomeOf(xs) == Failed <==> EndsWithout(xs)
    ensures OutcomeOf(xs) == LoggedInAfresh <==>
      !EndsWithout(xs) && exists k :: 0 <= k < |xs| && AnsweredUnauthorized(xs[k]) && !IsWindowUsed(xs[k])
  {
    hide AccessToken, IsWindowReuse, SaysWindowUsed;
    forall k | 0 <= k < |xs| && xs[k].answer.Some? ensures IsWindowReuse(xs[k].answer.value) <==> SaysWindowUsed(xs[k].answer.value) {
      WindowIff(xs[k].answer.value);
    }
    if xs != [] && Grants(xs[|xs| - 1]) {
      assert EndsWith(xs, AccessToken(xs[|xs| - 1].answer.value.body).value);
    }
    if exists k :: 0 <= k < |xs| && Refuses(xs[k]) {
      var k :| 0 <= k < |xs| && Refuses(xs[k]);
      assert AnsweredUnauthorized(xs[k]) && !IsWindowUsed(xs[k]);
    }
    if k :| 0 <= k < |xs| && AnsweredUnauthorized(xs[k]) && !IsWindowUsed(xs[k]) {
      assert Refuses(xs[k]);
    }
  }

  /** The counter of fresh logins, saturating: how many refreshes were counted as one. */
  lemma {:induction false} FreshLoginsCount(outcomes: seq<RefreshOutcome>)
    ensures FreshLogins(outcomes) == |set k | 0 <= k < |outcomes| && outcomes[k] == LoggedInAfresh :: k|
  {
    var all := set k | 0 <= k < |outcomes| && outcomes[k] == LoggedInAfresh :: k;
    if outcomes != [] {
      var init := outcomes[..|outcomes| - 1];
      FreshLoginsCount(init);
      var before := set k | 0 <= k < |init| && init[k] == LoggedInAfresh :: k;
      if outcomes[|outcomes| - 1] == LoggedInAfresh {
        assert all == before + {|outcomes| - 1};
      } else {
        assert all == before;
      }
    }
  }
}
