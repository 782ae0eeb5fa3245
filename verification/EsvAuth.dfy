/** The bodies of the authentication exchanges: the versioned envelope, the tokens
    read out of it, and the replies that ask for a retry. */
module EsvAuth {
  import opened Prelude
  import opened Json
  import opened JsonLex
  import opened JsonWriter
  import opened JsonRoundTrip
  import opened JsonTheorems

  const TOTP_REUSE_TEXT := "TOTP Window has already been used"

  /** The value of the first member with the key. */
  function First(members: seq<Member>, key: string): (r: Option<JsonValue>)
    ensures r.Some? <==> HasKey(members, key)
  {
    if members == [] then None
    else if members[0].key == key then Some(members[0].value)
    else
      assert forall m :: m in members <==> m == members[0] || m in members[1..];
      First(members[1..], key)
  }

  function Get(v: JsonValue, key: string): Option<JsonValue> {
    if v.Object? then First(v.members, key) else None
  }

  function AsString(v: Option<JsonValue>): Option<string> {
    if v.Some? && v.value.String? then Some(v.value.s) else None
  }

  /** The payload of the versioned envelope: at least two elements, the first an
      object with a textual `esvVersion`. */
  function PayloadElement(v: JsonValue): Option<JsonValue> {
    if v.Array? && |v.items| >= 2 && AsString(Get(v.items[0], "esvVersion")).Some? then Some(v.items[1])
    else None
  }

  function Payload(body: string): Option<JsonValue> {
    match Parse(body)
    case Err(_) => None
    case Ok(v) => PayloadElement(v)
  }

  /** `parse_access_token`. */
  function AccessToken(body: string): Option<string> {
    match Payload(body)
    case None => None
    case Some(p) => AsString(Get(p, "accessToken"))
  }

  /** The texts of an array of strings. */
  function Texts(items: seq<JsonValue>, n: nat): (r: Option<seq<string>>)
    requires n <= |items|
    ensures r.Some? <==> forall k :: 0 <= k < n ==> items[k].String?
    ensures r.Some? ==> |r.value| == n && forall k :: 0 <= k < n ==> items[k] == String(r.value[k])
  {
    if n == 0 then Some([])
    else
      match Texts(items, n - 1)
      case None => None
      case Some(before) => if items[n - 1].String? then Some(before + [items[n - 1].s]) else None
  }

  /** The tokens of a bulk reply: as many as were sent, in order. A lone string is
      taken for a list of one. */
  function BulkTokens(body: string, expected: nat): Option<seq<string>> {
    match Payload(body)
    case None => None
    case Some(p) =>
      match Get(p, "accessToken")
      case None => None
      case Some(field) =>
        var tokens :=
          if field.Array? then Texts(field.items, |field.items|)
          else if field.String? then Some([field.s])
          else None;
        if tokens.Some? && |tokens.value| == expected then tokens else None
  }

  method ParseBulkRefreshTokens(body: string, expected: nat) returns (r: Option<seq<string>>)
    ensures r == BulkTokens(body, expected)
  {
    var payload := Payload(body);
    if payload.None? { return None; }
    var field := Get(payload.value, "accessToken");
    if field.None? { return None; }
    var tokens: seq<string> := [];
    if field.value.Array? {
      var items := field.value.items;
      for k := 0 to |items|
        invariant Texts(items, k) == Some(tokens)
      {
        if !items[k].String? { return None; }
        tokens := tokens + [items[k].s];
      }
    } else if field.value.String? {
      tokens := [field.value.s];
    } else {
      return None;
    }
    if |tokens| != expected { return None; }
    return Some(tokens);
  }

  // ----- outgoing bodies

  function Envelope(payload: seq<Member>): JsonValue {
    Array([Object([Member("esvVersion", String("1.0"))]), Object(payload)])
  }

  function LoginPayload(code: string): seq<Member> {
    [Member("password", String(code))]
  }

  function RefreshPayload(code: string, token: string): seq<Member> {
    [Member("password", String(code)), Member("accessToken", String(token))]
  }

  function Strings(ts: seq<string>): (r: seq<JsonValue>)
    ensures |r| == |ts| && forall k :: 0 <= k < |ts| ==> r[k] == String(ts[k])
  {
    seq(|ts|, k requires 0 <= k < |ts| => String(ts[k]))
  }

  function BulkPayload(code: string, tokens: seq<string>): seq<Member> {
    [Member("password", String(code)), Member("accessToken", Array(Strings(tokens)))]
  }

  function LoginBody(code: string): string {
    Render(Envelope(LoginPayload(code)), Pretty, 0)
  }

  function RefreshBody(code: string, token: string): string {
    Render(Envelope(RefreshPayload(code, token)), Pretty, 0)
  }

  function BulkBody(code: string, tokens: seq<string>): string {
    Render(Envelope(BulkPayload(code, tokens)), Pretty, 0)
  }

  // ----- reading back what was written

  lemma FlatHeight(items: seq<JsonValue>)
    requires forall k :: 0 <= k < |items| ==> items[k].String?
    ensures ItemsHeight(items) == 0
  {
  }

  lemma PairHeight(a: JsonValue, b: JsonValue)
    ensures Height(Array([a, b])) == 1 + Max(Height(a), Height(b))
  {
    assert ItemsHeight([a]) == Height(a) by { assert [a][..0] == []; }
    assert ItemsHeight([a, b]) == Max(ItemsHeight([a]), Height(b)) by { assert [a, b][..1] == [a]; }
  }

  lemma TwoMembersHeight(a: Member, b: Member)
    ensures Height(Object([a, b])) == 1 + Max(Height(a.value), Height(b.value))
  {
    assert MembersHeight([a]) == Height(a.value) by { assert [a][..0] == []; }
    assert MembersHeight([a, b]) == Max(MembersHeight([a]), Height(b.value)) by { assert [a, b][..1] == [a]; }
  }

  lemma OneMemberHeight(a: Member)
    ensures Height(Object([a])) == 1 + Height(a.value)
  {
    assert MembersHeight([a]) == Height(a.value) by { assert [a][..0] == []; }
  }

  lemma BulkShape(code: string, tokens: seq<string>)
    ensures DistinctKeys(Envelope(BulkPayload(code, tokens))) && Height(Envelope(BulkPayload(code, tokens))) <= MAX_DEPTH
  {
    FlatHeight(Strings(tokens));
    OneMemberHeight(Member("esvVersion", String("1.0")));
    TwoMembersHeight(Member("password", String(code)), Member("accessToken", Array(Strings(tokens))));
    PairHeight(Object([Member("esvVersion", String("1.0"))]), Object(BulkPayload(code, tokens)));
    var list := Array(Strings(tokens));
    assert DistinctKeys(list);
    assert DistinctKeys(Object(BulkPayload(code, tokens)));
  }

  lemma RefreshShape(code: string, token: string)
    ensures DistinctKeys(Envelope(RefreshPayload(code, token))) && Height(Envelope(RefreshPayload(code, token))) <= MAX_DEPTH
  {
    OneMemberHeight(Member("esvVersion", String("1.0")));
    TwoMembersHeight(Member("password", String(code)), Member("accessToken", String(token)));
    PairHeight(Object([Member("esvVersion", String("1.0"))]), Object(RefreshPayload(code, token)));
    assert KeysDistinct(RefreshPayload(code, token));
  }

  lemma EnvelopePayload(p: seq<Member>)
    ensures PayloadElement(Envelope(p)) == Some(Object(p))
  {
    assert First([Member("esvVersion", String("1.0"))], "esvVersion") == Some(String("1.0"));
  }

  lemma SecondMember(a: Member, b: Member)
    requires a.key != b.key
    ensures First([a, b], b.key) == Some(b.value)
  {
    assert [a, b][1..] == [b];
  }

  /** A refresh body hands the old token over exactly when its text survives the
      codec, and so does reading it back as a reply. */
  lemma RefreshBodyCarriesToken(code: string, token: string)
    ensures AccessToken(RefreshBody(code, token)) == Some(MangledText(token))
    ensures AccessToken(RefreshBody(code, token)) == Some(token) <==> Survives(token)
  {
    hide Render, Parse, MangledText, Survives, DistinctKeys, Height, Get, PayloadElement;
    var p := RefreshPayload(code, token);
    RefreshShape(code, token);
    ParsePrinted(Envelope(p), Pretty);
    MangledRefresh(code, token);
    EnvelopePayload(RefreshPayload(MangledText(code), MangledText(token)));
    RefreshToken(MangledText(code), MangledText(token));
    MangledTextFixed(token);
  }

  lemma RefreshToken(code: string, token: string)
    ensures Get(Object(RefreshPayload(code, token)), "accessToken") == Some(String(token))
  {
    SecondMember(Member("password", String(code)), Member("accessToken", String(token)));
  }

  lemma PlainTextKept(t: string)
    requires forall k :: 0 <= k < |t| ==> !NeedsEscape(t[k])
    ensures MangledText(t) == t
  {
    MangledTextFixed(t);
  }

  lemma MangledTexts()
    ensures MangledText("1.0") == "1.0" && MangledText("esvVersion") == "esvVersion"
    ensures MangledText("password") == "password" && MangledText("accessToken") == "accessToken"
  {
    hide MangledText;
    PlainTextKept("1.0");
    PlainTextKept("esvVersion");
    PlainTextKept("password");
    PlainTextKept("accessToken");
  }

  lemma MangledPair(a: JsonValue, b: JsonValue)
    ensures Mangled(Array([a, b])) == Array([Mangled(a), Mangled(b)])
  {
    hide MangledText;
  }

  lemma MangledMembersOne(a: Member)
    ensures Mangled(Object([a])) == Object([Member(MangledText(a.key), Mangled(a.value))])
  {
    hide MangledText;
  }

  lemma MangledMembersTwo(a: Member, b: Member)
    ensures Mangled(Object([a, b]))
         == Object([Member(MangledText(a.key), Mangled(a.value)), Member(MangledText(b.key), Mangled(b.value))])
  {
    hide MangledText;
  }

  lemma MangledRefresh(code: string, token: string)
    ensures Mangled(Envelope(RefreshPayload(code, token))) == Envelope(RefreshPayload(MangledText(code), MangledText(token)))
  {
    hide MangledText;
    MangledTexts();
    MangledMembersOne(Member("esvVersion", String("1.0")));
    MangledMembersTwo(Member("password", String(code)), Member("accessToken", String(token)));
    MangledPair(Object([Member("esvVersion", String("1.0"))]), Object(RefreshPayload(code, token)));
  }

  function MangledAll(ts: seq<string>): (r: seq<string>)
    ensures |r| == |ts| && forall k :: 0 <= k < |ts| ==> r[k] == MangledText(ts[k])
  {
    seq(|ts|, k requires 0 <= k < |ts| => MangledText(ts[k]))
  }

  lemma MangledBulk(code: string, ts: seq<string>)
    ensures Mangled(Envelope(BulkPayload(code, ts))) == Envelope(BulkPayload(MangledText(code), MangledAll(ts)))
  {
    hide MangledText;
    MangledTexts();
    assert Mangled(Array(Strings(ts))) == Array(Strings(MangledAll(ts))) by {
      assert MangledItems(Strings(ts), |ts|) == Strings(MangledAll(ts));
    }
    MangledMembersOne(Member("esvVersion", String("1.0")));
    MangledMembersTwo(Member("password", String(code)), Member("accessToken", Array(Strings(ts))));
    MangledPair(Object([Member("esvVersion", String("1.0"))]), Object(BulkPayload(code, ts)));
  }

  /** The bulk mapping is positional: a body that carries a token list is read as that
      list for its own length and refused for every other length. */
  lemma BulkReadsBack(code: string, ts: seq<string>, expected: nat)
    ensures BulkTokens(BulkBody(code, ts), expected) == if expected == |ts| then Some(MangledAll(ts)) else None
    ensures (forall k :: 0 <= k < |ts| ==> Survives(ts[k])) ==> MangledAll(ts) == ts
  {
    hide Render, Parse, MangledText, Survives, DistinctKeys, Height, PayloadElement;
    BulkShape(code, ts);
    ParsePrinted(Envelope(BulkPayload(code, ts)), Pretty);
    MangledBulk(code, ts);
    var all := MangledAll(ts);
    EnvelopePayload(BulkPayload(MangledText(code), all));
    SecondMember(Member("password", String(MangledText(code))), Member("accessToken", Array(Strings(all))));
    assert Texts(Strings(all), |all|).value == all;
    forall k | 0 <= k < |ts| ensures all[k] == ts[k] <==> Survives(ts[k]) {
      MangledTextFixed(ts[k]);
    }
  }

  // ----- the bodies and replies, written out

  lemma LoginShape(code: string)
    ensures DistinctKeys(Envelope(LoginPayload(code))) && Height(Envelope(LoginPayload(code))) <= MAX_DEPTH
  {
    OneMemberHeight(Member("esvVersion", String("1.0")));
    OneMemberHeight(Member("password", String(code)));
    PairHeight(Object([Member("esvVersion", String("1.0"))]), Object(LoginPayload(code)));
  }

  lemma MangledLogin(code: string)
    ensures Mangled(Envelope(LoginPayload(code))) == Envelope(LoginPayload(MangledText(code)))
  {
    hide MangledText;
    MangledTexts();
    MangledMembersOne(Member("esvVersion", String("1.0")));
    MangledMembersOne(Member("password", String(code)));
    MangledPair(Object([Member("esvVersion", String("1.0"))]), Object(LoginPayload(code)));
  }

  /** The versioned envelope: the version, then the payload. */
  predicate IsVersioned(body: string, payload: seq<Member>) {
    Parse(body) == Ok(Array([Object([Member("esvVersion", String("1.0"))]), Object(payload)]))
  }

  /** What the three request bodies say to whoever parses them: the one-time code as the
      password, and with it nothing, the held token, or the tokens in their order. */
  lemma BodiesSay(code: string, token: string, ts: seq<string>)
    ensures IsVersioned(LoginBody(code), [Member("password", String(MangledText(code)))])
    ensures IsVersioned(RefreshBody(code, token),
      [Member("password", String(MangledText(code))), Member("accessToken", String(MangledText(token)))])
    ensures exists list ::
      && |list| == |ts| && (forall k :: 0 <= k < |ts| ==> list[k] == String(MangledText(ts[k])))
      && IsVersioned(BulkBody(code, ts), [Member("password", String(MangledText(code))), Member("accessToken", Array(list))])
    ensures Survives(code) ==> MangledText(code) == code
  {
    hide Render, Parse, MangledText, Survives, DistinctKeys, Height;
    LoginShape(code);
    ParsePrinted(Envelope(LoginPayload(code)), Pretty);
    MangledLogin(code);
    RefreshShape(code, token);
    ParsePrinted(Envelope(RefreshPayload(code, token)), Pretty);
    MangledRefresh(code, token);
    BulkShape(code, ts);
    ParsePrinted(Envelope(BulkPayload(code, ts)), Pretty);
    MangledBulk(code, ts);
    var list := Strings(MangledAll(ts));
    assert |list| == |ts| && forall k :: 0 <= k < |ts| ==> list[k] == String(MangledText(ts[k]));
    MangledTextFixed(code);
  }

  /** The first member with the key has the value. */
  predicate FirstIs(v: JsonValue, key: string, value: JsonValue) {
    v.Object? && exists k :: 0 <= k < |v.members| && IsFirstAt(v.members, k, key, value)
  }

  predicate IsFirstAt(members: seq<Member>, k: nat, key: string, value: JsonValue)
    requires k < |members|
  {
    members[k] == Member(key, value) && forall j :: 0 <= j < k ==> members[j].key != key
  }

  lemma {:induction false} FirstIff(members: seq<Member>, key: string, value: JsonValue)
    ensures First(members, key) == Some(value) <==> exists k :: 0 <= k < |members| && IsFirstAt(members, k, key, value)
  {
    if members != [] {
      var rest := members[1..];
      FirstIff(rest, key, value);
      if members[0].key == key {
        if members[0].value == value { assert IsFirstAt(members, 0, key, value); }
      } else {
        if k :| 0 <= k < |members| && IsFirstAt(members, k, key, value) {
          assert forall j :: 0 <= j < k - 1 ==> rest[j] == members[j + 1];
          assert IsFirstAt(rest, k - 1, key, value);
        }
        if k :| 0 <= k < |rest| && IsFirstAt(rest, k, key, value) {
          assert forall j :: 0 < j < k + 1 ==> members[j] == rest[j - 1];
          assert IsFirstAt(members, k + 1, key, value);
        }
      }
    }
  }

  lemma GetIff(v: JsonValue, key: string, value: JsonValue)
    ensures Get(v, key) == Some(value) <==> FirstIs(v, key, value)
  {
    if v.Object? { FirstIff(v.members, key, value); }
  }

  /** The reply is an envelope: an array whose first element has a textual version and
      whose second is the payload. */
  predicate IsReply(body: string, payload: JsonValue) {
    && Parse(body).Ok? && Parse(body).value.Array?
    && var items := Parse(body).value.items;
       |items| >= 2 && items[1] == payload && HasVersion(items[0])
  }

  predicate HasVersion(v: JsonValue) {
    v.Object? && exists k :: 0 <= k < |v.members| && v.members[k].value.String? && IsFirstAt(v.members, k, "esvVersion", v.members[k].value)
  }

  lemma PayloadIff(body: string, payload: JsonValue)
    ensures Payload(body) == Some(payload) <==> IsReply(body, payload)
  {
    hide Parse, First;
    if Parse(body).Ok? && Parse(body).value.Array? && |Parse(body).value.items| >= 2 {
      var v := Parse(body).value.items[0];
      if HasVersion(v) {
        var k :| 0 <= k < |v.members| && v.members[k].value.String? && IsFirstAt(v.members, k, "esvVersion", v.members[k].value);
        FirstIff(v.members, "esvVersion", v.members[k].value);
      }
      if v.Object? && First(v.members, "esvVersion").Some? {
        FirstIff(v.members, "esvVersion", First(v.members, "esvVersion").value);
      }
    }
  }

  /** A token is read exactly from a textual `accessToken` in the payload of a versioned
      reply. */
  lemma AccessTokenIff(body: string, token: string)
    ensures AccessToken(body) == Some(token) <==> exists payload :: IsReply(body, payload) && FirstIs(payload, "accessToken", String(token))
  {
    hide Parse, Payload, Get, FirstIs, IsReply;
    if Payload(body).Some? {
      var p := Payload(body).value;
      PayloadIff(body, p);
      GetIff(p, "accessToken", String(token));
    }
    if payload :| IsReply(body, payload) && FirstIs(payload, "accessToken", String(token)) {
      PayloadIff(body, payload);
      GetIff(payload, "accessToken", String(token));
    }
  }

  /** The `accessToken` stands for the list: an array of exactly these texts, or a lone
      text for a list of one. */
  predicate StandsFor(field: JsonValue, tokens: seq<string>) {
    if field.Array? then |field.items| == |tokens| && forall k :: 0 <= k < |tokens| ==> field.items[k] == String(tokens[k])
    else |tokens| == 1 && field == String(tokens[0])
  }

  /** A list is read, for an expected length, exactly from such a reply of that length. */
  lemma BulkTokensIff(body: string, expected: nat, tokens: seq<string>)
    ensures BulkTokens(body, expected) == Some(tokens) <==>
      |tokens| == expected && exists payload, field :: IsReply(body, payload) && FirstIs(payload, "accessToken", field) && StandsFor(field, tokens)
  {
    hide Parse, Payload, Get, FirstIs, IsReply, Texts, StandsFor;
    if Payload(body).Some? {
      var p := Payload(body).value;
      PayloadIff(body, p);
      if Get(p, "accessToken").Some? {
        var field := Get(p, "accessToken").value;
        GetIff(p, "accessToken", field);
        StandsForIff(field, tokens);
      }
    }
    if payload, field :| IsReply(body, payload) && FirstIs(payload, "accessToken", field) && StandsFor(field, tokens) {
      PayloadIff(body, payload);
      GetIff(payload, "accessToken", field);
      StandsForIff(field, tokens);
    }
  }

  lemma StandsForIff(field: JsonValue, tokens: seq<string>)
    ensures StandsFor(field, tokens) <==>
      (if field.Array? then Texts(field.items, |field.items|) else if field.String? then Some([field.s]) else None) == Some(tokens)
  {
    hide Texts;
    if field.Array? {
      var r := Texts(field.items, |field.items|);
      if r.Some? && StandsFor(field, tokens) {
        assert forall k :: 0 <= k < |tokens| ==> r.value[k] == tokens[k];
        assert r.value == tokens;
      }
    } else if field.String? && |tokens| == 1 {
      assert tokens == [tokens[0]];
    }
  }
}
