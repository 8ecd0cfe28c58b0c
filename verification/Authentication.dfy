/** Request authentication (src/web/authentication.c): session tokens carried by
    Cookie and Bearer headers, and Basic credentials that open a session. */
module Authentication {
  import opened Text
  import opened Sessions
  import Users

  const SESSION_TOKEN_SIZE: nat := 128
  const EACCES := 13
  const COOKIE_KEY := "session_token="

  datatype Header = Header(name: string, value: string)

  /** Base64 as an unknown function to the decoded C string. */
  type Decoder = string -> Option<string>

  predicate StartsNoCase(s: string, prefix: string) {
    |prefix| <= |s| && SameNoCase(s[..|prefix|], prefix)
  }

  predicate OccursAt(s: string, needle: string, i: nat) {
    i + |needle| <= |s| && s[i..i + |needle|] == needle
  }

  /** `strstr`. */
  function FindSub(s: string, needle: string, from: nat := 0): (r: Option<nat>)
    requires from <= |s|
    ensures r.Some? ==> from <= r.value && OccursAt(s, needle, r.value)
    ensures forall i :: from <= i < (if r.Some? then r.value else |s| + 1) ==> !OccursAt(s, needle, i)
    decreases |s| - from
  {
    if OccursAt(s, needle, from) then Some(from)
    else if from == |s| then None
    else FindSub(s, needle, from + 1)
  }

  /** The token of a Cookie header; one that does not fit is ignored. */
  function CookieToken(value: string): Option<string> {
    match FindSub(value, COOKIE_KEY)
    case None => None
    case Some(pos) =>
      var start := pos + |COOKIE_KEY|;
      var token := value[start..IndexOf(value, ';', start)];
      if |token| < SESSION_TOKEN_SIZE then Some(token) else None
  }

  /** The token of a Bearer header, cut to the buffer. */
  function BearerToken(value: string): string
    requires |value| >= 7
  {
    Snprintf(SESSION_TOKEN_SIZE, value[7..])
  }

  /** How `authentication` reads one header. */
  datatype Claim = Token(token: string) | Basic(encoded: string) | Nothing

  function ReadHeader(h: Header): Claim {
    if SameNoCase(h.name, "Cookie") then
      var token := CookieToken(h.value);
      if token.Some? then Token(token.value) else Nothing
    else if SameNoCase(h.name, "Authorization") then
      if StartsNoCase(h.value, "Basic ") then Basic(h.value[6..])
      else if StartsNoCase(h.value, "Bearer ") then Token(BearerToken(h.value))
      else Nothing
    else Nothing
  }

  /** What one call decides, and what it does to the session table. */
  datatype Outcome = Outcome(ok: bool, events: seq<Event>)

  /** A login attempt: credentials before and after the first colon. */
  function Credentials(decoded: string): Option<(string, string)> {
    var colon := IndexOf(decoded, ':', 0);
    if colon == |decoded| then None else Some((decoded[..colon], decoded[colon + 1..]))
  }

  datatype Context = Context(users: Users.UserList, digest: Users.Digest, decode: Decoder,
                             checkOnly: bool, now: u32, newToken: string)

  function Claims(hs: seq<Header>): seq<Claim> {
    seq(|hs|, i requires 0 <= i < |hs| => ReadHeader(hs[i]))
  }

  function Auth(c: Context, t: Table, hs: seq<Header>): Outcome
    requires t != []
  {
    Decide(c, t, Claims(hs))
  }

  function Decide(c: Context, t: Table, claims: seq<Claim>): Outcome
    requires t != []
    decreases |claims|
  {
    if claims == [] then Outcome(false, []) else
    match claims[0]
    case Token(token) =>
      var probe := Probe(token, c.now);
      if Accepts(t, token, c.now) then Outcome(true, [probe]) else
      var rest := Decide(c, Check(t, token, c.now), claims[1..]);
      Outcome(rest.ok, [probe] + rest.events)
    case Basic(encoded) =>
      var claimed := Claimed(c, encoded);
      if claimed.None? then Decide(c, t, claims[1..])
      else if Users.Accepted(c.users, claimed.value.0, c.digest(claimed.value.1)) then
        Outcome(true, [Login(c.newToken, c.now)])
      else Outcome(false, [])
    case Nothing => Decide(c, t, claims[1..])
  }

  class Authenticator {
    const sessions: SessionTable
    const users: Users.UserTable
    const decode: Decoder

    constructor (sessions: SessionTable, users: Users.UserTable, decode: Decoder)
      ensures this.sessions == sessions && this.users == users && this.decode == decode
    {
      this.sessions, this.users, this.decode := sessions, users, decode;
    }

    ghost predicate Valid()
      reads users
    {
      sessions.Valid() && users.Valid()
    }

    /** The Basic branch: None when the header is passed over, otherwise whether
        the credentials opened a session. */
    method TryBasic(encoded: string, bufSize: nat, now: u32, newToken: string) returns (r: Option<bool>)
      requires Valid() && |newToken| < SESSION_TOKEN_SIZE
      modifies sessions.slots
      ensures var c := Context(users.Contents().ram, users.digest, decode, bufSize == 0, now, newToken);
              var claimed := Claimed(c, encoded);
              && (r.Some? <==> claimed.Some?)
              && (r.Some? ==> r.value == Users.Accepted(c.users, claimed.value.0, c.digest(claimed.value.1)))
      ensures r == Some(true) ==> bufSize > 0
      ensures sessions.slots[..] ==
              if r == Some(true) then Store(old(sessions.slots[..]), newToken, now) else old(sessions.slots[..])
    {
      if bufSize == 0 {
        return None;
      }
      var decoded := decode(encoded);
      if decoded.None? {
        return None;
      }
      var colon := IndexOf(decoded.value, ':', 0);
      if colon == |decoded.value| {
        return None;
      }
      var ok := users.CheckUserCredentials(decoded.value[..colon], decoded.value[colon + 1..]);
      if ok {
        sessions.StoreSessionToken(newToken, now);
      }
      return Some(ok);
    }

    /** `newToken` is what the token generator would return in this call, and a
        `bufSize` of zero asks for a check only. */
    method Authenticate(headers: seq<Header>, bufSize: nat, now: u32, newToken: string)
      returns (rc: int, token: string)
      requires Valid() && |newToken| < SESSION_TOKEN_SIZE
      modifies sessions.slots
      ensures var c := Context(users.Contents().ram, users.digest, decode, bufSize == 0, now, newToken);
              var r := Auth(c, old(sessions.slots[..]), headers);
              && rc == (if r.ok then 0 else -EACCES)
              && sessions.slots[..] == Replay(old(sessions.slots[..]), r.events)
              && token == if bufSize > 0 && Login(newToken, now) in r.events then Snprintf(bufSize, newToken) else ""
    {
      token := "";
      ghost var c := Context(users.Contents().ram, users.digest, decode, bufSize == 0, now, newToken);
      ghost var start, claims := sessions.slots[..], Claims(headers);
      ghost var events: seq<Event> := [];
      assert events + Decide(c, start, claims).events == Decide(c, start, claims).events;
      for i := 0 to |headers|
        invariant Valid()
        invariant sessions.slots[..] == Replay(start, events)
        invariant Login(newToken, now) !in events
        invariant Continues(c, start, claims, events, claims[i..])
      {
        var claim := ReadHeader(headers[i]);
        assert claims[i..][0] == claim && claims[i..][1..] == claims[i + 1..];
        match claim {
          case Token(claimed) =>
            TokenStep(c, start, claims, events, claims[i..]);
            var ok := sessions.CheckTokenValid(claimed, now);
            events := events + [Probe(claimed, now)];
            if ok {
              return 0, token;
            }
          case Basic(encoded) =>
            var login := TryBasic(encoded, bufSize, now, newToken);
            if login.Some? {
              LoginStep(c, start, claims, events, claims[i..]);
              if !login.value {
                return -EACCES, token;
              }
              token := Snprintf(bufSize, newToken);
              return 0, token;
            }
          case Nothing =>
        }
      }
      assert claims[|headers|..] == [] && events + [] == events;
      return -EACCES, token;
    }
  }

  /** After `done`, the decision is the one on the remaining claims. */
  ghost predicate Continues(c: Context, t: Table, all: seq<Claim>, done: seq<Event>, rest: seq<Claim>)
    requires t != []
  {
    var r := Decide(c, Replay(t, done), rest);
    Decide(c, t, all) == Outcome(r.ok, done + r.events)
  }

  function Claimed(c: Context, encoded: string): Option<(string, string)> {
    if c.checkOnly || c.decode(encoded).None? then None else Credentials(c.decode(encoded).value)
  }

  lemma TokenStep(c: Context, t: Table, all: seq<Claim>, done: seq<Event>, rest: seq<Claim>)
    requires t != [] && rest != [] && rest[0].Token? && Continues(c, t, all, done, rest)
    ensures var e, u := Probe(rest[0].token, c.now), Replay(t, done);
      && Replay(t, done + [e]) == Check(u, e.token, c.now)
      && if Accepts(u, e.token, c.now) then Decide(c, t, all) == Outcome(true, done + [e])
         else Continues(c, t, all, done + [e], rest[1..])
  {
  }

  lemma LoginStep(c: Context, t: Table, all: seq<Claim>, done: seq<Event>, rest: seq<Claim>)
    requires t != [] && rest != [] && rest[0].Basic? && Continues(c, t, all, done, rest)
    requires Claimed(c, rest[0].encoded).Some?
    ensures var e, claimed := Login(c.newToken, c.now), Claimed(c, rest[0].encoded).value;
      && Replay(t, done + [e]) == Store(Replay(t, done), c.newToken, c.now)
      && Decide(c, t, all) ==
           if Users.Accepted(c.users, claimed.0, c.digest(claimed.1)) then Outcome(true, done + [e])
           else Outcome(false, done)
  {
  }

  // ---- checking only ----

  ghost function Live(t: Table, now: u32): set<Slot> {
    set y | y in t && y.token != "" && y.expires > now
  }

  ghost predicate CarriesOneOf(live: set<Slot>, claim: Claim) {
    claim.Token? && exists y :: y in live && y.token == claim.token
  }

  lemma CheckKeepsLive(t: Table, token: string, now: u32)
    requires DistinctTokens(t)
    ensures DistinctTokens(Check(t, token, now))
    ensures Live(Check(t, token, now), now) == Live(t, now)
    ensures Accepts(t, token, now) <==> exists y :: y in Live(t, now) && y.token == token
  {
  }

  /** A check without a token buffer succeeds exactly when some header carries a
      live token; it creates no session and, although it may clear expired
      slots, leaves every live one as it was. */
  lemma CheckOnlyMeansLiveToken(c: Context, t: Table, hs: seq<Header>)
    requires t != [] && DistinctTokens(t) && c.checkOnly
    ensures var r := Auth(c, t, hs);
      && (r.ok <==> exists i :: 0 <= i < |hs| && CarriesOneOf(Live(t, c.now), ReadHeader(hs[i])))
      && (forall e :: e in r.events ==> e.Probe?)
      && Live(Replay(t, r.events), c.now) == Live(t, c.now)
  {
    DecideOnly(c, t, Claims(hs));
    assert forall i :: 0 <= i < |hs| ==> Claims(hs)[i] == ReadHeader(hs[i]);
  }

  lemma ReplayFront(t: Table, e: Event, es: seq<Event>)
    requires t != []
    ensures Replay(t, [e] + es) == Replay(Apply(t, e), es)
  {
    ReplayOneMore(t, [], e);
    assert [] + [e] == [e];
    ReplayConcat(t, [e], es);
  }

  lemma {:induction false} DecideOnly(c: Context, t: Table, claims: seq<Claim>)
    requires t != [] && DistinctTokens(t) && c.checkOnly
    ensures var r := Decide(c, t, claims);
      && (r.ok <==> exists i :: 0 <= i < |claims| && CarriesOneOf(Live(t, c.now), claims[i]))
      && (forall e :: e in r.events ==> e.Probe?)
      && Live(Replay(t, r.events), c.now) == Live(t, c.now)
    decreases |claims|
  {
    if claims != [] {
      assert forall i :: 1 <= i < |claims| ==> claims[i] == claims[1..][i - 1];
      var claim := claims[0];
      if claim.Token? {
        var e, t' := Probe(claim.token, c.now), Check(t, claim.token, c.now);
        CheckKeepsLive(t, claim.token, c.now);
        DecideOnly(c, t', claims[1..]);
        var rest := Decide(c, t', claims[1..]);
        ReplayFront(t, e, []);
        ReplayFront(t, e, rest.events);
        assert [e] + [] == [e];
      } else {
        DecideOnly(c, t, claims[1..]);
      }
    }
  }

  /** Access is granted, and a session opened, only on a live token or on
      credentials that the user table accepts. */
  lemma AccessNeedsProof(c: Context, t: Table, hs: seq<Header>)
    requires t != [] && DistinctTokens(t)
    ensures var r := Auth(c, t, hs);
      && (Login(c.newToken, c.now) in r.events ==> r.ok)
      && (r.ok ==> exists i :: 0 <= i < |hs| && Backs(c, t, r, ReadHeader(hs[i])))
  {
    DecideNeedsProof(c, t, Claims(hs));
    assert forall i :: 0 <= i < |hs| ==> Claims(hs)[i] == ReadHeader(hs[i]);
  }

  ghost predicate Proves(c: Context, claim: Claim) {
    && claim.Basic? && Claimed(c, claim.encoded).Some?
    && var (name, password) := Claimed(c, claim.encoded).value;
       Users.Accepted(c.users, name, c.digest(password))
  }

  /** The claim that stands behind a positive outcome. */
  ghost predicate Backs(c: Context, t: Table, r: Outcome, claim: Claim) {
    if Login(c.newToken, c.now) in r.events then Proves(c, claim) else CarriesOneOf(Live(t, c.now), claim)
  }

  lemma {:induction false} DecideNeedsProof(c: Context, t: Table, claims: seq<Claim>)
    requires t != [] && DistinctTokens(t)
    ensures var r := Decide(c, t, claims);
      && (Login(c.newToken, c.now) in r.events ==> r.ok)
      && (r.ok ==> exists i :: 0 <= i < |claims| && Backs(c, t, r, claims[i]))
    decreases |claims|
  {
    if claims != [] {
      assert forall i :: 1 <= i < |claims| ==> claims[i] == claims[1..][i - 1];
      var claim := claims[0];
      if claim.Token? {
        CheckKeepsLive(t, claim.token, c.now);
        DecideNeedsProof(c, Check(t, claim.token, c.now), claims[1..]);
      } else {
        DecideNeedsProof(c, t, claims[1..]);
      }
    }
  }

  // ---- the first header that settles the matter ----

  ghost predicate Settles(c: Context, live: set<Slot>, claim: Claim) {
    CarriesOneOf(live, claim) || (claim.Basic? && Claimed(c, claim.encoded).Some?)
  }

  ghost predicate FirstToSettle(c: Context, live: set<Slot>, claims: seq<Claim>, i: nat) {
    && i < |claims| && Settles(c, live, claims[i])
    && forall j :: 0 <= j < i ==> !Settles(c, live, claims[j])
  }

  /** The first header that carries a live token or readable credentials settles
      the matter: access follows exactly when it is a token or its credentials are
      accepted, and a session is opened exactly in the latter case. Headers before
      it, dead tokens and unreadable ones included, do not matter. */
  lemma FirstSettlingHeaderDecides(c: Context, t: Table, hs: seq<Header>)
    requires t != [] && DistinctTokens(t)
    ensures var r, live := Auth(c, t, hs), Live(t, c.now);
      && (r.ok <==> exists i: nat :: FirstToSettle(c, live, Claims(hs), i)
                                     && (Claims(hs)[i].Token? || Proves(c, Claims(hs)[i])))
      && (Login(c.newToken, c.now) in r.events
          <==> exists i: nat :: FirstToSettle(c, live, Claims(hs), i) && Proves(c, Claims(hs)[i]))
  {
    DecidedByFirst(c, t, Claims(hs));
  }

  lemma {:induction false} DecidedByFirst(c: Context, t: Table, claims: seq<Claim>)
    requires t != [] && DistinctTokens(t)
    ensures var r, live := Decide(c, t, claims), Live(t, c.now);
      && (r.ok <==> exists i: nat :: FirstToSettle(c, live, claims, i) && (claims[i].Token? || Proves(c, claims[i])))
      && (Login(c.newToken, c.now) in r.events
          <==> exists i: nat :: FirstToSettle(c, live, claims, i) && Proves(c, claims[i]))
    decreases |claims|
  {
    if claims != [] {
      var claim, live := claims[0], Live(t, c.now);
      if claim.Token? {
        CheckKeepsLive(t, claim.token, c.now);
      }
      if Settles(c, live, claim) {
        assert FirstToSettle(c, live, claims, 0);
        assert forall i: nat :: FirstToSettle(c, live, claims, i) ==> i == 0;
      } else {
        var next := if claim.Token? then Check(t, claim.token, c.now) else t;
        DecidedByFirst(c, next, claims[1..]);
        FirstInTail(c, live, claims);
      }
    }
  }

  lemma FirstInTail(c: Context, live: set<Slot>, claims: seq<Claim>)
    requires claims != [] && !Settles(c, live, claims[0])
    ensures forall i: nat :: FirstToSettle(c, live, claims, i + 1) <==> FirstToSettle(c, live, claims[1..], i)
    ensures !FirstToSettle(c, live, claims, 0)
  {
    forall i: nat
      ensures FirstToSettle(c, live, claims, i + 1) <==> FirstToSettle(c, live, claims[1..], i)
    {
      assert forall j :: 0 <= j < |claims| - 1 ==> claims[1..][j] == claims[j + 1];
      if FirstToSettle(c, live, claims[1..], i) {
        forall j | 0 <= j < i + 1 ensures !Settles(c, live, claims[j]) {
          if j > 0 { assert claims[j] == claims[1..][j - 1]; }
        }
      }
    }
  }

  // ---- from login to access ----

  /** A cookie printed as session_token=T is read back as T, wherever it stands
      in the header, if T fits its buffer; a longer one is ignored. */
  lemma CookieRoundTrip(before: string, token: string, after: string)
    requires ';' !in token
    requires after == "" || after[0] == ';'
    requires forall i :: 0 <= i < |before| ==> !OccursAt(before + COOKIE_KEY + token + after, COOKIE_KEY, i)
    ensures CookieToken(before + COOKIE_KEY + token + after) ==
            if |token| < SESSION_TOKEN_SIZE then Some(token) else None
  {
    var s := before + COOKIE_KEY + token + after;
    var start := |before| + |COOKIE_KEY|;
    assert FindSub(s, COOKIE_KEY) == Some(|before|) by {
      assert OccursAt(s, COOKIE_KEY, |before|);
    }
    assert forall k :: 0 <= k < |token| ==> token[k] in token;
    TokenEnds(before + COOKIE_KEY, token, after);
    assert s[start..start + |token|] == token;
  }

  lemma TokenEnds(before: string, token: string, after: string)
    requires forall k :: 0 <= k < |token| ==> token[k] != ';'
    requires after == "" || after[0] == ';'
    ensures IndexOf(before + token + after, ';', |before|) == |before| + |token|
  {
    var s, e := before + token + after, |before| + |token|;
    assert forall k :: |before| <= k < e ==> s[k] == token[k - |before|];
    assert e < |s| ==> s[e] == after[0];
  }

  /** A request whose only header is this cookie. */
  function CookieRequest(token: string): seq<Header> {
    [Header("Cookie", COOKIE_KEY + token)]
  }

  lemma CookieRequestReads(token: string)
    requires |token| < SESSION_TOKEN_SIZE && ';' !in token
    ensures ReadHeader(CookieRequest(token)[0]) == Token(token)
  {
  }

  /** A request of one header. */
  lemma OneHeader(c: Context, t: Table, h: Header, claim: Claim)
    requires t != [] && claim == ReadHeader(h)
    ensures claim.Token? ==>
      Auth(c, t, [h]) == Outcome(Accepts(t, claim.token, c.now), [Probe(claim.token, c.now)])
    ensures claim.Nothing? ==> Auth(c, t, [h]) == Outcome(false, [])
    ensures claim.Basic? ==> Auth(c, t, [h]) == Decide(c, t, [claim])
  {
    assert Claims([h]) == [claim] && [claim][1..] == [];
    assert Decide(c, t, []) == Outcome(false, []);
    if claim.Token? {
      assert Decide(c, Check(t, claim.token, c.now), []) == Outcome(false, []);
      assert [Probe(claim.token, c.now)] + [] == [Probe(claim.token, c.now)];
    }
  }

  lemma CookieRequestDecides(c: Context, t: Table, token: string)
    requires t != [] && |token| < SESSION_TOKEN_SIZE && ';' !in token
    ensures Auth(c, t, CookieRequest(token)).ok == Accepts(t, token, c.now)
  {
    CookieRequestReads(token);
    OneHeader(c, t, CookieRequest(token)[0], Token(token));
  }

  /** A Cookie header, its name in any case, is accepted exactly when the text
      between its first session_token= and the next semicolon is a live token that
      fits its buffer. */
  lemma CookieHeaderOutcome(c: Context, t: Table, name: string, before: string, token: string, after: string)
    requires t != [] && SameNoCase(name, "Cookie") && ';' !in token && (after == "" || after[0] == ';')
    requires forall i :: 0 <= i < |before| ==> !OccursAt(before + COOKIE_KEY + token + after, COOKIE_KEY, i)
    ensures Auth(c, t, [Header(name, before + COOKIE_KEY + token + after)]) ==
      if |token| < SESSION_TOKEN_SIZE then Outcome(Accepts(t, token, c.now), [Probe(token, c.now)])
      else Outcome(false, [])
  {
    CookieRoundTrip(before, token, after);
    var h := Header(name, before + COOKIE_KEY + token + after);
    OneHeader(c, t, h, ReadHeader(h));
  }

  /** A Cookie header without that key says nothing. */
  lemma OtherCookiesSayNothing(h: Header)
    requires SameNoCase(h.name, "Cookie") && forall i :: 0 <= i <= |h.value| ==> !OccursAt(h.value, COOKIE_KEY, i)
    ensures ReadHeader(h) == Nothing
  {
  }

  /** "Authorization: Bearer T", in any case, is accepted exactly when T, cut to
      127 characters, is a live token. */
  lemma BearerRequestOutcome(c: Context, t: Table, name: string, scheme: string, token: string)
    requires t != [] && SameNoCase(name, "Authorization") && SameNoCase(scheme, "Bearer ")
    ensures var sent := if |token| < 128 then token else token[..127];
      Auth(c, t, [Header(name, scheme + token)]) == Outcome(Accepts(t, sent, c.now), [Probe(sent, c.now)])
  {
    BearerReads(name, scheme, token);
    OneHeader(c, t, Header(name, scheme + token), ReadHeader(Header(name, scheme + token)));
  }

  lemma BearerReads(name: string, scheme: string, token: string)
    requires SameNoCase(name, "Authorization") && SameNoCase(scheme, "Bearer ")
    ensures ReadHeader(Header(name, scheme + token)) == Token(if |token| < 128 then token else token[..127])
  {
    var v := scheme + token;
    assert v[..7] == scheme && v[7..] == token;
    assert v[1] == scheme[1] && Lower(scheme[1]) == 'e';
  }

  lemma BasicReads(name: string, scheme: string, encoded: string)
    requires SameNoCase(name, "Authorization") && SameNoCase(scheme, "Basic ")
    ensures ReadHeader(Header(name, scheme + encoded)) == Basic(encoded)
  {
    var v := scheme + encoded;
    assert v[..6] == scheme && v[6..] == encoded;
  }

  lemma CredentialsRead(name: string, password: string)
    requires ':' !in name
    ensures Credentials(name + ":" + password) == Some((name, password))
  {
    IndexOfPiece("", name, ':', password);
    assert "" + name + [':'] + password == name + ":" + password;
    var d := name + ":" + password;
    assert d[..|name|] == name && d[|name| + 1..] == password;
  }

  /** "Authorization: Basic" with the encoding of name:password opens a session
      exactly when the user table holds this name with the hash of this password;
      a call that only checks passes it over. */
  lemma BasicRequestOutcome(c: Context, t: Table, header: string, scheme: string, encoded: string,
                            name: string, password: string)
    requires t != [] && SameNoCase(header, "Authorization") && SameNoCase(scheme, "Basic ")
    requires ':' !in name && c.decode(encoded) == Some(name + ":" + password)
    ensures Auth(c, t, [Header(header, scheme + encoded)]) ==
      if !c.checkOnly && Users.Accepted(c.users, name, c.digest(password)) then
        Outcome(true, [Login(c.newToken, c.now)])
      else Outcome(false, [])
  {
    BasicReads(header, scheme, encoded);
    CredentialsRead(name, password);
    OneHeader(c, t, Header(header, scheme + encoded), Basic(encoded));
    assert [Basic(encoded)][1..] == [] && Decide(c, t, []) == Outcome(false, []);
  }

  /** Other headers and other schemes are not looked at. */
  lemma OtherHeadersSayNothing(h: Header)
    requires !SameNoCase(h.name, "Cookie")
    requires SameNoCase(h.name, "Authorization") ==>
      !StartsNoCase(h.value, "Basic ") && !StartsNoCase(h.value, "Bearer ")
    ensures ReadHeader(h) == Nothing
  {
  }

  /** A user whose addition was reported as done can log in after any run that
      spares the name. */
  lemma {:induction false} AddedUserLogsIn(c: Context, t: Table, header: string, scheme: string, encoded: string,
                        name: string, password: string, s: Users.Store, saveOk: bool, calls: seq<Users.Call>)
    requires t != [] && SameNoCase(header, "Authorization") && SameNoCase(scheme, "Basic ") && !c.checkOnly
    requires ':' !in name && c.decode(encoded) == Some(name + ":" + password)
    requires Users.Inv(s) && |name| < Users.MAX_USERNAME_LEN
    requires Users.Step(s, Users.AddUser(name, Some(c.digest(password)), saveOk)).1 == 0
    requires forall k :: 0 <= k < |calls| ==> Users.Spares(calls[k], name)
    requires c.users == Users.Run(Users.Step(s, Users.AddUser(name, Some(c.digest(password)), saveOk)).0, calls).ram
    ensures Auth(c, t, [Header(header, scheme + encoded)]) == Outcome(true, [Login(c.newToken, c.now)])
  {
    Users.AddedStaysAccepted(s, Users.AddUser(name, Some(c.digest(password)), saveOk), calls);
    BasicRequestOutcome(c, t, header, scheme, encoded, name, password);
  }

  /** A correct Basic login, answered with token T, opens the door to the cookie
      session_token=T for exactly one hour, or until ten further logins or the
      next initialisation, whatever requests come in between, if no other login
      happens in the same second. */
  lemma LoginThenCookie(c: Context, past: seq<Event>, encoded: string, name: string, password: string,
                        later: seq<Event>, c': Context)
    requires ':' !in name && c.decode(encoded) == Some(name + ":" + password) && !c.checkOnly
    requires Users.Accepted(c.users, name, c.digest(password))
    requires ';' !in c.newToken && |c.newToken| < SESSION_TOKEN_SIZE
    requires var es := past + [Login(c.newToken, c.now)] + later;
             Admissible(es) && Alone(es, |past|) && Clock(es) <= c'.now
    ensures var r := Auth(c, After(past), [Header("Authorization", "Basic " + encoded)]);
            var t := Replay(After(past), r.events + later);
            && r.ok
            && (Auth(c', t, CookieRequest(c.newToken)).ok
                <==> c'.now < c.now + SESSION_LIFETIME_SEC && NoRestart(later) && LoginCount(later) < MAX_SESSIONS)
  {
    BasicRequestOutcome(c, After(past), "Authorization", "Basic ", encoded, name, password);
    TokenAfterLogin(past, Login(c.newToken, c.now), later, c'.now);
    CookieRequestDecides(c', Replay(After(past), [Login(c.newToken, c.now)] + later), c.newToken);
  }

  lemma TokenAfterLogin(past: seq<Event>, e: Event, later: seq<Event>, now: u32)
    requires e.Login? && Admissible(past + [e] + later) && Alone(past + [e] + later, |past|)
    requires Clock(past + [e] + later) <= now
    ensures Accepts(Replay(After(past), [e] + later), e.token, now)
       <==> now < e.now + SESSION_LIFETIME_SEC && NoRestart(later) && LoginCount(later) < MAX_SESSIONS
  {
    var es := past + [e] + later;
    assert es == past + ([e] + later);
    ReplayConcat(Cleared(), past, [e] + later);
    assert es[|past|] == e && es[|past| + 1..] == later;
    LoginAcceptedIff(es, |past|, now);
  }
}
