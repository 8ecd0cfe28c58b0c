/** The session-token table of the web interface
    (src/web/authentication.c): ten slots, lazy expiry, evict-oldest. */
module Sessions {
  import opened Text

  const MAX_SESSIONS: nat := 10
  const SESSION_LIFETIME_SEC: nat := 3600

  /** An empty token marks a free slot. */
  datatype Slot = Slot(expires: u32, token: string)

  type Table = seq<Slot>

  function Cleared(n: nat := MAX_SESSIONS): (t: Table)
    ensures |t| == n && forall y :: y in t ==> y.token == ""
  {
    seq(n, _ => Slot(0, ""))
  }

  function Stamp(token: string, now: u32): Slot {
    Slot((now + SESSION_LIFETIME_SEC) % U32, token)
  }

  // ---- specification of the two slot searches ----

  function FirstFree(t: Table, from: nat := 0): (i: nat)
    requires from <= |t|
    ensures from <= i <= |t|
    ensures i < |t| ==> t[i].token == ""
    ensures forall k :: from <= k < i ==> t[k].token != ""
    decreases |t| - from
  {
    if from == |t| || t[from].token == "" then from else FirstFree(t, from + 1)
  }

  /** The leftmost slot with the least expiry time. */
  ghost predicate IsOldest(t: Table, i: nat) {
    && i < |t|
    && (forall k :: 0 <= k < |t| ==> t[i].expires <= t[k].expires)
    && (forall k :: 0 <= k < i ==> t[i].expires < t[k].expires)
  }

  function Oldest(t: Table): (i: nat)
    requires t != []
    ensures IsOldest(t, i)
  {
    if |t| == 1 then 0 else
    var i := Oldest(t[..|t| - 1]);
    if t[|t| - 1].expires < t[i].expires then |t| - 1 else i
  }

  function Store(t: Table, token: string, now: u32): Table
    requires t != []
  {
    var free := FirstFree(t);
    t[(if free < |t| then free else Oldest(t)) := Stamp(token, now)]
  }

  function Lookup(t: Table, token: string, from: nat := 0): (i: nat)
    requires from <= |t|
    ensures from <= i <= |t|
    ensures i < |t| ==> t[i].token == token != ""
    ensures forall k :: from <= k < i ==> t[k].token == "" || t[k].token != token
    decreases |t| - from
  {
    if from == |t| || t[from].token == token != "" then from else Lookup(t, token, from + 1)
  }

  predicate Accepts(t: Table, token: string, now: u32) {
    var i := Lookup(t, token);
    i < |t| && t[i].expires > now
  }

  /** A check clears the slot it finds expired. */
  function Check(t: Table, token: string, now: u32): Table {
    var i := Lookup(t, token);
    if i < |t| && t[i].expires <= now then t[i := t[i].(token := "")] else t
  }

  // ---- the table as the firmware keeps it ----

  class SessionTable {
    const slots: array<Slot>

    ghost predicate Valid() {
      slots.Length == MAX_SESSIONS
    }

    constructor ()
      ensures Valid() && fresh(slots)
      ensures slots[..] == Cleared()
    {
      slots := new Slot[MAX_SESSIONS](_ => Slot(0, ""));
    }

    /** memset of the list in authentication_init. */
    method Clear()
      requires Valid()
      modifies slots
      ensures slots[..] == Cleared()
    {
      forall i | 0 <= i < slots.Length {
        slots[i] := Slot(0, "");
      }
    }

    method StoreSessionToken(token: string, now: u32)
      requires Valid()
      requires |token| < 128
      modifies slots
      ensures slots[..] == Store(old(slots[..]), token, now)
    {
      var i := 0;
      while i < MAX_SESSIONS
        invariant i <= MAX_SESSIONS
        invariant forall k :: 0 <= k < i ==> slots[k].token != ""
        invariant slots[..] == old(slots[..])
      {
        if slots[i].token == "" {
          slots[i] := Stamp(token, now);
          assert FirstFree(old(slots[..])) == i;
          return;
        }
        i := i + 1;
      }
      var oldestIdx := 0;
      var oldestTime := slots[0].expires;
      i := 1;
      while i < MAX_SESSIONS
        invariant 1 <= i <= MAX_SESSIONS && oldestIdx < i
        invariant oldestTime == slots[oldestIdx].expires
        invariant IsOldest(slots[..i], oldestIdx)
      {
        if slots[i].expires < oldestTime {
          oldestTime := slots[i].expires;
          oldestIdx := i;
        }
        i := i + 1;
      }
      assert slots[..i] == slots[..];
      assert Oldest(slots[..]) == oldestIdx;
      slots[oldestIdx] := Stamp(token, now);
    }

    method CheckTokenValid(token: string, now: u32) returns (ok: bool)
      requires Valid()
      modifies slots
      ensures slots[..] == Check(old(slots[..]), token, now)
      ensures ok == Accepts(old(slots[..]), token, now)
    {
      var i := 0;
      while i < MAX_SESSIONS
        invariant i <= MAX_SESSIONS
        invariant slots[..] == old(slots[..])
        invariant forall k :: 0 <= k < i ==> slots[k].token == "" || slots[k].token != token
      {
        if slots[i].token != "" && slots[i].token == token {
          assert Lookup(slots[..], token) == i;
          if slots[i].expires > now {
            return true;
          }
          slots[i] := slots[i].(token := "");
          return false;
        }
        i := i + 1;
      }
      assert Lookup(slots[..], token) == MAX_SESSIONS;
      return false;
    }
  }

  // ---- whole runs ----

  /** `Restart` is authentication_init, at power-up and on every address event. */
  datatype Event = Login(token: string, now: u32) | Probe(token: string, now: u32) | Restart(now: u32)

  function Apply(t: Table, e: Event): Table
    requires t != []
  {
    match e
    case Login(token, now) => Store(t, token, now)
    case Probe(token, now) => Check(t, token, now)
    case Restart(_) => Cleared(|t|)
  }

  function Replay(t: Table, es: seq<Event>): (r: Table)
    requires t != []
    ensures |r| == |t|
  {
    if es == [] then t else Apply(Replay(t, es[..|es| - 1]), es[|es| - 1])
  }

  lemma ReplayOneMore(t: Table, es: seq<Event>, e: Event)
    requires t != []
    ensures Replay(t, es + [e]) == Apply(Replay(t, es), e)
  {
  }

  lemma {:induction false} ReplayConcat(t: Table, a: seq<Event>, b: seq<Event>)
    requires t != []
    ensures Replay(t, a + b) == Replay(Replay(t, a), b)
  {
    if b == [] {
      assert a + b == a;
    } else {
      var init, e := b[..|b| - 1], b[|b| - 1];
      ReplayConcat(t, a, init);
      assert (a + b)[..|a + b| - 1] == a + init;
    }
  }

  /** The table after a run that starts from a cleared one. */
  function After(es: seq<Event>): (t: Table)
    ensures |t| == MAX_SESSIONS
  {
    Replay(Cleared(), es)
  }

  /** The entries that the logins since the last restart created, oldest first. */
  function Logins(es: seq<Event>): seq<Slot> {
    if es == [] || es[|es| - 1].Restart? then [] else
    var e := es[|es| - 1];
    Logins(es[..|es| - 1]) + if e.Login? then [Stamp(e.token, e.now)] else []
  }

  function Clock(es: seq<Event>): u32 {
    if es == [] then 0 else es[|es| - 1].now
  }

  /** The clock never steps back, no expiry time wraps round, and every token
      issued is new and fits its buffer. */
  ghost predicate Admissible(es: seq<Event>) {
    && (forall i, j :: 0 <= i < j < |es| ==> es[i].now <= es[j].now)
    && (forall i :: 0 <= i < |es| && es[i].Login? ==>
          es[i].now + SESSION_LIFETIME_SEC < U32 && 0 < |es[i].token| < 128)
    && (forall i, j :: 0 <= i < j < |es| && es[i].Login? && es[j].Login? ==> es[i].token != es[j].token)
  }

  /** The other logins that are not older than `x`, and those that are younger. */
  ghost function Rivals(log: seq<Slot>, x: Slot): set<Slot> {
    set y | y in log && y != x && y.expires >= x.expires
  }

  ghost function Younger(log: seq<Slot>, x: Slot): set<Slot> {
    set y | y in log && y.expires > x.expires
  }

  ghost predicate DistinctTokens(t: Table) {
    forall i, j :: 0 <= i < j < |t| && t[i].token != "" ==> t[i].token != t[j].token
  }

  ghost predicate LogFacts(log: seq<Slot>, clock: u32) {
    && DistinctTokens(log)
    && forall x :: x in log ==> x.token != "" && x.expires <= clock + SESSION_LIFETIME_SEC
  }

  /** A login that is gone although unexpired: everything still stored is at
      least as young, and ten other logins are. */
  ghost predicate Displaced(t: Table, log: seq<Slot>, x: Slot) {
    && (forall y :: y in t && y.token != "" ==> y.expires >= x.expires)
    && |Rivals(log, x)| >= MAX_SESSIONS
  }

  ghost predicate Inv(t: Table, log: seq<Slot>, clock: u32) {
    && |t| == MAX_SESSIONS
    && DistinctTokens(t)
    && LogFacts(log, clock)
    && (forall y :: y in t && y.token != "" ==> y in log)
    && (forall x :: x in log && x.expires > clock && x !in t ==> Displaced(t, log, x))
  }

  ghost function Values(t: Table): set<Slot> {
    set y | y in t
  }

  lemma {:induction false} ValuesCount(t: Table)
    requires forall i, j :: 0 <= i < j < |t| ==> t[i] != t[j]
    ensures |Values(t)| == |t|
  {
    if t != [] {
      var rest := t[..|t| - 1];
      ValuesCount(rest);
      assert t == rest + [t[|t| - 1]];
      assert Values(t) == Values(rest) + {t[|t| - 1]};
    } else {
      assert Values(t) == {};
    }
  }

  lemma SubsetCount<T>(a: set<T>, b: set<T>)
    requires a <= b
    ensures |a| <= |b|
  {
    assert b == a + (b - a);
  }

  /** Taking a probe in keeps the invariant. */
  lemma ProbeKeeps(t: Table, log: seq<Slot>, clock: u32, token: string, now: u32)
    requires Inv(t, log, clock) && clock <= now
    ensures Inv(Check(t, token, now), log, now)
  {
    var u := Check(t, token, now);
    assert forall y :: y in u && y.token != "" ==> y in t;
    var k := Lookup(t, token);
    assert forall i :: 0 <= i < |t| && (i != k || t[k].expires > now) ==> t[i] == u[i];
    assert forall x :: x in t && x.expires > now ==> x in u;
  }

  /** The entry that makes room, if it was alive, is displaced afterwards. */
  lemma EvictedIsDisplaced(t: Table, log: seq<Slot>, clock: u32, k: nat, e: Slot)
    requires Inv(t, log, clock) && FirstFree(t) == |t| && IsOldest(t, k)
    requires e.token != "" && e.expires >= clock + SESSION_LIFETIME_SEC
    requires forall x :: x in log ==> x.token != e.token
    ensures Displaced(t[k := e], log + [e], t[k])
  {
    var u := t[k := e];
    var m := t[k];
    assert m in t && m in log;
    forall i, j | 0 <= i < j < |u|
      ensures u[i] != u[j]
    {
      assert t[i] in t && t[j] in t;
    }
    ValuesCount(u);
    forall y | y in Values(u)
      ensures y in Rivals(log + [e], m)
    {
      var i :| 0 <= i < |u| && u[i] == y;
      assert t[i] in t;
      assert i != k ==> t[i].token != m.token;
    }
    SubsetCount(Values(u), Rivals(log + [e], m));
  }

  lemma LoginKeepsTable(t: Table, log: seq<Slot>, clock: u32, k: nat, e: Slot)
    requires Inv(t, log, clock) && k < |t|
    requires e.token != "" && clock + SESSION_LIFETIME_SEC <= e.expires
    requires forall x :: x in log ==> x.token != e.token
    ensures DistinctTokens(t[k := e])
    ensures LogFacts(log + [e], e.expires - SESSION_LIFETIME_SEC)
    ensures forall y :: y in t[k := e] && y.token != "" ==> y in log + [e]
  {
  }

  lemma MissingStaysDisplaced(t: Table, log: seq<Slot>, k: nat, e: Slot, x: Slot)
    requires k < |t| && Displaced(t, log, x) && e.expires >= x.expires
    ensures Displaced(t[k := e], log + [e], x)
  {
    assert forall y :: y in t[k := e] ==> y in t || y == e;
    SubsetCount(Rivals(log, x), Rivals(log + [e], x));
  }

  lemma LoginKeeps(t: Table, log: seq<Slot>, clock: u32, token: string, now: u32)
    requires Inv(t, log, clock) && clock <= now
    requires token != "" && now + SESSION_LIFETIME_SEC < U32
    requires forall x :: x in log ==> x.token != token
    ensures Inv(Store(t, token, now), log + [Stamp(token, now)], now)
  {
    var e := Stamp(token, now);
    var free := FirstFree(t);
    var k := if free < |t| then free else Oldest(t);
    var u := t[k := e];
    LoginKeepsTable(t, log, clock, k, e);
    forall x | x in log + [e] && x.expires > now && x !in u
      ensures Displaced(u, log + [e], x)
    {
      assert u[k] == e;
      if x in t {
        assert forall i :: 0 <= i < |t| && i != k ==> u[i] == t[i] && t[i] in u;
        assert x == t[k] && x in log;
        EvictedIsDisplaced(t, log, clock, k, e);
      } else {
        MissingStaysDisplaced(t, log, k, e, x);
      }
    }
  }

  lemma {:induction false} LoginTokens(es: seq<Event>)
    ensures forall x :: x in Logins(es) ==> exists i :: 0 <= i < |es| && es[i].Login? && es[i].token == x.token
  {
    if es != [] {
      var pre := es[..|es| - 1];
      LoginTokens(pre);
      forall x | x in Logins(es)
        ensures exists i :: 0 <= i < |es| && es[i].Login? && es[i].token == x.token
      {
        if x in Logins(pre) {
          var i :| 0 <= i < |pre| && pre[i].Login? && pre[i].token == x.token;
          assert es[i].Login? && es[i].token == x.token;
        }
      }
    }
  }

  lemma AdmissiblePrefix(es: seq<Event>)
    requires Admissible(es) && es != []
    ensures var pre, e := es[..|es| - 1], es[|es| - 1];
            Admissible(pre) && Clock(pre) <= e.now
            && (e.Login? ==> forall x :: x in Logins(pre) ==> x.token != e.token)
  {
    var pre := es[..|es| - 1];
    assert forall i :: 0 <= i < |pre| ==> pre[i] == es[i];
    LoginTokens(pre);
  }

  lemma {:induction false} RunKeeps(es: seq<Event>)
    requires Admissible(es)
    ensures Inv(After(es), Logins(es), Clock(es))
  {
    if es != [] {
      var pre := es[..|es| - 1];
      var e := es[|es| - 1];
      AdmissiblePrefix(es);
      RunKeeps(pre);
      match e
      case Probe(token, now) =>
        ProbeKeeps(After(pre), Logins(pre), Clock(pre), token, now);
        assert Logins(es) == Logins(pre);
      case Login(token, now) =>
        assert es[|es| - 1].token != "" && now + SESSION_LIFETIME_SEC < U32;
        LoginKeeps(After(pre), Logins(pre), Clock(pre), token, now);
      case Restart(_) =>
    }
  }

  lemma AcceptsIffStored(t: Table, token: string, now: u32)
    requires DistinctTokens(t)
    ensures Accepts(t, token, now) <==> exists x :: x in t && x.token == token != "" && x.expires > now
  {
  }

  /** Soundness of acceptance for any admissible run, logins in the same second
      included: an accepted token was issued, has not expired, and fewer than
      ten logins are strictly younger. */
  lemma AcceptedOnlyIfRecent(es: seq<Event>, token: string, now: u32)
    requires Admissible(es) && Clock(es) <= now
    requires Accepts(After(es), token, now)
    ensures exists x :: x in Logins(es) && x.token == token && x.expires > now
                        && |Younger(Logins(es), x)| < MAX_SESSIONS
  {
    var t, log := After(es), Logins(es);
    RunKeeps(es);
    AcceptsIffStored(t, token, now);
    var x :| x in t && x.token == token != "" && x.expires > now;
    var younger := Younger(log, x);
    assert x in log;
    forall y | y in younger
      ensures y in Values(t) - {x}
    {
    }
    SubsetCount(younger, Values(t) - {x});
    DistinctCountAtMost(t);
  }

  lemma {:induction false} DistinctCountAtMost(t: Table)
    ensures |Values(t)| <= |t|
  {
    if t != [] {
      var rest := t[..|t| - 1];
      DistinctCountAtMost(rest);
      assert t == rest + [t[|t| - 1]];
      assert Values(t) == Values(rest) + {t[|t| - 1]};
    } else {
      assert Values(t) == {};
    }
  }

  /** Completeness for any admissible run: an unexpired token is accepted as
      long as fewer than ten other logins are at least as young. */
  lemma RecentIsAccepted(es: seq<Event>, x: Slot, now: u32)
    requires Admissible(es) && Clock(es) <= now
    requires x in Logins(es) && x.expires > now
    requires |Rivals(Logins(es), x)| < MAX_SESSIONS
    ensures Accepts(After(es), x.token, now)
  {
    RunKeeps(es);
    AcceptsIffStored(After(es), x.token, now);
  }

  /** A check that finds its token expired frees the slot, and nothing else
      changes. */
  lemma CheckFreesExpired(t: Table, token: string, now: u32)
    requires DistinctTokens(t) && token != ""
    ensures var u := Check(t, token, now);
      |u| == |t| && forall i :: 0 <= i < |t| ==>
        u[i] == if t[i].token == token && t[i].expires <= now then Slot(t[i].expires, "") else t[i]
  {
  }

  /** A token that has just been issued is accepted in the same second exactly
      when its expiry time does not wrap round 32 bits. */
  lemma FreshTokenAcceptedIff(t: Table, token: string, now: u32)
    requires t != [] && token != "" && forall y :: y in t ==> y.token != token
    ensures Accepts(Store(t, token, now), token, now) <==> now + SESSION_LIFETIME_SEC < U32
  {
    var free := FirstFree(t);
    var k := if free < |t| then free else Oldest(t);
    assert Store(t, token, now)[k].token == token;
    assert Lookup(Store(t, token, now), token) == k;
  }

  // ---- the exact meaning for a login that shares its second with no other ----

  function LoginCount(es: seq<Event>): nat {
    if es == [] then 0 else LoginCount(es[..|es| - 1]) + if es[|es| - 1].Login? then 1 else 0
  }

  ghost predicate NoRestart(es: seq<Event>) {
    forall i :: 0 <= i < |es| ==> !es[i].Restart?
  }

  lemma {:induction false} LoginsConcat(a: seq<Event>, b: seq<Event>)
    requires NoRestart(b)
    ensures Logins(a + b) == Logins(a) + Logins(b)
    ensures |Logins(b)| == LoginCount(b)
  {
    if b == [] {
      assert a + b == a;
    } else {
      LoginsConcat(a, b[..|b| - 1]);
      assert (a + b)[..|a + b| - 1] == a + b[..|b| - 1];
    }
  }

  /** Every entry of the log comes from a login event since the last restart. */
  lemma {:induction false} LoginOrigin(es: seq<Event>, x: Slot)
    requires x in Logins(es)
    ensures exists k: nat :: IsLoginOf(es, k, x)
  {
    var n := |es| - 1;
    var pre := es[..n];
    if x in Logins(pre) {
      LoginOrigin(pre, x);
      var k: nat :| IsLoginOf(pre, k, x);
      assert es[k] == pre[k];
      assert forall i :: k < i < n ==> es[i] == pre[k + 1..][i - k - 1];
      assert IsLoginOf(es, k, x);
    } else {
      assert IsLoginOf(es, n, x);
    }
  }

  ghost predicate IsLoginOf(es: seq<Event>, k: nat, x: Slot) {
    && k < |es| && es[k].Login? && Stamp(es[k].token, es[k].now) == x
    && NoRestart(es[k + 1..])
  }

  /** No other login happened in the second of login `k`. */
  ghost predicate Alone(es: seq<Event>, k: nat) {
    && k < |es| && es[k].Login?
    && forall j :: 0 <= j < |es| && j != k && es[j].Login? ==> es[j].now != es[k].now
  }

  /** The log before, at and after such a login. */
  lemma LogSplit(es: seq<Event>, k: nat, x: Slot) returns (before: seq<Slot>, after: seq<Slot>)
    requires Admissible(es) && Alone(es, k) && IsLoginOf(es, k, x)
    ensures Logins(es) == before + [x] + after && |after| == LoginCount(es[k + 1..])
    ensures forall y :: y in before ==> y.expires < x.expires
    ensures forall y :: y in after ==> y.expires > x.expires
  {
    before, after := Logins(es[..k]), Logins(es[k + 1..]);
    LogAround(es, k);
    OldLogins(es, k);
    NewLogins(es, k);
    assert es[k].now + SESSION_LIFETIME_SEC < U32;
  }

  lemma LogAround(es: seq<Event>, k: nat)
    requires k < |es| && es[k].Login? && NoRestart(es[k + 1..])
    ensures Logins(es) == Logins(es[..k]) + [Stamp(es[k].token, es[k].now)] + Logins(es[k + 1..])
    ensures |Logins(es[k + 1..])| == LoginCount(es[k + 1..])
  {
    var a, b := es[..k], es[k + 1..];
    assert es == a + [es[k]] + b;
    LoginsConcat(a + [es[k]], b);
    assert (a + [es[k]])[..k] == a;
  }

  lemma NewLogins(es: seq<Event>, k: nat)
    requires Admissible(es) && Alone(es, k)
    ensures forall y :: y in Logins(es[k + 1..]) ==> y.expires > es[k].now + SESSION_LIFETIME_SEC
  {
    var b := es[k + 1..];
    forall y | y in Logins(b)
      ensures y.expires > es[k].now + SESSION_LIFETIME_SEC
    {
      LoginOrigin(b, y);
      var i: nat :| IsLoginOf(b, i, y);
      assert b[i] == es[k + 1 + i];
    }
  }

  lemma OldLogins(es: seq<Event>, k: nat)
    requires Admissible(es) && Alone(es, k)
    ensures forall y :: y in Logins(es[..k]) ==> y.expires < es[k].now + SESSION_LIFETIME_SEC
  {
    var a := es[..k];
    forall y | y in Logins(a)
      ensures y.expires < es[k].now + SESSION_LIFETIME_SEC
    {
      LoginOrigin(a, y);
      var i: nat :| IsLoginOf(a, i, y);
      assert a[i] == es[i];
    }
  }

  lemma LogIsSound(es: seq<Event>)
    requires Admissible(es)
    ensures DistinctTokens(Logins(es)) && forall y :: y in Logins(es) ==> y.token != ""
  {
    RunKeeps(es);
  }

  lemma YoungerIsTail(log: seq<Slot>, before: seq<Slot>, x: Slot, after: seq<Slot>)
    requires log == before + [x] + after
    requires DistinctTokens(log) && forall y :: y in log ==> y.token != ""
    requires forall y :: y in before ==> y.expires < x.expires
    requires forall y :: y in after ==> y.expires > x.expires
    ensures x in log && |Younger(log, x)| == |after| && Rivals(log, x) == Younger(log, x)
  {
    assert log[|before|] == x;
    assert forall y :: y in log <==> y in before || y == x || y in after;
    assert Younger(log, x) == Values(after);
    assert forall i :: 0 <= i < |after| ==> after[i] == log[|before| + 1 + i] && after[i] in after;
    ValuesCount(after);
  }

  /** The younger logins and the rivals of such a login are both exactly the
      logins after it. */
  lemma YoungerAreLater(es: seq<Event>, k: nat, x: Slot)
    requires Admissible(es) && Alone(es, k) && IsLoginOf(es, k, x)
    ensures x in Logins(es) && |Younger(Logins(es), x)| == LoginCount(es[k + 1..])
    ensures Rivals(Logins(es), x) == Younger(Logins(es), x)
  {
    var before, after := LogSplit(es, k, x);
    LogIsSound(es);
    YoungerIsTail(Logins(es), before, x, after);
  }

  /** Login number `k` of the run still grants access at `now`: it is less than
      an hour old, and fewer than ten logins and no restart followed. */
  ghost predicate Grants(es: seq<Event>, k: nat, now: u32)
    requires k < |es|
  {
    && es[k].Login? && now < es[k].now + SESSION_LIFETIME_SEC
    && NoRestart(es[k + 1..]) && LoginCount(es[k + 1..]) < MAX_SESSIONS
  }

  /** "The last ten logins, each for one hour", for each login that shares its
      second with no other, whatever ties there are among the others and
      whatever lazy clearing and slot reuse happened. */
  lemma LoginAcceptedIff(es: seq<Event>, k: nat, now: u32)
    requires Admissible(es) && Alone(es, k) && Clock(es) <= now
    ensures Accepts(After(es), es[k].token, now) <==> Grants(es, k, now)
  {
    if Accepts(After(es), es[k].token, now) {
      AcceptedIsGranted(es, k, now);
    }
    if Grants(es, k, now) {
      GrantedIsAccepted(es, k, now);
    }
  }

  lemma AcceptedIsGranted(es: seq<Event>, k: nat, now: u32)
    requires Admissible(es) && Alone(es, k) && Clock(es) <= now
    requires Accepts(After(es), es[k].token, now)
    ensures Grants(es, k, now)
  {
    AcceptedOnlyIfRecent(es, es[k].token, now);
    var x :| x in Logins(es) && x.token == es[k].token && x.expires > now
              && |Younger(Logins(es), x)| < MAX_SESSIONS;
    OnlyLoginOf(es, k, x);
    YoungerAreLater(es, k, x);
  }

  /** Tokens are new, so an entry of the log with this token is of this login. */
  lemma OnlyLoginOf(es: seq<Event>, k: nat, x: Slot)
    requires Admissible(es) && k < |es| && es[k].Login? && x in Logins(es) && x.token == es[k].token
    ensures IsLoginOf(es, k, x) && x.expires == es[k].now + SESSION_LIFETIME_SEC
  {
    LoginOrigin(es, x);
    var j: nat :| IsLoginOf(es, j, x);
    StampIs(es, j);
    SameTokenSameLogin(es, j, k);
  }

  lemma StampIs(es: seq<Event>, k: nat)
    requires Admissible(es) && k < |es| && es[k].Login?
    ensures Stamp(es[k].token, es[k].now) == Slot(es[k].now + SESSION_LIFETIME_SEC, es[k].token)
  {
    assert es[k].now + SESSION_LIFETIME_SEC < U32;
  }

  lemma SameTokenSameLogin(es: seq<Event>, j: nat, k: nat)
    requires Admissible(es) && j < |es| && k < |es| && es[j].Login? && es[k].Login?
    requires es[j].token == es[k].token
    ensures j == k
  {
  }

  lemma GrantedIsAccepted(es: seq<Event>, k: nat, now: u32)
    requires Admissible(es) && Alone(es, k) && Clock(es) <= now
    requires Grants(es, k, now)
    ensures Accepts(After(es), es[k].token, now)
  {
    var x := Stamp(es[k].token, es[k].now);
    StampIs(es, k);
    YoungerAreLater(es, k, x);
    RecentIsAccepted(es, x, now);
  }

  ghost predicate StrictLogins(es: seq<Event>) {
    forall i, j :: 0 <= i < j < |es| && es[i].Login? && es[j].Login? ==> es[i].now < es[j].now
  }

  /** For whole runs without ties: a token is accepted exactly when some login of
      the run issued it and still grants access. */
  lemma AcceptedIffAmongLastTen(es: seq<Event>, token: string, now: u32)
    requires Admissible(es) && StrictLogins(es) && Clock(es) <= now
    ensures Accepts(After(es), token, now)
       <==> exists k :: 0 <= k < |es| && es[k].Login? && es[k].token == token && Grants(es, k, now)
  {
    forall k | 0 <= k < |es| && es[k].Login?
      ensures Accepts(After(es), es[k].token, now) <==> Grants(es, k, now)
    {
      assert Alone(es, k);
      LoginAcceptedIff(es, k, now);
    }
    if Accepts(After(es), token, now) {
      AcceptedOnlyIfRecent(es, token, now);
      var x :| x in Logins(es) && x.token == token;
      LoginOrigin(es, x);
      var k: nat :| IsLoginOf(es, k, x);
      assert es[k].token == token;
    }
  }

  // ---- why a shared second matters ----

  /** `n` logins within one second. */
  function Burst(n: nat, now: u32): (es: seq<Event>)
    ensures |es| == n
    ensures forall i :: 0 <= i < n ==> es[i] == Login(Decimal(i + 1), now)
  {
    if n == 0 then [] else Burst(n - 1, now) + [Login(Decimal(n), now)]
  }

  ghost predicate FilledUpTo(t: Table, n: nat, now: u32) {
    && |t| == MAX_SESSIONS
    && forall i :: 0 <= i < |t| ==>
         if i < n then t[i] == Stamp(Decimal(i + 1), now) && t[i].token != "" else t[i].token == ""
  }

  lemma {:induction false} BurstFills(n: nat, now: u32)
    requires n <= MAX_SESSIONS
    ensures FilledUpTo(After(Burst(n, now)), n, now)
  {
    if n > 0 {
      BurstFills(n - 1, now);
      assert Burst(n, now)[..n - 1] == Burst(n - 1, now);
      var t := After(Burst(n - 1, now));
      assert t[n - 1].token == "";
      assert FirstFree(t) == n - 1;
    } else {
      assert forall i :: 0 <= i < MAX_SESSIONS ==> Cleared()[i] in Cleared();
    }
  }

  lemma BurstAdmissible(n: nat, now: u32)
    requires n < 256 && now + SESSION_LIFETIME_SEC < U32
    ensures Admissible(Burst(n, now))
  {
    var es := Burst(n, now);
    forall i | 0 <= i < n ensures 0 < |es[i].token| < 128 && DecimalValue(es[i].token) == i + 1 {
      ShortDecimal(i + 1);
    }
  }

  lemma ShortDecimal(n: nat)
    requires n <= 256
    ensures 0 < |Decimal(n)| < 128 && DecimalValue(Decimal(n)) == n
  {
    if n < 256 { DecimalByte(n); } else { DecimalByte(25); }
    DecimalRoundTrip(n);
  }

  /** In a full table whose slots expire together, the next login takes slot 0. */
  lemma TieTakesFirstSlot(t: Table, token: string, now: u32)
    requires |t| == MAX_SESSIONS && now + SESSION_LIFETIME_SEC < U32
    requires forall i :: 0 <= i < |t| ==> t[i].token != "" && t[i].expires == now + SESSION_LIFETIME_SEC
    ensures Store(t, token, now) == t[0 := Stamp(token, now)]
  {
  }

  lemma BurstOverflows(now: u32)
    requires now + SESSION_LIFETIME_SEC < U32
    ensures After(Burst(12, now)) == After(Burst(10, now))[0 := Stamp(Decimal(12), now)]
  {
    BurstFills(10, now);
    assert Burst(11, now)[..10] == Burst(10, now) && Burst(12, now)[..11] == Burst(11, now);
    var t := After(Burst(10, now));
    TieTakesFirstSlot(t, Decimal(11), now);
    assert After(Burst(11, now)) == t[0 := Stamp(Decimal(11), now)];
    TieTakesFirstSlot(t[0 := Stamp(Decimal(11), now)], Decimal(12), now);
  }

  /** Ties go to the lowest index, so in a burst of twelve logins within one
      second the twelfth evicts the eleventh although only one login followed. */
  lemma SameSecondLoginIsLost(now: u32)
    requires now + SESSION_LIFETIME_SEC < U32
    ensures Admissible(Burst(12, now)) && LoginCount(Burst(12, now)[11..]) == 1
    ensures !Accepts(After(Burst(12, now)), Decimal(11), now)
  {
    BurstAdmissible(12, now);
    BurstFills(10, now);
    BurstOverflows(now);
    var last := Burst(12, now)[11..];
    assert last == [Login(Decimal(12), now)] && last[..0] == [];
    forall i: nat | i < 13 && i != 11 ensures Decimal(i) != Decimal(11) {
      DecimalRoundTrip(i);
      DecimalRoundTrip(11);
    }
    NotStored(After(Burst(12, now)), Decimal(11), now);
  }

  lemma NotStored(t: Table, token: string, now: u32)
    requires forall i :: 0 <= i < |t| ==> t[i].token != token
    ensures !Accepts(t, token, now)
  {
  }
}
