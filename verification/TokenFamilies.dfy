/** Refresh-token families under interleaved requests. */
module TokenFamilies {
  import opened Wrappers

  type Hash = nat
  type Family = nat
  type UserId = nat
  type RequestId = nat
  type Time = nat

  const REFRESH_TTL: nat := 30 * 24 * 3600 * 1000

  datatype Token = Token(family: Family, user: UserId, expires: Time, rotated: Option<Time>, revoked: Option<Time>)

  predicate Live(t: Token) {
    t.rotated.None? && t.revoked.None?
  }

  // ---- statements

  /** The conditional update of a rotation and how many rows it changed. */
  function Rotated(tokens: map<Hash, Token>, h: Hash, now: Time): (map<Hash, Token>, nat) {
    if h in tokens && Live(tokens[h]) then (tokens[h := tokens[h].(rotated := Some(now))], 1) else (tokens, 0)
  }

  function Revoked(tokens: map<Hash, Token>, f: Family, now: Time): map<Hash, Token> {
    map h | h in tokens ::
      if tokens[h].family == f && tokens[h].revoked.None? then tokens[h].(revoked := Some(now)) else tokens[h]
  }

  function Issued(tokens: map<Hash, Token>, f: Family, user: UserId, h: Hash, now: Time): map<Hash, Token> {
    tokens[h := Token(f, user, now + REFRESH_TTL, None, None)]
  }

  // ---- the protocol

  /** A request between two of its statements; `at` is when it read the clock, once, at its start. */
  datatype Request =
    | Found(token: Hash, at: Time)
    | Issuing(family: Family, user: UserId, at: Time)
    | Revoking(family: Family, at: Time)

  datatype System = System(
    tokens: map<Hash, Token>,
    families: set<Family>,
    requests: map<RequestId, Request>,
    now: Time)

  datatype Event =
    | Find(request: RequestId, token: Hash)
    | Rotate(request: RequestId)
    | Issue(request: RequestId, token: Hash)
    | Deny(request: RequestId)
    | Revoke(request: RequestId)
    | Login(request: RequestId, family: Family, user: UserId)
    | Logout(request: RequestId, user: UserId, token: Hash)
    | Crash(request: RequestId)
    | Tick(now: Time)

  predicate Enabled(s: System, e: Event) {
    match e
    case Find(r, h) => r !in s.requests && h in s.tokens && s.now < s.tokens[h].expires
    case Rotate(r) => r in s.requests && s.requests[r].Found? && s.requests[r].token in s.tokens
    case Issue(r, h) => r in s.requests && s.requests[r].Issuing? && h !in s.tokens
    case Deny(r) => r in s.requests && s.requests[r].Issuing?
    case Revoke(r) => r in s.requests && s.requests[r].Revoking?
    case Login(r, f, _) => r !in s.requests && f !in s.families
    case Logout(r, user, h) => r !in s.requests && h in s.tokens && s.tokens[h].user == user
    case Crash(r) => r in s.requests
    case Tick(t) => s.now <= t
  }

  function Next(s: System, e: Event): System
    requires Enabled(s, e)
  {
    match e
    case Find(r, h) => s.(requests := s.requests[r := Found(h, s.now)])
    case Rotate(r) =>
      var h, at := s.requests[r].token, s.requests[r].at;
      var (tokens, count) := Rotated(s.tokens, h, at);
      var family, user := s.tokens[h].family, s.tokens[h].user;
      var next := if count == 1 then Issuing(family, user, at) else Revoking(family, at);
      s.(tokens := tokens, requests := s.requests[r := next])
    case Issue(r, h) =>
      var q := s.requests[r];
      s.(tokens := Issued(s.tokens, q.family, q.user, h, q.at), requests := s.requests - {r})
    case Deny(r) => s.(requests := s.requests - {r})
    case Revoke(r) =>
      var q := s.requests[r];
      s.(tokens := Revoked(s.tokens, q.family, q.at), requests := s.requests - {r})
    case Login(r, f, user) => s.(families := s.families + {f}, requests := s.requests[r := Issuing(f, user, s.now)])
    case Logout(r, _, h) => s.(requests := s.requests[r := Revoking(s.tokens[h].family, s.now)])
    case Crash(r) => s.(requests := s.requests - {r})
    case Tick(t) => s.(now := t)
  }

  // ---- the statements, column by column

  /** A token as it is issued: live, of the family and the user, and for thirty days in milliseconds. */
  predicate IsNew(t: Token, f: Family, user: UserId, now: Time) {
    t.family == f && t.user == user && t.rotated.None? && t.revoked.None? && t.expires == now + 30 * 24 * 3600 * 1000
  }

  /** A live token is spent, and nothing else about it changes. */
  predicate IsSpent(t: Token, u: Token, now: Time) {
    && t.rotated.None? && t.revoked.None? && u.rotated == Some(now)
    && u.revoked.None? && u.family == t.family && u.user == t.user && u.expires == t.expires
  }

  /** All other tokens are as they were. */
  ghost predicate SameBut(was: map<Hash, Token>, tokens: map<Hash, Token>, h: Hash) {
    && (forall g :: g != h ==> (g in tokens <==> g in was))
    && (forall g :: g != h && g in was ==> tokens[g] == was[g])
  }

  /** Each token of the family that is not revoked yet is; nothing else changes. */
  predicate IsRevoked(was: map<Hash, Token>, tokens: map<Hash, Token>, f: Family, now: Time) {
    && tokens.Keys == was.Keys
    && forall h :: h in was ==>
         && tokens[h].family == was[h].family && tokens[h].user == was[h].user
         && tokens[h].expires == was[h].expires && tokens[h].rotated == was[h].rotated
         && tokens[h].revoked == if was[h].family == f && was[h].revoked.None? then Some(now) else was[h].revoked
  }

  /** What the three statements on tokens do. */
  lemma StatementsAre(tokens: map<Hash, Token>, h: Hash, f: Family, user: UserId, now: Time)
    ensures var t := Issued(tokens, f, user, h, now); h in t && IsNew(t[h], f, user, now) && SameBut(tokens, t, h)
    ensures var (t, n) := Rotated(tokens, h, now);
      if h in tokens && tokens[h].rotated.None? && tokens[h].revoked.None?
      then n == 1 && h in t && IsSpent(tokens[h], t[h], now) && SameBut(tokens, t, h) else n == 0 && t == tokens
    ensures IsRevoked(tokens, Revoked(tokens, f, now), f, now)
  {
  }

  /**
   A token just issued is live, belongs to the family and user its request was for, and a request can find
   it exactly until thirty days after the request began.
   */
  lemma IssuedCanBeUsed(s: System, r: RequestId, h: Hash, q: RequestId, later: Time)
    requires Enabled(s, Issue(r, h)) && q !in s.requests && s.now <= later
    ensures var t := Next(s, Issue(r, h)).(now := later);
      && h in t.tokens && IsNew(t.tokens[h], s.requests[r].family, s.requests[r].user, s.requests[r].at)
      && (Enabled(t, Find(q, h)) <==> later < s.requests[r].at + 30 * 24 * 3600 * 1000)
  {
  }

  /** A request that finds a live token rotates it and goes on to issue one for the same family and user. */
  lemma FoundIsRotated(s: System, q: RequestId, h: Hash)
    requires Enabled(s, Find(q, h)) && s.tokens[h].rotated.None? && s.tokens[h].revoked.None?
    ensures Enabled(Next(s, Find(q, h)), Rotate(q))
    ensures var t := Next(Next(s, Find(q, h)), Rotate(q));
      && h in t.tokens && IsSpent(s.tokens[h], t.tokens[h], s.now) && SameBut(s.tokens, t.tokens, h)
      && q in t.requests && t.requests[q] == Issuing(s.tokens[h].family, s.tokens[h].user, s.now)
  {
  }

  // ---- runs

  ghost predicate Legal(s: System, events: seq<Event>)
    decreases |events|
  {
    events == [] || (Enabled(s, events[0]) && Legal(Next(s, events[0]), events[1..]))
  }

  ghost function After(s: System, events: seq<Event>): System
    requires Legal(s, events)
    decreases |events|
  {
    if events == [] then s else After(Next(s, events[0]), events[1..])
  }

  // ---- at most one token live or about to be

  ghost predicate IsIssuing(s: System, r: RequestId, f: Family) {
    r in s.requests && s.requests[r].Issuing? && s.requests[r].family == f
  }

  ghost predicate IsLive(s: System, h: Hash, f: Family) {
    h in s.tokens && Live(s.tokens[h]) && s.tokens[h].family == f
  }

  ghost predicate Single(s: System, f: Family) {
    && (forall g, h :: IsLive(s, g, f) && IsLive(s, h, f) ==> g == h)
    && (forall q, r :: IsIssuing(s, q, f) && IsIssuing(s, r, f) ==> q == r)
    && (forall h, r :: IsLive(s, h, f) ==> !IsIssuing(s, r, f))
  }

  /** Families in use are known, so a login's is new. */
  ghost predicate Known(s: System) {
    && (forall h :: h in s.tokens ==> s.tokens[h].family in s.families)
    && (forall r :: r in s.requests && s.requests[r].Issuing? ==> s.requests[r].family in s.families)
  }

  lemma StepKeepsSingle(s: System, e: Event, f: Family)
    requires Known(s) && Single(s, f) && Enabled(s, e)
    ensures Known(Next(s, e)) && Single(Next(s, e), f)
  {
    var t := Next(s, e);
    forall h | IsLive(t, h, f) ensures IsLive(s, h, f) || (e.Issue? && h == e.token && IsIssuing(s, e.request, f)) {
    }
    forall q | IsIssuing(t, q, f) && !IsIssuing(s, q, f)
      ensures (e.Login? && q == e.request && e.family == f)
        || (e.Rotate? && q == e.request && IsLive(s, s.requests[q].token, f))
    {
    }
    match e
    case Rotate(r) => assert forall h :: IsLive(t, h, f) ==> h != s.requests[r].token;
    case Issue(r, _) => assert !IsIssuing(t, r, f);
    case Login(r, _, _) => assert e.family == f ==> (forall h :: !IsLive(s, h, f)) && forall q :: !IsIssuing(s, q, f);
    case _ =>
  }

  /** Main result: in every interleaving each family has at most one token that is live or about to be issued. */
  lemma {:induction false} RunsKeepSingle(s: System, events: seq<Event>, f: Family)
    requires Known(s) && Single(s, f) && Legal(s, events)
    ensures Known(After(s, events)) && Single(After(s, events), f)
    decreases |events|
  {
    if events != [] {
      StepKeepsSingle(s, events[0], f);
      RunsKeepSingle(Next(s, events[0]), events[1..], f);
    }
  }

  // ---- revocation

  /** No token of the family can be refreshed and none is about to be issued. */
  ghost predicate Dead(s: System, f: Family) {
    && f in s.families
    && (forall h :: !IsLive(s, h, f))
    && (forall r :: !IsIssuing(s, r, f))
  }

  /** Main result: a dead family stays dead in every interleaving. */
  lemma {:induction false} DeadForGood(s: System, events: seq<Event>, f: Family)
    requires Dead(s, f) && Legal(s, events)
    ensures Dead(After(s, events), f)
    decreases |events|
  {
    if events != [] {
      var t := Next(s, events[0]);
      forall h ensures !IsLive(t, h, f) {
        assert !IsLive(s, h, f);
        if events[0].Issue? {
          assert !IsIssuing(s, events[0].request, f);
        }
      }
      forall r ensures !IsIssuing(t, r, f) {
        assert !IsIssuing(s, r, f);
        if events[0].Rotate? {
          assert !IsLive(s, s.requests[events[0].request].token, f);
        }
      }
      DeadForGood(t, events[1..], f);
    }
  }

  /** Main result: revoking a family kills it exactly when no request is between a rotation and its issue. */
  lemma RevokeKillsExactly(s: System, r: RequestId)
    requires Known(s) && Enabled(s, Revoke(r)) && s.requests[r].family in s.families
    ensures Dead(Next(s, Revoke(r)), s.requests[r].family) <==> forall q :: !IsIssuing(s, q, s.requests[r].family)
  {
    var f, t := s.requests[r].family, Next(s, Revoke(r));
    forall q ensures IsIssuing(s, q, f) <==> IsIssuing(t, q, f) {
    }
  }

  /** A family revoked while a rotation awaits its issue lives on. */
  lemma RevokedFamilySurvives(s: System, r: RequestId, q: RequestId, h: Hash)
    requires Enabled(s, Revoke(r)) && IsIssuing(s, q, s.requests[r].family) && h !in s.tokens
    ensures Legal(s, [Revoke(r), Issue(q, h)])
    ensures IsLive(After(s, [Revoke(r), Issue(q, h)]), h, s.requests[r].family)
  {
    var events := [Revoke(r), Issue(q, h)];
    var t := Next(s, Revoke(r));
    assert h !in t.tokens;
    assert events[1..] == [Issue(q, h)] && events[1..][1..] == [];
    assert Legal(t, [Issue(q, h)]) && After(t, [Issue(q, h)]) == Next(t, Issue(q, h));
    assert IsLive(Next(t, Issue(q, h)), h, s.requests[r].family);
  }

  /** Main result: with no other request under way, presenting a spent token that has not expired kills its family. */
  lemma ReuseKills(s: System, r: RequestId, h: Hash)
    requires Known(s) && s.requests == map[] && h in s.tokens && !Live(s.tokens[h]) && s.now < s.tokens[h].expires
    ensures Legal(s, [Find(r, h), Rotate(r), Revoke(r)])
    ensures Dead(After(s, [Find(r, h), Rotate(r), Revoke(r)]), s.tokens[h].family)
  {
    var events := [Find(r, h), Rotate(r), Revoke(r)];
    var s1 := Next(s, Find(r, h));
    var s2 := Next(s1, Rotate(r));
    assert events[1..] == [Rotate(r), Revoke(r)] && events[1..][1..] == [Revoke(r)] && events[1..][1..][1..] == [];
    assert Legal(s2, [Revoke(r)]) && After(s2, [Revoke(r)]) == Next(s2, Revoke(r));
    RevokeKillsExactly(s2, r);
  }
}
